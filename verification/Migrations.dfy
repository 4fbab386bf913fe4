/**
 Forward-only migrations: what a plan may run, and a runner that can stop after any transaction.
*/
module Migrations {
  import opened Texts
  import opened Sorting
  import opened Hashing

  datatype Migration = Migration(version: Text, name: Text, sql: Text, checksum: Digest)

  /** A row of the bookkeeping table. */
  datatype Row = Row(version: Text, name: Text, checksum: Digest)

  datatype Problem = NotShipped(version: Text) | OutOfOrder(version: Text) | Changed(version: Text)

  datatype MigrationPlan = MigrationPlan(pending: seq<Migration>, skipped: seq<Migration>, problems: seq<Problem>)

  function RowVersion(r: Row): Text { r.version }

  /** What `loadMigrations` returns: ascending versions, each once and none empty. */
  ghost predicate Loaded(shipped: seq<Migration>)
  {
    && (forall i :: 0 <= i < |shipped| ==> shipped[i].version != [])
    && (forall i, j :: 0 <= i < j < |shipped| ==> Less(shipped[i].version, shipped[j].version))
  }

  /** `appliedByVersion.get(version)`: the last entry of that version. */
  function Find(applied: seq<Row>, version: Text): (r: Option<Row>)
    ensures r.None? <==> forall row <- applied :: row.version != version
    ensures r.Some? ==> r.value in applied && r.value.version == version
  {
    if applied == [] then None
    else if applied[|applied| - 1].version == version then Some(applied[|applied| - 1])
    else Find(applied[..|applied| - 1], version)
  }

  predicate Ships(shipped: seq<Migration>, version: Text)
  {
    exists i :: 0 <= i < |shipped| && shipped[i].version == version
  }

  /** `entry.version > highest`, kept over the list, from the empty string. */
  function Highest(applied: seq<Row>): Text
  {
    if applied == [] then []
    else
      var highest := Highest(applied[..|applied| - 1]);
      var version := applied[|applied| - 1].version;
      if Less(highest, version) then version else highest
  }

  function Unshipped(shipped: seq<Migration>, applied: seq<Row>): seq<Problem>
  {
    if applied == [] then []
    else
      var version := applied[|applied| - 1].version;
      Unshipped(shipped, applied[..|applied| - 1]) + (if Ships(shipped, version) then [] else [NotShipped(version)])
  }

  /** What one shipped migration adds to the plan. */
  function Classify(m: Migration, applied: seq<Row>, plan: MigrationPlan): MigrationPlan
  {
    match Find(applied, m.version)
    case None =>
      var late := Highest(applied) != [] && Less(m.version, Highest(applied));
      plan.(pending := plan.pending + [m],
            problems := plan.problems + (if late then [OutOfOrder(m.version)] else []))
    case Some(row) =>
      if row.checksum != m.checksum then plan.(problems := plan.problems + [Changed(m.version)])
      else plan.(skipped := plan.skipped + [m])
  }

  function ClassifyAll(shipped: seq<Migration>, applied: seq<Row>, plan: MigrationPlan): MigrationPlan
  {
    if shipped == [] then plan
    else Classify(shipped[|shipped| - 1], applied, ClassifyAll(shipped[..|shipped| - 1], applied, plan))
  }

  function Plan(shipped: seq<Migration>, applied: seq<Row>): MigrationPlan
  {
    ClassifyAll(shipped, applied, MigrationPlan([], [], Unshipped(shipped, applied)))
  }

  method PlanMigrations(shipped: seq<Migration>, applied: seq<Row>) returns (plan: MigrationPlan)
    ensures plan == Plan(shipped, applied)
  {
    var problems: seq<Problem> := [];
    for k := 0 to |applied|
      invariant problems == Unshipped(shipped, applied[..k])
    {
      assert applied[..k + 1][..k] == applied[..k];
      if !(exists i :: 0 <= i < |shipped| && shipped[i].version == applied[k].version) {
        problems := problems + [NotShipped(applied[k].version)];
      }
    }
    assert applied[..|applied|] == applied;

    var highestApplied: Text := [];
    for k := 0 to |applied|
      invariant highestApplied == Highest(applied[..k])
    {
      assert applied[..k + 1][..k] == applied[..k];
      if Less(highestApplied, applied[k].version) { highestApplied := applied[k].version; }
    }

    var pending: seq<Migration>, skipped: seq<Migration> := [], [];
    for k := 0 to |shipped|
      invariant MigrationPlan(pending, skipped, problems)
        == ClassifyAll(shipped[..k], applied, MigrationPlan([], [], Unshipped(shipped, applied)))
    {
      assert shipped[..k + 1][..k] == shipped[..k];
      var migration := shipped[k];
      var record := Find(applied, migration.version);
      if record.None? {
        if highestApplied != [] && Less(migration.version, highestApplied) {
          problems := problems + [OutOfOrder(migration.version)];
        }
        pending := pending + [migration];
      } else if record.value.checksum != migration.checksum {
        problems := problems + [Changed(migration.version)];
      } else {
        skipped := skipped + [migration];
      }
    }
    assert shipped[..|shipped|] == shipped;
    return MigrationPlan(pending, skipped, problems);
  }

  // ---------------------------------------------------------------------------------------------------------
  // When a plan is clean.

  /** The applied rows are those of the first k shipped migrations, version and checksum, in whatever order. */
  ghost predicate AppliedIsFirst(shipped: seq<Migration>, applied: seq<Row>, k: int)
  {
    && 0 <= k <= |shipped|
    && (forall a :: 0 <= a < |applied| ==> IsShipped(applied[a], shipped[..k]))
    && (forall i :: 0 <= i < k ==> IsApplied(shipped[i], applied))
  }

  ghost predicate IsShipped(row: Row, shipped: seq<Migration>)
  {
    exists i :: 0 <= i < |shipped| && Records(row, shipped[i])
  }

  ghost predicate IsApplied(m: Migration, applied: seq<Row>)
  {
    exists a :: 0 <= a < |applied| && Records(applied[a], m)
  }

  predicate Records(row: Row, m: Migration)
  {
    row.version == m.version && row.checksum == m.checksum
  }

  /** A shipped migration adds no problem to the plan. */
  predicate Fits(m: Migration, applied: seq<Row>)
  {
    match Find(applied, m.version)
    case None => !(Highest(applied) != [] && Less(m.version, Highest(applied)))
    case Some(row) => row.checksum == m.checksum
  }

  lemma {:induction false} CleanMeansAllFit(shipped: seq<Migration>, applied: seq<Row>, plan: MigrationPlan)
    ensures ClassifyAll(shipped, applied, plan).problems == [] <==>
      plan.problems == [] && forall i :: 0 <= i < |shipped| ==> Fits(shipped[i], applied)
  {
    if shipped != [] {
      var n := |shipped| - 1;
      CleanMeansAllFit(shipped[..n], applied, plan);
      assert forall i :: 0 <= i < n ==> shipped[..n][i] == shipped[i];
    }
  }

  lemma {:induction false} NoneUnshipped(shipped: seq<Migration>, applied: seq<Row>)
    ensures Unshipped(shipped, applied) == [] <==> forall i :: 0 <= i < |applied| ==> Ships(shipped, applied[i].version)
  {
    if applied != [] {
      var n := |applied| - 1;
      NoneUnshipped(shipped, applied[..n]);
      assert forall i :: 0 <= i < n ==> applied[..n][i] == applied[i];
    }
  }

  /** The highest version is one that was applied, and no applied version is above it. */
  lemma {:induction false} HighestIsHighest(applied: seq<Row>)
    ensures Highest(applied) == [] || exists row <- applied :: row.version == Highest(applied)
    ensures forall i :: 0 <= i < |applied| ==> !Less(Highest(applied), applied[i].version)
  {
    if applied != [] {
      var n := |applied| - 1;
      HighestIsHighest(applied[..n]);
      var before := Highest(applied[..n]);
      forall i | 0 <= i < |applied| ensures !Less(Highest(applied), applied[i].version) {
        if i < n {
          assert applied[..n][i] == applied[i];
          if Less(before, applied[n].version) && Less(applied[n].version, applied[i].version) {
            LessIsTransitive(before, applied[n].version, applied[i].version);
          }
        } else if Less(before, applied[n].version) {
          if Less(applied[n].version, applied[n].version) { LessIsAsymmetric(applied[n].version, applied[n].version); }
        }
      }
      if !Less(before, applied[n].version) && before != [] {
        var row :| row in applied[..n] && row.version == before;
        assert row in applied;
      } else if Less(before, applied[n].version) {
        assert applied[n] in applied;
      }
    }
  }

  /** The first shipped migration that is not applied, or the end. */
  function FirstPending(shipped: seq<Migration>, applied: seq<Row>): (k: nat)
    ensures k <= |shipped|
    ensures forall i :: 0 <= i < k ==> Find(applied, shipped[i].version).Some?
    ensures k < |shipped| ==> Find(applied, shipped[k].version).None?
  {
    if shipped == [] || Find(applied, shipped[0].version).None? then 0 else 1 + FirstPending(shipped[1..], applied)
  }

  /** Beyond the first unapplied migration nothing can be applied without a gap. */
  lemma NothingBeyondGap(shipped: seq<Migration>, applied: seq<Row>, k: int, j: int)
    requires Loaded(shipped) && 0 <= k < j < |shipped|
    requires Find(applied, shipped[k].version).None? && Fits(shipped[k], applied)
    ensures Find(applied, shipped[j].version).None?
  {
    HighestIsHighest(applied);
    if Find(applied, shipped[j].version).Some? {
      var row := Find(applied, shipped[j].version).value;
      var i :| 0 <= i < |applied| && applied[i] == row;
      var highest := Highest(applied);
      if highest != row.version {
        LessIsTotal(highest, row.version);
        LessIsTransitive(shipped[k].version, row.version, highest);
      }
    }
  }

  lemma AppliedBeforeGap(shipped: seq<Migration>, applied: seq<Row>, a: int)
    requires Loaded(shipped) && DistinctBy(applied, RowVersion)
    requires 0 <= a < |applied| && Ships(shipped, applied[a].version)
    requires forall i :: 0 <= i < |shipped| ==> Fits(shipped[i], applied)
    ensures IsShipped(applied[a], shipped[..FirstPending(shipped, applied)])
  {
    hide Fits, Loaded, Find, FirstPending, IsShipped;
    var k := FirstPending(shipped, applied);
    var i :| 0 <= i < |shipped| && shipped[i].version == applied[a].version;
    FindIsUnique(applied, a);
    FitsMeans(shipped[i], applied, applied[a]);
    if k < i { NothingBeyondGap(shipped, applied, k, i); }
    ShippedAt(applied[a], shipped[..k], i);
  }

  lemma ShippedAt(row: Row, shipped: seq<Migration>, i: int)
    requires 0 <= i < |shipped| && Records(row, shipped[i])
    ensures IsShipped(row, shipped)
  {
  }

  lemma FitsMeans(m: Migration, applied: seq<Row>, row: Row)
    requires Fits(m, applied) && Find(applied, m.version) == Some(row)
    ensures Records(row, m)
  {
  }

  lemma CleanIsPrefix(shipped: seq<Migration>, applied: seq<Row>)
    requires Loaded(shipped)
    requires forall i :: 0 <= i < |applied| ==> Ships(shipped, applied[i].version)
    requires forall i :: 0 <= i < |shipped| ==> Fits(shipped[i], applied)
    requires DistinctBy(applied, RowVersion)
    ensures AppliedIsFirst(shipped, applied, FirstPending(shipped, applied))
  {
    hide Fits, Loaded, Ships, IsShipped;
    var k := FirstPending(shipped, applied);
    forall a | 0 <= a < |applied| ensures IsShipped(applied[a], shipped[..k]) {
      AppliedBeforeGap(shipped, applied, a);
    }
    forall i | 0 <= i < k ensures IsApplied(shipped[i], applied) {
      var row := Find(applied, shipped[i].version).value;
      FitsMeans(shipped[i], applied, row);
      var a :| 0 <= a < |applied| && applied[a] == row;
      assert Records(applied[a], shipped[i]);
    }
  }

  lemma {:induction false} FindIsUnique(applied: seq<Row>, a: int)
    requires DistinctBy(applied, RowVersion) && 0 <= a < |applied|
    ensures Find(applied, applied[a].version) == Some(applied[a])
  {
    var row := Find(applied, applied[a].version).value;
    var b :| 0 <= b < |applied| && applied[b] == row;
    assert RowVersion(applied[a]) == RowVersion(applied[b]);
  }

  lemma AppliedIsFound(applied: seq<Row>, m: Migration)
    requires DistinctBy(applied, RowVersion) && IsApplied(m, applied)
    ensures Find(applied, m.version).Some? && Fits(m, applied)
  {
    var a :| 0 <= a < |applied| && Records(applied[a], m);
    FindIsUnique(applied, a);
  }

  /** A version among the first k shipped is below every later one. */
  lemma AmongFirstIsBelow(shipped: seq<Migration>, row: Row, k: int, i: int)
    requires Loaded(shipped) && 0 <= k <= i < |shipped| && IsShipped(row, shipped[..k])
    ensures Less(row.version, shipped[i].version)
    ensures row.version != shipped[i].version && !Less(shipped[i].version, row.version)
  {
    var j :| 0 <= j < k && Records(row, shipped[..k][j]);
    LessIsAsymmetric(shipped[j].version, shipped[i].version);
  }

  lemma BeyondPrefixFits(shipped: seq<Migration>, applied: seq<Row>, k: int, i: int)
    requires Loaded(shipped) && AppliedIsFirst(shipped, applied, k) && k <= i < |shipped|
    ensures Find(applied, shipped[i].version).None? && Fits(shipped[i], applied)
  {
    hide IsShipped, IsApplied, Loaded;
    forall row <- applied ensures row.version != shipped[i].version {
      var a :| 0 <= a < |applied| && applied[a] == row;
      AmongFirstIsBelow(shipped, applied[a], k, i);
    }
    HighestIsHighest(applied);
    if Highest(applied) != [] {
      var row :| row in applied && row.version == Highest(applied);
      var a :| 0 <= a < |applied| && applied[a] == row;
      AmongFirstIsBelow(shipped, applied[a], k, i);
    }
  }

  lemma PrefixIsClean(shipped: seq<Migration>, applied: seq<Row>, k: int, i: int)
    requires Loaded(shipped) && DistinctBy(applied, RowVersion) && AppliedIsFirst(shipped, applied, k)
    requires 0 <= i < |shipped|
    ensures Fits(shipped[i], applied) && (Find(applied, shipped[i].version).Some? <==> i < k)
  {
    hide IsShipped, IsApplied, Fits, Loaded;
    if i < k {
      AppliedIsFound(applied, shipped[i]);
    } else {
      BeyondPrefixFits(shipped, applied, k, i);
    }
  }

  lemma {:induction false} SplitOfClean(shipped: seq<Migration>, applied: seq<Row>, plan: MigrationPlan, k: int, n: int)
    requires 0 <= k <= |shipped| && 0 <= n <= |shipped|
    requires forall i :: 0 <= i < |shipped| ==> Fits(shipped[i], applied)
    requires forall i :: 0 <= i < |shipped| ==> (Find(applied, shipped[i].version).Some? <==> i < k)
    requires plan.pending == [] && plan.skipped == []
    ensures
      var r := ClassifyAll(shipped[..n], applied, plan);
      && r.skipped == shipped[..if n < k then n else k]
      && r.pending == shipped[if n < k then n else k..n]
    decreases n
  {
    hide Highest, Find;
    if n > 0 {
      SplitOfClean(shipped, applied, plan, k, n - 1);
      assert shipped[..n][..n - 1] == shipped[..n - 1];
      assert Fits(shipped[n - 1], applied);
      if n - 1 >= k {
        SliceGrows(shipped, k, n);
      } else {
        SliceGrows(shipped, 0, n);
        assert shipped[0..n] == shipped[..n] && shipped[0..n - 1] == shipped[..n - 1];
      }
    }
  }

  lemma SliceGrows<T>(xs: seq<T>, a: int, b: int)
    requires 0 <= a < b <= |xs|
    ensures xs[a..b] == xs[a..b - 1] + [xs[b - 1]]
  {
  }

  lemma PrefixIsShipped(shipped: seq<Migration>, applied: seq<Row>, k: int)
    requires AppliedIsFirst(shipped, applied, k)
    ensures Unshipped(shipped, applied) == []
  {
    NoneUnshipped(shipped, applied);
    forall a | 0 <= a < |applied| ensures Ships(shipped, applied[a].version) {
      var i :| 0 <= i < |shipped[..k]| && Records(applied[a], shipped[..k][i]);
      assert shipped[i].version == applied[a].version;
    }
  }

  /** A prefix gives a clean plan: it is skipped, and the rest is pending. */
  lemma PlanOfPrefix(shipped: seq<Migration>, applied: seq<Row>, k: int)
    requires Loaded(shipped) && DistinctBy(applied, RowVersion) && AppliedIsFirst(shipped, applied, k)
    ensures Plan(shipped, applied) == MigrationPlan(shipped[k..], shipped[..k], [])
  {
    hide Fits, Find, Loaded, AppliedIsFirst, Unshipped, ClassifyAll;
    assert 0 <= k <= |shipped| by { PrefixLength(shipped, applied, k); }
    var start := MigrationPlan([], [], Unshipped(shipped, applied));
    forall i | 0 <= i < |shipped|
      ensures Fits(shipped[i], applied) && (Find(applied, shipped[i].version).Some? <==> i < k)
    {
      PrefixIsClean(shipped, applied, k, i);
    }
    PrefixIsShipped(shipped, applied, k);
    CleanMeansAllFit(shipped, applied, start);
    SplitOfClean(shipped, applied, start, k, |shipped|);
    assert shipped[..|shipped|] == shipped;
  }

  lemma PrefixLength(shipped: seq<Migration>, applied: seq<Row>, k: int)
    requires AppliedIsFirst(shipped, applied, k)
    ensures 0 <= k <= |shipped|
  {
  }

  /**
   A plan reports no problem exactly when what is applied is a prefix of what is shipped, checksums included; and
   then it skips that prefix and leaves the rest pending.
  */
  lemma PlanIsCleanExactly(shipped: seq<Migration>, applied: seq<Row>)
    requires Loaded(shipped) && DistinctBy(applied, RowVersion)
    ensures Plan(shipped, applied).problems == [] <==> exists k :: AppliedIsFirst(shipped, applied, k)
    ensures forall k :: AppliedIsFirst(shipped, applied, k) ==>
      k <= |shipped| && 0 <= k
      && Plan(shipped, applied).skipped == shipped[..k] && Plan(shipped, applied).pending == shipped[k..]
  {
    hide Fits, Find, Loaded, AppliedIsFirst, Unshipped, ClassifyAll, Ships;
    if Plan(shipped, applied).problems == [] {
      CleanMeansAllFit(shipped, applied, MigrationPlan([], [], Unshipped(shipped, applied)));
      NoneUnshipped(shipped, applied);
      CleanIsPrefix(shipped, applied);
    }
    forall k | AppliedIsFirst(shipped, applied, k)
      ensures 0 <= k <= |shipped| && Plan(shipped, applied) == MigrationPlan(shipped[k..], shipped[..k], [])
    {
      PrefixLength(shipped, applied, k);
      PlanOfPrefix(shipped, applied, k);
    }
  }

  // ---------------------------------------------------------------------------------------------------------
  // What a plan holds, entry by entry.

  ghost predicate Recorded(version: Text, applied: seq<Row>)
  {
    exists row <- applied :: row.version == version
  }

  /** Some applied version is above this one. */
  ghost predicate Overtaken(version: Text, applied: seq<Row>)
  {
    exists row <- applied :: Less(version, row.version)
  }

  /** The problem that a shipped migration is, going by the rows alone. */
  ghost predicate IsProblemOf(p: Problem, m: Migration, applied: seq<Row>)
  {
    match p
    case NotShipped(_) => false
    case OutOfOrder(v) => v == m.version && !Recorded(v, applied) && Overtaken(v, applied)
    case Changed(v) => v == m.version && exists row <- applied :: row.version == v && row.checksum != m.checksum
  }

  lemma OvertakenByHighest(applied: seq<Row>, version: Text)
    ensures Overtaken(version, applied) <==> Highest(applied) != [] && Less(version, Highest(applied))
  {
    HighestIsHighest(applied);
    var highest := Highest(applied);
    if Overtaken(version, applied) {
      var row :| row in applied && Less(version, row.version);
      var i :| 0 <= i < |applied| && applied[i] == row;
      if highest != row.version {
        LessIsTotal(highest, row.version);
        LessIsTransitive(version, row.version, highest);
      }
      assert highest != [];
    }
  }

  /** One migration enters one list, or neither, and brings its own problem. */
  lemma ClassifyExactly(m: Migration, applied: seq<Row>, plan: MigrationPlan)
    requires DistinctBy(applied, RowVersion)
    ensures
      var r := Classify(m, applied, plan);
      && r.pending == plan.pending + (if Recorded(m.version, applied) then [] else [m])
      && r.skipped == plan.skipped + (if IsApplied(m, applied) then [m] else [])
      && plan.problems <= r.problems
      && (forall p :: p in r.problems <==> p in plan.problems || IsProblemOf(p, m, applied))
  {
    hide Highest;
    OvertakenByHighest(applied, m.version);
    if IsApplied(m, applied) { AppliedIsFound(applied, m); }
    match Find(applied, m.version)
    case None =>
    case Some(row) =>
      var a :| 0 <= a < |applied| && applied[a] == row;
      if row.checksum == m.checksum { assert Records(applied[a], m); }
      forall other | other in applied && other.version == m.version ensures other == row {
        var b :| 0 <= b < |applied| && applied[b] == other;
        assert RowVersion(applied[a]) == RowVersion(applied[b]);
      }
  }

  /** Among the first of what is shipped, in their order. */
  ghost predicate Holds(part: seq<Migration>, shipped: seq<Migration>, wanted: Migration -> bool)
  {
    && Loaded(part)
    && forall m :: m in part <==> m in shipped && wanted(m)
  }

  lemma HoldsOneMore(part: seq<Migration>, shipped: seq<Migration>, wanted: Migration -> bool, n: nat)
    requires Loaded(shipped) && n < |shipped| && Holds(part, shipped[..n], wanted)
    ensures Holds(part + if wanted(shipped[n]) then [shipped[n]] else [], shipped[..n + 1], wanted)
  {
    var m := shipped[n];
    assert shipped[..n + 1] == shipped[..n] + [m];
    forall i | 0 <= i < |part| ensures Less(part[i].version, m.version) {
      assert part[i] in shipped[..n];
      var j :| 0 <= j < n && shipped[j] == part[i];
    }
  }

  lemma NothingIsLoaded()
    ensures Loaded([])
  {
  }

  lemma {:induction false} ClassifiedExactly(shipped: seq<Migration>, applied: seq<Row>, start: MigrationPlan, n: nat)
    requires Loaded(shipped) && DistinctBy(applied, RowVersion) && n <= |shipped|
    requires start.pending == [] && start.skipped == []
    ensures
      var r := ClassifyAll(shipped[..n], applied, start);
      && Holds(r.pending, shipped[..n], (m: Migration) => !Recorded(m.version, applied))
      && Holds(r.skipped, shipped[..n], (m: Migration) => IsApplied(m, applied))
      && (forall p :: p in r.problems <==>
            p in start.problems || exists m <- shipped[..n] :: IsProblemOf(p, m, applied))
  {
    hide Classify, Recorded, IsApplied, IsProblemOf, Loaded, DistinctBy;
    if n == 0 {
      NothingIsLoaded();
    } else {
      ClassifiedExactly(shipped, applied, start, n - 1);
      var before := ClassifyAll(shipped[..n - 1], applied, start);
      assert shipped[..n][..n - 1] == shipped[..n - 1] && shipped[..n] == shipped[..n - 1] + [shipped[n - 1]];
      ClassifyExactly(shipped[n - 1], applied, before);
      HoldsOneMore(before.pending, shipped, (m: Migration) => !Recorded(m.version, applied), n - 1);
      HoldsOneMore(before.skipped, shipped, (m: Migration) => IsApplied(m, applied), n - 1);
    }
  }

  lemma {:induction false} UnshippedExactly(shipped: seq<Migration>, applied: seq<Row>)
    ensures forall p :: p in Unshipped(shipped, applied) <==>
      p.NotShipped? && Recorded(p.version, applied) && !Ships(shipped, p.version)
  {
    if applied != [] {
      var n := |applied| - 1;
      UnshippedExactly(shipped, applied[..n]);
      assert applied == applied[..n] + [applied[n]];
      forall version ensures Recorded(version, applied) <==>
        Recorded(version, applied[..n]) || version == applied[n].version
      {
        if version == applied[n].version { assert applied[n] in applied; }
        if row :| row in applied[..n] && row.version == version { assert row in applied; }
      }
    }
  }

  /**
   The plan on the rows' own fields. Pending, in shipped order: the migrations whose version has no row. Skipped: those
   whose row has their checksum. A problem for each row that is not shipped, each row whose checksum is another than
   its migration's, and each migration without a row below a version that has one; and no other problem.
  */
  lemma PlanExactly(shipped: seq<Migration>, applied: seq<Row>)
    requires Loaded(shipped) && DistinctBy(applied, RowVersion)
    ensures
      var plan := Plan(shipped, applied);
      && Loaded(plan.pending) && Loaded(plan.skipped)
      && (forall m :: m in plan.pending <==> m in shipped && !Recorded(m.version, applied))
      && (forall m :: m in plan.skipped <==> m in shipped && IsApplied(m, applied))
      && (forall v :: NotShipped(v) in plan.problems <==> Recorded(v, applied) && !Ships(shipped, v))
      && (forall v :: OutOfOrder(v) in plan.problems <==>
            Ships(shipped, v) && !Recorded(v, applied) && Overtaken(v, applied))
      && (forall v :: Changed(v) in plan.problems <==>
            exists m <- shipped, row <- applied ::
              m.version == v && row.version == v && row.checksum != m.checksum)
  {
    hide ClassifyAll, Unshipped, Recorded, IsApplied, Loaded, DistinctBy, Overtaken;
    var start := MigrationPlan([], [], Unshipped(shipped, applied));
    assert shipped[..|shipped|] == shipped;
    ClassifiedExactly(shipped, applied, start, |shipped|);
    UnshippedExactly(shipped, applied);
    assert forall m :: m in shipped ==> Ships(shipped, m.version);
    var plan := Plan(shipped, applied);
    forall v ensures OutOfOrder(v) in plan.problems <==>
      Ships(shipped, v) && !Recorded(v, applied) && Overtaken(v, applied)
    {
      if Ships(shipped, v) && !Recorded(v, applied) && Overtaken(v, applied) {
        var i :| 0 <= i < |shipped| && shipped[i].version == v;
        assert shipped[i] in shipped && IsProblemOf(OutOfOrder(v), shipped[i], applied);
      }
    }
    forall v, m, row | m in shipped && row in applied && m.version == v == row.version && row.checksum != m.checksum
      ensures Changed(v) in plan.problems
    {
      assert IsProblemOf(Changed(v), m, applied);
    }
  }

  // ---------------------------------------------------------------------------------------------------------
  // The runner.

  datatype RunResult =
    | Refused(problems: seq<Problem>)
    | Completed(applied: seq<Text>, pending: seq<Text>, skipped: nat, schemaVersion: Text)
    | Stopped(committed: nat)

  function RowOf(m: Migration): Row { Row(m.version, m.name, m.checksum) }

  function RowsOf(ms: seq<Migration>): (r: seq<Row>)
    ensures |r| == |ms| && forall i :: 0 <= i < |ms| ==> r[i] == RowOf(ms[i])
  {
    if ms == [] then [] else [RowOf(ms[0])] + RowsOf(ms[1..])
  }

  function Versions(ms: seq<Migration>): (r: seq<Text>)
    ensures |r| == |ms| && forall i :: 0 <= i < |ms| ==> r[i] == ms[i].version
  {
    if ms == [] then [] else [ms[0].version] + Versions(ms[1..])
  }

  function Scripts(ms: seq<Migration>): (r: seq<Text>)
    ensures |r| == |ms| && forall i :: 0 <= i < |ms| ==> r[i] == ms[i].sql
  {
    if ms == [] then [] else [ms[0].sql] + Scripts(ms[1..])
  }

  function ExpectedSchemaVersion(shipped: seq<Migration>): Text
  {
    if shipped == [] then [] else shipped[|shipped| - 1].version
  }

  function CurrentSchemaVersion(table: seq<Row>): Text
  {
    if table == [] then [] else table[|table| - 1].version
  }

  /** How many transactions commit when the runner may stop after `budget` of them. */
  function Committed(plan: MigrationPlan, dryRun: bool, budget: nat): nat
  {
    if plan.problems != [] || dryRun then 0 else if budget < |plan.pending| then budget else |plan.pending|
  }

  /** The bookkeeping table, in version order, and the scripts that have committed, in the order they did. */
  class Database {
    var table: seq<Row>
    var executed: seq<Text>

    constructor ()
      ensures table == [] && executed == []
    {
      table := [];
      executed := [];
    }

    /** One run under the lock. The process stops before the transaction after the `budget`-th. */
    method RunMigrations(shipped: seq<Migration>, dryRun: bool, budget: nat) returns (result: RunResult)
      modifies this
      ensures
        var plan := Plan(shipped, old(table));
        var n := Committed(plan, dryRun, budget);
        && n <= |plan.pending|
        && table == old(table) + RowsOf(plan.pending[..n])
        && executed == old(executed) + Scripts(plan.pending[..n])
        && (plan.problems != [] ==> result == Refused(plan.problems))
        && (plan.problems == [] && (dryRun || budget >= |plan.pending|) ==>
              result == Completed(if dryRun then [] else Versions(plan.pending), Versions(plan.pending),
                                  |plan.skipped|, ExpectedSchemaVersion(shipped)))
        && (plan.problems == [] && !dryRun && budget < |plan.pending| ==> result == Stopped(budget))
    {
      hide Plan, RowsOf, Scripts, Versions;
      var plan := PlanMigrations(shipped, table);
      NothingYet();
      if plan.problems != [] {
        return Refused(plan.problems);
      }
      var results: seq<Text> := [];
      if !dryRun {
        var k := 0;
        while k < |plan.pending|
          invariant 0 <= k <= |plan.pending| && k <= budget
          invariant table == old(table) + RowsOf(plan.pending[..k])
          invariant executed == old(executed) + Scripts(plan.pending[..k])
          invariant results == Versions(plan.pending[..k])
        {
          if k == budget {
            return Stopped(k);
          }
          var migration := plan.pending[k];
          OneMore(plan.pending, k);
          table, executed := table + [RowOf(migration)], executed + [migration.sql];
          results := results + [migration.version];
          k := k + 1;
        }
        assert plan.pending[..k] == plan.pending;
      }
      return Completed(results, Versions(plan.pending), |plan.skipped|, ExpectedSchemaVersion(shipped));
    }
  }

  lemma NothingYet()
    ensures RowsOf([]) == [] && Scripts([]) == [] && Versions([]) == []
  {
  }

  lemma OneMore(ms: seq<Migration>, k: nat)
    requires k < |ms|
    ensures RowsOf(ms[..k + 1]) == RowsOf(ms[..k]) + [RowOf(ms[k])]
    ensures Scripts(ms[..k + 1]) == Scripts(ms[..k]) + [ms[k].sql]
    ensures Versions(ms[..k + 1]) == Versions(ms[..k]) + [ms[k].version]
  {
    hide RowsOf, Scripts, Versions;
  }

  // ---------------------------------------------------------------------------------------------------------
  // Any number of runs, by any images, each stopping where it likes.

  datatype Attempt = Attempt(shipped: seq<Migration>, dryRun: bool, budget: nat)

  function AfterRun(table: seq<Row>, a: Attempt): seq<Row>
  {
    var plan := Plan(a.shipped, table);
    table + RowsOf(plan.pending[..Committed(plan, a.dryRun, a.budget)])
  }

  function AfterRuns(table: seq<Row>, attempts: seq<Attempt>): seq<Row>
    decreases |attempts|
  {
    if attempts == [] then table else AfterRuns(AfterRun(table, attempts[0]), attempts[1..])
  }

  ghost predicate Ascending(table: seq<Row>)
  {
    && (forall i :: 0 <= i < |table| ==> table[i].version != [])
    && (forall i, j :: 0 <= i < j < |table| ==> Less(table[i].version, table[j].version))
  }

  /** Row by row, version and checksum, the table is how the shipped list begins. */
  ghost predicate ExactPrefix(table: seq<Row>, shipped: seq<Migration>)
  {
    |table| <= |shipped| && forall i :: 0 <= i < |table| ==> Records(table[i], shipped[i])
  }

  lemma AscendingIsDistinct(table: seq<Row>)
    requires Ascending(table)
    ensures DistinctBy(table, RowVersion)
  {
    forall i, j | 0 <= i < j < |table| ensures RowVersion(table[i]) != RowVersion(table[j]) {
      LessIsAsymmetric(table[i].version, table[j].version);
    }
  }

  function RowVersions(table: seq<Row>): (r: seq<Text>)
    ensures |r| == |table| && forall i :: 0 <= i < |table| ==> r[i] == table[i].version
  {
    if table == [] then [] else [table[0].version] + RowVersions(table[1..])
  }

  /** For a table in version order, being the first k migrations is being an exact prefix of length k. */
  lemma FirstIsExactPrefix(table: seq<Row>, shipped: seq<Migration>, k: int)
    requires Ascending(table) && Loaded(shipped) && AppliedIsFirst(shipped, table, k)
    ensures k == |table| && ExactPrefix(table, shipped)
  {
    var a, b := RowVersions(table), Versions(shipped[..k]);
    FirstHasSameVersions(table, shipped, k);
    AscendingIsUnique(a, b);
    assert |a| == |b|;
    forall i | 0 <= i < |table| ensures Records(table[i], shipped[i]) {
      assert a[i] == b[i];
      RecordedAt(table, shipped, k, i);
    }
  }

  lemma FirstHasSameVersions(table: seq<Row>, shipped: seq<Migration>, k: int)
    requires AppliedIsFirst(shipped, table, k)
    ensures forall v :: v in RowVersions(table) <==> v in Versions(shipped[..k])
  {
    hide IsShipped, IsApplied;
    var a, b := RowVersions(table), Versions(shipped[..k]);
    forall v ensures v in a <==> v in b {
      if v in a {
        var i :| 0 <= i < |table| && a[i] == v;
        ShippedVersion(table[i], shipped[..k]);
      }
      if v in b {
        var j :| 0 <= j < k && b[j] == v;
        AppliedVersion(shipped[j], table);
      }
    }
  }

  lemma ShippedVersion(row: Row, shipped: seq<Migration>)
    requires IsShipped(row, shipped)
    ensures row.version in Versions(shipped)
  {
    var i :| 0 <= i < |shipped| && Records(row, shipped[i]);
    assert Versions(shipped)[i] == row.version;
  }

  lemma AppliedVersion(m: Migration, table: seq<Row>)
    requires IsApplied(m, table)
    ensures m.version in RowVersions(table)
  {
    var a :| 0 <= a < |table| && Records(table[a], m);
    assert RowVersions(table)[a] == m.version;
  }

  lemma RecordedAt(table: seq<Row>, shipped: seq<Migration>, k: int, i: int)
    requires Loaded(shipped) && 0 <= i < k <= |shipped| && i < |table| && table[i].version == shipped[i].version
    requires AppliedIsFirst(shipped, table, k)
    ensures Records(table[i], shipped[i])
  {
    hide IsApplied;
    var j :| 0 <= j < k && Records(table[i], shipped[..k][j]);
    if j < i { LessIsAsymmetric(shipped[j].version, shipped[i].version); }
    if i < j { LessIsAsymmetric(shipped[i].version, shipped[j].version); }
  }

  lemma ExactPrefixIsFirst(table: seq<Row>, shipped: seq<Migration>)
    requires ExactPrefix(table, shipped)
    ensures AppliedIsFirst(shipped, table, |table|)
  {
    hide IsShipped, IsApplied;
    forall i | 0 <= i < |table|
      ensures IsShipped(table[i], shipped[..|table|]) && IsApplied(shipped[i], table)
    {
      RecordsAppear(table, shipped[..|table|], i);
    }
  }

  lemma RecordsAppear(table: seq<Row>, shipped: seq<Migration>, i: int)
    requires 0 <= i < |table| && i < |shipped| && Records(table[i], shipped[i])
    ensures IsShipped(table[i], shipped) && IsApplied(shipped[i], table)
  {
  }

  /** On a table in order: the plan is clean exactly on an exact prefix, and leaves the rest pending. */
  lemma PlanOnTable(table: seq<Row>, shipped: seq<Migration>)
    requires Ascending(table) && Loaded(shipped)
    ensures Plan(shipped, table).problems == [] <==> ExactPrefix(table, shipped)
    ensures ExactPrefix(table, shipped) ==>
      Plan(shipped, table).pending == shipped[|table|..] && Plan(shipped, table).skipped == shipped[..|table|]
  {
    hide Plan, Ascending, Loaded, AppliedIsFirst, ExactPrefix;
    AscendingIsDistinct(table);
    PlanIsCleanExactly(shipped, table);
    if Plan(shipped, table).problems == [] {
      var k :| AppliedIsFirst(shipped, table, k);
      FirstIsExactPrefix(table, shipped, k);
    }
    if ExactPrefix(table, shipped) {
      ExactPrefixIsFirst(table, shipped);
      assert |table| <= |shipped| by { PrefixFits(table, shipped); }
    }
  }

  lemma PrefixFits(table: seq<Row>, shipped: seq<Migration>)
    requires ExactPrefix(table, shipped)
    ensures |table| <= |shipped|
  {
  }

  /**
   One run, wherever it stops: the table only grows at its end, stays in order, and unless the run was refused is
   an exact prefix of what that image ships; the schema version does not go down.
  */
  lemma RunKeepsHistory(table: seq<Row>, a: Attempt)
    requires Ascending(table) && Loaded(a.shipped)
    ensures
      var after := AfterRun(table, a);
      && table <= after && Ascending(after)
      && (Plan(a.shipped, table).problems == [] ==> ExactPrefix(after, a.shipped))
      && (Plan(a.shipped, table).problems != [] ==> after == table)
      && !Less(CurrentSchemaVersion(after), CurrentSchemaVersion(table))
  {
    hide Plan;
    PlanOnTable(table, a.shipped);
    var after := AfterRun(table, a);
    if Plan(a.shipped, table).problems == [] {
      var n := |table|;
      forall i | 0 <= i < |after| ensures Records(after[i], a.shipped[i]) {
        if i >= n { assert after[i] == RowOf(a.shipped[n..][i - n]); }
      }
      forall i, j | 0 <= i < j < |after| ensures Less(after[i].version, after[j].version) {
        assert Records(after[i], a.shipped[i]) && Records(after[j], a.shipped[j]);
      }
    }
    VersionDoesNotFall(table, after);
  }

  lemma VersionDoesNotFall(table: seq<Row>, after: seq<Row>)
    requires table <= after && Ascending(after)
    ensures !Less(CurrentSchemaVersion(after), CurrentSchemaVersion(table))
  {
    var old', new' := CurrentSchemaVersion(table), CurrentSchemaVersion(after);
    if Less(new', old') {
      assert after[|table| - 1] == table[|table| - 1];
      LessIsAsymmetric(new', old');
    }
  }

  /** Over any number of runs by any images: an append-only table in version order, and a version that never falls. */
  lemma {:induction false} HistoryIsAppendOnly(table: seq<Row>, attempts: seq<Attempt>)
    requires Ascending(table) && forall a <- attempts :: Loaded(a.shipped)
    ensures table <= AfterRuns(table, attempts) && Ascending(AfterRuns(table, attempts))
    ensures !Less(CurrentSchemaVersion(AfterRuns(table, attempts)), CurrentSchemaVersion(table))
    decreases |attempts|
  {
    hide AfterRun;
    if attempts != [] {
      assert attempts[0] in attempts;
      RunKeepsHistory(table, attempts[0]);
      HistoryIsAppendOnly(AfterRun(table, attempts[0]), attempts[1..]);
    }
    VersionDoesNotFall(table, AfterRuns(table, attempts));
  }

  /**
   After a run stopped anywhere, a complete rerun of the same image brings the table to everything it ships, and
   one more complete run applies nothing.
  */
  lemma RerunCompletes(table: seq<Row>, shipped: seq<Migration>, stopped: nat, enough: nat, again: nat)
    requires Ascending(table) && Loaded(shipped) && ExactPrefix(table, shipped)
    requires enough >= |shipped| && again >= |shipped|
    ensures
      var crashed := AfterRun(table, Attempt(shipped, false, stopped));
      var complete := AfterRun(crashed, Attempt(shipped, false, enough));
      && ExactPrefix(crashed, shipped)
      && |complete| == |shipped| && ExactPrefix(complete, shipped)
      && CurrentSchemaVersion(complete) == ExpectedSchemaVersion(shipped)
      && Plan(shipped, complete) == MigrationPlan([], shipped, [])
      && AfterRun(complete, Attempt(shipped, false, again)) == complete
  {
    hide Plan;
    var crashed := AfterRun(table, Attempt(shipped, false, stopped));
    PlanOnTable(table, shipped);
    RunKeepsHistory(table, Attempt(shipped, false, stopped));
    var complete := AfterRun(crashed, Attempt(shipped, false, enough));
    PlanOnTable(crashed, shipped);
    RunKeepsHistory(crashed, Attempt(shipped, false, enough));
    assert |complete| == |shipped|;
    if shipped != [] {
      assert Records(complete[|shipped| - 1], shipped[|shipped| - 1]);
    }
    PlanOnTable(complete, shipped);
    assert shipped[|shipped|..] == [] && shipped[..|shipped|] == shipped;
  }
}
