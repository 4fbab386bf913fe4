/**
 The watermark and hash suppression: which edits a run reads, and what the mirror holds after any number of runs.
 Times are milliseconds.
*/
module Watermark {
  import opened Texts
  import opened Json
  import opened Hashing

  const WATERMARK_OVERLAP_SECONDS := 120

  function WatermarkFloor(lastRunStartedAt: int, overlapSeconds: int): int
  {
    lastRunStartedAt - overlapSeconds * 1000
  }

  function NextWatermark(runStartedAt: int): int { runStartedAt }

  // ---------------------------------------------------------------------------------------------------------
  // Hash suppression.

  datatype Record = Record(externalId: Text, contentHash: Digest, content: Json)

  type Hashes = map<Text, Digest>

  datatype ChangeSet = ChangeSet(changed: seq<Record>, suppressed: seq<Record>, hashes: Hashes)

  predicate IsKnown(r: Record, known: Hashes)
  {
    r.externalId in known && known[r.externalId] == r.contentHash
  }

  /** The records of a batch that are known, or that are not, in the batch's order. */
  function Select(records: seq<Record>, known: Hashes, wanted: bool): (r: seq<Record>)
    ensures forall x :: x in r <==> x in records && IsKnown(x, known) == wanted
  {
    if records == [] then []
    else
      var x := records[|records| - 1];
      Select(records[..|records| - 1], known, wanted) + (if IsKnown(x, known) == wanted then [x] else [])
  }

  function Store(hashes: Hashes, records: seq<Record>): Hashes
  {
    if records == [] then hashes
    else
      var x := records[|records| - 1];
      Store(hashes, records[..|records| - 1])[x.externalId := x.contentHash]
  }

  lemma SelectNext(records: seq<Record>, known: Hashes, k: nat)
    requires k < |records|
    ensures Select(records[..k + 1], known, true)
         == Select(records[..k], known, true) + (if IsKnown(records[k], known) then [records[k]] else [])
    ensures Select(records[..k + 1], known, false)
         == Select(records[..k], known, false) + (if IsKnown(records[k], known) then [] else [records[k]])
  {
    assert records[..k + 1][..k] == records[..k];
  }

  lemma StoreNext(hashes: Hashes, records: seq<Record>, x: Record)
    ensures Store(hashes, records + [x]) == Store(hashes, records)[x.externalId := x.contentHash]
  {
    assert (records + [x])[..|records|] == records;
  }

  method SuppressUnchanged(records: seq<Record>, known: Hashes) returns (split: ChangeSet)
    ensures split.changed == Select(records, known, false)
    ensures split.suppressed == Select(records, known, true)
    ensures split.hashes == Store(known, split.changed)
  {
    hide Select, Store;
    var changed: seq<Record>, suppressed: seq<Record>, hashes := [], [], known;
    SelectNothing(known);
    for k := 0 to |records|
      invariant changed == Select(records[..k], known, false)
      invariant suppressed == Select(records[..k], known, true)
      invariant hashes == Store(known, changed)
    {
      SelectNext(records, known, k);
      StoreNext(known, changed, records[k]);
      var record := records[k];
      if record.externalId in known && known[record.externalId] == record.contentHash {
        suppressed := suppressed + [record];
      } else {
        changed := changed + [record];
        hashes := hashes[record.externalId := record.contentHash];
      }
    }
    assert records[..|records|] == records;
    return ChangeSet(changed, suppressed, hashes);
  }

  lemma SelectNothing(known: Hashes)
    ensures Select([], known, true) == Select([], known, false) == [] && Store(known, []) == known
  {
  }

  predicate DistinctIds(records: seq<Record>)
  {
    forall i, j :: 0 <= i < j < |records| ==> records[i].externalId != records[j].externalId
  }

  type Mirror = map<Text, Json>

  function Apply(mirror: Mirror, records: seq<Record>): Mirror
  {
    if records == [] then mirror
    else
      var x := records[|records| - 1];
      Apply(mirror, records[..|records| - 1])[x.externalId := x.content]
  }

  /** The two parts are the batch, split: together they have every record once, each part in order. */
  lemma {:induction false} SplitIsComplete(records: seq<Record>, known: Hashes)
    ensures multiset(Select(records, known, false)) + multiset(Select(records, known, true)) == multiset(records)
    ensures |Select(records, known, false)| + |Select(records, known, true)| == |records|
  {
    hide Select, IsKnown;
    SelectNothing(known);
    if records != [] {
      var init, x := records[..|records| - 1], records[|records| - 1];
      SplitIsComplete(init, known);
      SelectNext(records, known, |records| - 1);
      AddToEither(Select(init, known, false), Select(init, known, true), init, x);
      assert records[..|records|] == records == init + [x];
    }
  }

  lemma AddToEither<T>(a: seq<T>, b: seq<T>, all: seq<T>, x: T)
    requires multiset(a) + multiset(b) == multiset(all)
    ensures multiset(a + [x]) + multiset(b) == multiset(all + [x])
    ensures multiset(a) + multiset(b + [x]) == multiset(all + [x])
    ensures a + [] == a && b + [] == b
  {
  }

  /** What applying a batch of distinct ids leaves under one id. */
  lemma {:induction false} AppliedAt(mirror: Mirror, records: seq<Record>, id: Text)
    requires DistinctIds(records)
    ensures (forall x <- records :: x.externalId != id) ==>
      (id in Apply(mirror, records) <==> id in mirror) && (id in mirror ==> Apply(mirror, records)[id] == mirror[id])
    ensures forall x <- records ::
      x.externalId == id ==> id in Apply(mirror, records) && Apply(mirror, records)[id] == x.content
    decreases |records|
  {
    if records != [] {
      var n := |records| - 1;
      AppliedAt(mirror, records[..n], id);
      forall x <- records
        ensures x.externalId == id ==> id in Apply(mirror, records) && Apply(mirror, records)[id] == x.content
      {
        var i :| 0 <= i < |records| && records[i] == x;
        if x.externalId == id && i < n {
          assert records[..n][i] == x;
        }
      }
    }
  }

  /** And what storing its hashes leaves. */
  lemma {:induction false} StoredAt(hashes: Hashes, records: seq<Record>, id: Text)
    requires DistinctIds(records)
    ensures (forall x <- records :: x.externalId != id) ==>
      (id in Store(hashes, records) <==> id in hashes) && (id in hashes ==> Store(hashes, records)[id] == hashes[id])
    ensures forall x <- records ::
      x.externalId == id ==> id in Store(hashes, records) && Store(hashes, records)[id] == x.contentHash
    decreases |records|
  {
    if records != [] {
      var n := |records| - 1;
      StoredAt(hashes, records[..n], id);
      forall x <- records
        ensures x.externalId == id ==> id in Store(hashes, records) && Store(hashes, records)[id] == x.contentHash
      {
        var i :| 0 <= i < |records| && records[i] == x;
        if x.externalId == id && i < n {
          assert records[..n][i] == x;
        }
      }
    }
  }

  lemma {:induction false} SelectKeepsDistinct(records: seq<Record>, known: Hashes, wanted: bool)
    requires DistinctIds(records)
    ensures DistinctIds(Select(records, known, wanted))
    decreases |records|
  {
    if records != [] {
      var n := |records| - 1;
      SelectKeepsDistinct(records[..n], known, wanted);
      var r := Select(records[..n], known, wanted);
      forall i | 0 <= i < |r| ensures r[i].externalId != records[n].externalId {
        assert r[i] in r;
        var j :| 0 <= j < n && records[..n][j] == r[i];
      }
    }
  }

  /** The hashes are those of the mirror's contents. */
  ghost predicate Mirrored(mirror: Mirror, known: Hashes)
  {
    mirror.Keys == known.Keys && forall id :: id in mirror ==> known[id] == ContentHash(mirror[id])
  }

  ghost predicate TrueRecords(records: seq<Record>)
  {
    forall x <- records :: x.contentHash == ContentHash(x.content)
  }

  /** Under one id, the changed part alone leaves what the whole batch leaves, as far as a hash can tell. */
  lemma ChangedSufficesAt(mirror: Mirror, known: Hashes, records: seq<Record>, id: Text)
    requires Mirrored(mirror, known) && DistinctIds(records) && TrueRecords(records)
    ensures
      var part, all := Apply(mirror, Select(records, known, false)), Apply(mirror, records);
      && (id in part <==> id in all)
      && (id in all ==> ContentHash(part[id]) == ContentHash(all[id]))
  {
    hide ContentHash;
    var changed := Select(records, known, false);
    SelectKeepsDistinct(records, known, false);
    AppliedAt(mirror, changed, id);
    AppliedAt(mirror, records, id);
    if exists x :: x in records && x.externalId == id {
      var x :| x in records && x.externalId == id;
      if IsKnown(x, known) {
        forall y <- changed ensures y.externalId != id {
          if y.externalId == id { SameIdSameRecord(records, x, y); }
        }
      }
    }
  }

  lemma SameIdSameRecord(records: seq<Record>, x: Record, y: Record)
    requires DistinctIds(records) && x in records && y in records && x.externalId == y.externalId
    ensures x == y
  {
    var i :| 0 <= i < |records| && records[i] == x;
    var j :| 0 <= j < |records| && records[j] == y;
  }

  /** Applying the changed part keeps the hashes those of the mirror. */
  lemma MirroredAfter(mirror: Mirror, known: Hashes, records: seq<Record>)
    requires Mirrored(mirror, known) && DistinctIds(records) && TrueRecords(records)
    ensures
      var changed := Select(records, known, false);
      Mirrored(Apply(mirror, changed), Store(known, changed))
  {
    hide ContentHash, Select, Apply, Store;
    var changed := Select(records, known, false);
    SelectKeepsDistinct(records, known, false);
    var m, h := Apply(mirror, changed), Store(known, changed);
    forall id ensures (id in m <==> id in h) && (id in m ==> h[id] == ContentHash(m[id])) {
      AppliedAt(mirror, changed, id);
      StoredAt(known, changed, id);
      if exists x :: x in changed && x.externalId == id {
        var x :| x in changed && x.externalId == id;
      }
    }
  }

  /** Reading the same batch again, with the hashes it left, changes nothing. */
  lemma RerunChangesNothing(known: Hashes, records: seq<Record>)
    requires DistinctIds(records)
    ensures
      var hashes := Store(known, Select(records, known, false));
      Select(records, hashes, false) == [] && Store(hashes, Select(records, hashes, false)) == hashes
  {
    var changed := Select(records, known, false);
    var hashes := Store(known, changed);
    SelectKeepsDistinct(records, known, false);
    forall x <- records ensures IsKnown(x, hashes) {
      StoredAt(known, changed, x.externalId);
      if IsKnown(x, known) {
        forall y <- changed ensures y.externalId != x.externalId {
          if y.externalId == x.externalId { SameIdSameRecord(records, x, y); }
        }
      } else {
        assert x in changed;
      }
    }
    SelectNone(records, hashes, false);
  }

  lemma {:induction false} SelectNone(records: seq<Record>, known: Hashes, wanted: bool)
    requires forall i :: 0 <= i < |records| ==> IsKnown(records[i], known) != wanted
    ensures Select(records, known, wanted) == []
  {
    if records != [] { SelectNone(records[..|records| - 1], known, wanted); }
  }

  // ---------------------------------------------------------------------------------------------------------
  // The tool, and what a run reads of it.

  /** An edit made at an instant; the tool's clock is off by `skew` when it stamps it. */
  datatype Edit = Edit(id: Text, at: int, skew: int, content: Json)

  predicate SkewIsBounded(e: Edit) { -60_000 <= e.skew <= 60_000 }

  /** The tool reports the minute, rounded down. */
  function Reported(e: Edit): int { (e.at + e.skew) / 60_000 * 60_000 }

  /** The last edit of a record up to an instant. */
  function LatestAt(history: seq<Edit>, id: Text, t: int): (r: Option<Edit>)
    ensures r.Some? ==> r.value in history && r.value.id == id && r.value.at <= t
  {
    if history == [] then None
    else
      var e := history[|history| - 1];
      if e.id == id && e.at <= t then Some(e) else LatestAt(history[..|history| - 1], id, t)
  }

  /** Nothing between two instants: the same last edit. */
  lemma {:induction false} LatestUnchanged(history: seq<Edit>, id: Text, t: int, u: int)
    requires t <= u
    ensures LatestAt(history, id, u).None? ==> LatestAt(history, id, t).None?
    ensures LatestAt(history, id, u).Some? && LatestAt(history, id, u).value.at <= t ==>
      LatestAt(history, id, t) == LatestAt(history, id, u)
  {
    if history != [] {
      LatestUnchanged(history[..|history| - 1], id, t, u);
    }
  }

  /** A run: when it started, and the instant each record's page was read. */
  datatype Pass = Pass(start: int, readAt: Text -> int)

  ghost predicate PassInTime(p: Pass, end: int)
  {
    forall id :: p.start <= p.readAt(id) <= end
  }

  /** Reported at or after the floor; a run with no watermark before it asks for everything. */
  predicate Asked(e: Edit, floor: Option<int>)
  {
    floor.None? || floor.value <= Reported(e)
  }

  /** What was read of each record is its content when its page was read. */
  ghost predicate TrueReads(history: seq<Edit>, p: Pass, batch: seq<Record>)
  {
    && DistinctIds(batch) && TrueRecords(batch)
    && forall x <- batch ::
         var latest := LatestAt(history, x.externalId, p.readAt(x.externalId));
         latest.Some? && latest.value.content == x.content
  }

  /** A successful run reads every record that was asked for. */
  ghost predicate CompleteReads(history: seq<Edit>, p: Pass, floor: Option<int>, batch: seq<Record>)
  {
    forall id :: var latest := LatestAt(history, id, p.readAt(id));
      latest.Some? && Asked(latest.value, floor) ==> exists x <- batch :: x.externalId == id
  }

  /** Between runs: the mirror, its hashes, the last successful start, and an instant no read so far is after. */
  datatype State = State(mirror: Mirror, known: Hashes, watermark: Option<int>, horizon: int)

  /** A run that succeeds applies its batch and moves the watermark; one that fails may have applied part of it. */
  datatype Attempt =
    | Success(pass: Pass, batch: seq<Record>, end: int)
    | Failure(pass: Pass, part: seq<Record>, end: int)

  function FloorOf(s: State): Option<int>
  {
    match s.watermark
    case None => None
    case Some(w) => Some(WatermarkFloor(w, WATERMARK_OVERLAP_SECONDS))
  }

  ghost predicate Possible(history: seq<Edit>, s: State, a: Attempt)
  {
    && s.horizon <= a.pass.start && PassInTime(a.pass, a.end) && a.pass.start <= a.end
    && match a {
         case Success(pass, batch, _) =>
           TrueReads(history, pass, batch) && CompleteReads(history, pass, FloorOf(s), batch)
         case Failure(pass, part, _) => TrueReads(history, pass, part)
       }
  }

  function After(s: State, a: Attempt): State
  {
    var records := if a.Success? then a.batch else a.part;
    var changed := Select(records, s.known, false);
    State(Apply(s.mirror, changed), Store(s.known, changed),
          if a.Success? then Some(NextWatermark(a.pass.start)) else s.watermark, a.end)
  }

  // ---------------------------------------------------------------------------------------------------------
  // No edit is lost.

  /**
   An edit made at or after the start of a run is reported inside the next run's window, whatever the rounding
   and the skew; and 120 is the least whole number of seconds for which that is so.
  */
  lemma OverlapIsExact(overlapSeconds: int)
    ensures (forall e: Edit, start: int :: SkewIsBounded(e) && start <= e.at ==>
        WatermarkFloor(start, overlapSeconds) <= Reported(e))
      <==> overlapSeconds >= 120
  {
    if overlapSeconds < 120 {
      var e := Edit([], 59_999, -60_000, Null);
      assert SkewIsBounded(e) && Reported(e) == -60_000;
      assert WatermarkFloor(59_999, overlapSeconds) > Reported(e);
    } else {
      forall e: Edit, start: int | SkewIsBounded(e) && start <= e.at
        ensures WatermarkFloor(start, overlapSeconds) <= Reported(e)
      {
        ReportedIsClose(e);
      }
    }
  }

  /** The overlap the code uses is that least one, two minutes: a run is asked for edits from so far before the last. */
  lemma ShippedOverlapIsLeast(overlapSeconds: int, lastStart: int)
    ensures (forall e: Edit, start: int :: SkewIsBounded(e) && start <= e.at ==>
        WatermarkFloor(start, overlapSeconds) <= Reported(e))
      <==> overlapSeconds >= WATERMARK_OVERLAP_SECONDS
    ensures WatermarkFloor(NextWatermark(lastStart), WATERMARK_OVERLAP_SECONDS) == lastStart - 2 * 60 * 1000
  {
    hide WatermarkFloor, Reported, SkewIsBounded;
    OverlapIsExact(overlapSeconds);
    FloorIsOverlap(lastStart);
  }

  lemma FloorIsOverlap(lastStart: int)
    ensures WatermarkFloor(NextWatermark(lastStart), WATERMARK_OVERLAP_SECONDS) == lastStart - 2 * 60 * 1000
  {
  }

  lemma ReportedIsClose(e: Edit)
    requires SkewIsBounded(e)
    ensures e.at - 119_999 <= Reported(e)
  {
  }

  /** The mirror of one record is what the tool held at an instant. */
  ghost predicate MirrorsAt(history: seq<Edit>, mirror: Mirror, id: Text, t: int)
  {
    match LatestAt(history, id, t)
    case None => id !in mirror
    case Some(e) => id in mirror && ContentHash(mirror[id]) == ContentHash(e.content)
  }

  /** Every record mirrors some instant not before the watermark. */
  ghost predicate Inv(history: seq<Edit>, s: State)
  {
    && Mirrored(s.mirror, s.known)
    && (s.watermark.Some? ==> s.watermark.value <= s.horizon)
    && forall id :: MirrorsSince(history, s, id)
  }

  ghost predicate MirrorsSince(history: seq<Edit>, s: State, id: Text)
  {
    exists t :: t <= s.horizon && (s.watermark.Some? ==> s.watermark.value <= t) && MirrorsAt(history, s.mirror, id, t)
  }

  /** A record that was read mirrors the instant it was read at. */
  lemma ReadRecordMirrors(history: seq<Edit>, s: State, p: Pass, records: seq<Record>, x: Record)
    requires Mirrored(s.mirror, s.known) && TrueReads(history, p, records) && x in records
    ensures MirrorsAt(history, Apply(s.mirror, Select(records, s.known, false)), x.externalId, p.readAt(x.externalId))
  {
    hide ContentHash;
    ChangedSufficesAt(s.mirror, s.known, records, x.externalId);
    AppliedAt(s.mirror, records, x.externalId);
  }

  lemma UnreadRecordStays(s: State, records: seq<Record>, id: Text)
    requires DistinctIds(records) && forall x <- records :: x.externalId != id
    ensures
      var m := Apply(s.mirror, Select(records, s.known, false));
      (id in m <==> id in s.mirror) && (id in m ==> m[id] == s.mirror[id])
  {
    SelectKeepsDistinct(records, s.known, false);
    AppliedAt(s.mirror, Select(records, s.known, false), id);
  }

  /** A record the next run is not asked for has not been edited since the instant it mirrors. */
  lemma UnaskedIsUnedited(history: seq<Edit>, s: State, id: Text, t: int, r: int)
    requires forall e <- history :: SkewIsBounded(e)
    requires s.watermark.Some? && s.watermark.value <= t <= r
    requires LatestAt(history, id, r).Some? && !Asked(LatestAt(history, id, r).value, FloorOf(s))
    ensures LatestAt(history, id, t) == LatestAt(history, id, r)
  {
    ReportedIsClose(LatestAt(history, id, r).value);
    LatestUnchanged(history, id, t, r);
  }

  lemma UnreadMirrorsStill(history: seq<Edit>, s: State, a: Attempt, id: Text, t: int)
    requires forall e <- history :: SkewIsBounded(e)
    requires Possible(history, s, a) && a.Success? && forall x <- a.batch :: x.externalId != id
    requires t <= s.horizon && (s.watermark.Some? ==> s.watermark.value <= t) && MirrorsAt(history, s.mirror, id, t)
    ensures MirrorsAt(history, After(s, a).mirror, id, a.pass.readAt(id))
  {
    hide ContentHash;
    var r := a.pass.readAt(id);
    UnreadRecordStays(s, a.batch, id);
    LatestUnchanged(history, id, t, r);
    if LatestAt(history, id, r).Some? {
      assert !Asked(LatestAt(history, id, r).value, FloorOf(s));
      UnaskedIsUnedited(history, s, id, t, r);
    }
  }

  lemma SuccessMirrors(history: seq<Edit>, s: State, a: Attempt, id: Text)
    requires forall e <- history :: SkewIsBounded(e)
    requires Inv(history, s) && Possible(history, s, a) && a.Success?
    ensures MirrorsAt(history, After(s, a).mirror, id, a.pass.readAt(id))
  {
    hide ContentHash, MirrorsAt, Mirrored;
    if exists x <- a.batch :: x.externalId == id {
      var x :| x in a.batch && x.externalId == id;
      ReadRecordMirrors(history, s, a.pass, a.batch, x);
    } else {
      assert MirrorsSince(history, s, id);
      var t :| t <= s.horizon && (s.watermark.Some? ==> s.watermark.value <= t) && MirrorsAt(history, s.mirror, id, t);
      UnreadMirrorsStill(history, s, a, id, t);
    }
  }

  lemma FailureMirrors(history: seq<Edit>, s: State, a: Attempt, id: Text)
    requires Inv(history, s) && Possible(history, s, a) && a.Failure?
    ensures MirrorsSince(history, After(s, a), id)
  {
    hide ContentHash, Mirrored;
    var m := After(s, a).mirror;
    assert MirrorsSince(history, s, id);
    var t :| t <= s.horizon && (s.watermark.Some? ==> s.watermark.value <= t) && MirrorsAt(history, s.mirror, id, t);
    if exists x <- a.part :: x.externalId == id {
      var x :| x in a.part && x.externalId == id;
      ReadRecordMirrors(history, s, a.pass, a.part, x);
      assert MirrorsAt(history, m, id, a.pass.readAt(id));
    } else {
      UnreadRecordStays(s, a.part, id);
      assert MirrorsAt(history, m, id, t);
    }
  }

  lemma AttemptKeepsInv(history: seq<Edit>, s: State, a: Attempt)
    requires forall e <- history :: SkewIsBounded(e)
    requires Inv(history, s) && Possible(history, s, a)
    ensures Inv(history, After(s, a))
  {
    hide MirrorsAt, ContentHash;
    MirroredAfter(s.mirror, s.known, if a.Success? then a.batch else a.part);
    forall id ensures MirrorsSince(history, After(s, a), id) {
      if a.Success? {
        SuccessMirrors(history, s, a, id);
        assert MirrorsAt(history, After(s, a).mirror, id, a.pass.readAt(id));
      } else {
        FailureMirrors(history, s, a, id);
      }
    }
  }

  ghost predicate AllPossible(history: seq<Edit>, s: State, attempts: seq<Attempt>)
    decreases |attempts|
  {
    attempts == [] || (Possible(history, s, attempts[0]) && AllPossible(history, After(s, attempts[0]), attempts[1..]))
  }

  function AfterAll(s: State, attempts: seq<Attempt>): State
    decreases |attempts|
  {
    if attempts == [] then s else AfterAll(After(s, attempts[0]), attempts[1..])
  }

  /** A sync that has never run. */
  function Fresh(now: int): State { State(map[], map[], None, now) }

  lemma FreshIsInv(history: seq<Edit>, now: int)
    ensures Inv(history, Fresh(now))
  {
    forall id ensures MirrorsSince(history, Fresh(now), id) {
      var t := BeforeAll(history, now);
      NothingBeforeAll(history, id, t);
      assert MirrorsAt(history, map[], id, t);
    }
  }

  /** An instant before every edit. */
  function BeforeAll(history: seq<Edit>, now: int): (t: int)
    ensures t <= now && forall e <- history :: t < e.at
  {
    if history == [] then now
    else
      var t := BeforeAll(history[..|history| - 1], now);
      var at := history[|history| - 1].at;
      if t < at then t else at - 1
  }

  lemma NothingBeforeAll(history: seq<Edit>, id: Text, t: int)
    requires forall e <- history :: t < e.at
    ensures LatestAt(history, id, t).None?
  {
  }

  lemma {:induction false} RunsKeepInv(history: seq<Edit>, s: State, attempts: seq<Attempt>)
    requires forall e <- history :: SkewIsBounded(e)
    requires Inv(history, s) && AllPossible(history, s, attempts)
    ensures Inv(history, AfterAll(s, attempts))
    decreases |attempts|
  {
    hide Inv, Possible, After;
    if attempts != [] {
      AttemptKeepsInv(history, s, attempts[0]);
      RunsKeepInv(history, After(s, attempts[0]), attempts[1..]);
    }
  }

  /**
   Watermark completeness: after any runs, failed ones among them, a successful run leaves every record mirrored
   as the tool held it when the run read, or would have read, its page, an instant not before the run's start.
  */
  lemma NoEditIsLost(history: seq<Edit>, now: int, attempts: seq<Attempt>, a: Attempt, id: Text)
    requires forall e <- history :: SkewIsBounded(e)
    requires AllPossible(history, Fresh(now), attempts)
    requires Possible(history, AfterAll(Fresh(now), attempts), a) && a.Success?
    ensures
      var t := a.pass.readAt(id);
      var mirror := After(AfterAll(Fresh(now), attempts), a).mirror;
      && a.pass.start <= t
      && (match LatestAt(history, id, t)
          case None => id !in mirror
          case Some(e) => id in mirror && (Plain(mirror[id]) && Plain(e.content) ==> Same(mirror[id], e.content)))
  {
    hide ContentHash, After;
    FreshIsInv(history, now);
    RunsKeepInv(history, Fresh(now), attempts);
    var s := AfterAll(Fresh(now), attempts);
    SuccessMirrors(history, s, a, id);
    var t, mirror := a.pass.readAt(id), After(s, a).mirror;
    assert MirrorsAt(history, mirror, id, t);
    if LatestAt(history, id, t).Some? {
      var e := LatestAt(history, id, t).value;
      if Plain(mirror[id]) && Plain(e.content) {
        ContentHashDecidesSame(mirror[id], e.content);
      }
    }
  }
}
