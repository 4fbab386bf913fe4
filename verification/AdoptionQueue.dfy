/**
 The adoption queue: one pass over the undecided candidates that filters, counts and pages. Days are texts of the
 form YYYY-MM-DD and compare as text.
*/
module AdoptionQueue {
  import opened Texts
  import opened Sorting
  import opened Json
  import opened Hashing
  import opened Plans

  datatype When = Open | Current | Upcoming | Undated | Ended | All

  datatype Period = IsCurrent | IsUpcoming | IsUndated | IsEnded

  datatype Candidate = Candidate(
    externalKind: Text, externalId: Text, areaKey: Option<Text>, proposedKind: Text, sourceRole: Option<Text>,
    startsOn: Option<Text>, endsOn: Option<Text>)

  datatype Filter = Filter(when: When, source: Option<Text>, areaKey: Option<Text>, kind: Option<Text>)

  const NO_AREA: Text := [0x5F, 0x6E, 0x6F, 0x6E, 0x65]  // _none

  predicate IsSlugUnit(u: CodeUnit) { 0x61 <= u <= 0x7A || 0x30 <= u <= 0x39 }

  /** What every area's key is: a lower-case slug, which starts with a letter or a digit. */
  predicate IsAreaKey(t: Text)
  {
    && 1 <= |t| <= 64 && IsSlugUnit(t[0])
    && forall i :: 1 <= i < |t| ==> IsSlugUnit(t[i]) || t[i] == 0x5F || t[i] == 0x2D
  }

  /** Every candidate is in an area there is, or in none. */
  ghost predicate InRealAreas(records: seq<Candidate>)
  {
    forall c <- records :: c.areaKey.Some? ==> IsAreaKey(c.areaKey.value)
  }

  function SourceOf(c: Candidate): Text
  {
    match c.sourceRole
    case Some(role) => role
    case None => c.externalKind
  }

  function PeriodOf(c: Candidate, today: Text): Period
  {
    if c.endsOn.None? then IsUndated
    else if Less(c.endsOn.value, today) then IsEnded
    else if c.startsOn.Some? && Less(today, c.startsOn.value) then IsUpcoming
    else IsCurrent
  }

  predicate MatchesWhen(period: Period, when: When)
  {
    match when
    case All => true
    case Open => !period.IsEnded?
    case Current => period.IsCurrent?
    case Upcoming => period.IsUpcoming?
    case Undated => period.IsUndated?
    case Ended => period.IsEnded?
  }

  predicate MatchesArea(c: Candidate, areaKey: Option<Text>)
  {
    match areaKey
    case None => true
    case Some(key) => if key == NO_AREA then c.areaKey.None? else c.areaKey == Some(key)
  }

  datatype Dimension = WhenDimension | SourceDimension | AreaDimension | NoDimension

  /** Every filter holds, or every one but `except`. */
  predicate Matches(c: Candidate, period: Period, filter: Filter, except: Dimension)
  {
    && (except.WhenDimension? || MatchesWhen(period, filter.when))
    && (except.SourceDimension? || filter.source.None? || SourceOf(c) == filter.source.value)
    && (except.AreaDimension? || MatchesArea(c, filter.areaKey))
    && (filter.kind.None? || c.proposedKind == filter.kind.value)
  }

  /** The candidates a filter shows, in the queue's own order. */
  function Matching(records: seq<Candidate>, filter: Filter, today: Text): (r: seq<Candidate>)
    ensures forall c :: c in r <==> c in records && Matches(c, PeriodOf(c, today), filter, NoDimension)
  {
    if records == [] then []
    else
      var c := records[|records| - 1];
      Matching(records[..|records| - 1], filter, today)
      + (if Matches(c, PeriodOf(c, today), filter, NoDimension) then [c] else [])
  }

  /**
   What a filter shows, on the fields of the candidate. Ended: it ended before today. Undated: it has no end.
   Upcoming: it has not ended and starts after today. Current: it has not ended and has started, or has no start.
   Open: all but the ended. A source is a role, or the external kind of a candidate without one.
  */
  ghost predicate Shows(c: Candidate, filter: Filter, today: Text)
  {
    var ended := c.endsOn.Some? && Less(c.endsOn.value, today);
    var ahead := c.startsOn.Some? && Less(today, c.startsOn.value);
    && (filter.when == Ended ==> ended)
    && (filter.when == Undated ==> c.endsOn.None?)
    && (filter.when == Upcoming ==> c.endsOn.Some? && !ended && ahead)
    && (filter.when == Current ==> c.endsOn.Some? && !ended && !ahead)
    && (filter.when == Open ==> !ended)
    && (filter.source.Some? ==>
          c.sourceRole == filter.source || (c.sourceRole.None? && c.externalKind == filter.source.value))
    && (filter.areaKey.Some? ==>
          if filter.areaKey == Some(NO_AREA) then c.areaKey.None? else c.areaKey == filter.areaKey)
    && (filter.kind.Some? ==> c.proposedKind == filter.kind.value)
  }

  lemma MatchesIsShows(c: Candidate, filter: Filter, today: Text)
    ensures Matches(c, PeriodOf(c, today), filter, NoDimension) <==> Shows(c, filter, today)
    ensures Matches(c, PeriodOf(c, today), filter, AreaDimension) <==> Shows(c, filter.(areaKey := None), today)
  {
  }

  /** The candidates that the filter shows, in the queue's own order. */
  ghost function Shown(records: seq<Candidate>, filter: Filter, today: Text): (r: seq<Candidate>)
    ensures forall c :: c in r <==> c in records && Shows(c, filter, today)
  {
    if records == [] then []
    else
      var c := records[|records| - 1];
      Shown(records[..|records| - 1], filter, today) + (if Shows(c, filter, today) then [c] else [])
  }

  lemma {:induction false} MatchingIsShown(records: seq<Candidate>, filter: Filter, today: Text)
    ensures Matching(records, filter, today) == Shown(records, filter, today)
  {
    hide Matches, Shows, PeriodOf;
    if records != [] {
      MatchingIsShown(records[..|records| - 1], filter, today);
      MatchesIsShows(records[|records| - 1], filter, today);
    }
  }

  function Total(records: seq<Candidate>, filter: Filter, today: Text): nat
  {
    |Matching(records, filter, today)|
  }

  function Least(a: nat, b: nat): nat { if a < b then a else b }

  /** `slice(offset, offset + limit)`. */
  function Page<T>(xs: seq<T>, limit: nat, offset: nat): seq<T>
  {
    xs[Least(offset, |xs|)..Least(offset + limit, |xs|)]
  }

  /** The count a facet map holds for a key; a key it has not seen counts nothing. */
  function CountAt<K>(counts: map<K, nat>, key: K): nat
  {
    if key in counts then counts[key] else 0
  }

  /** `when` in the order open, current, upcoming, undated, ended, all. */
  datatype View = View(
    items: seq<Candidate>, total: nat, when: map<When, nat>, source: map<Text, nat>, area: map<Option<Text>, nat>)

  function Bump<K>(counts: map<K, nat>, key: K): map<K, nat>
  {
    counts[key := CountAt(counts, key) + 1]
  }

  /** The filter value that asks for an area bucket. */
  function AreaValue(key: Option<Text>): Text
  {
    match key
    case None => NO_AREA
    case Some(k) => k
  }

  lemma OneMoreRecord(records: seq<Candidate>, k: nat, filter: Filter, today: Text)
    requires k < |records|
    ensures Matching(records[..k + 1], filter, today) == Matching(records[..k], filter, today)
      + (if Matches(records[k], PeriodOf(records[k], today), filter, NoDimension) then [records[k]] else [])
  {
    assert records[..k + 1][..k] == records[..k];
  }

  /** Choosing a value in one dimension is matching in the others and having that value. */
  lemma ChoosingOne(c: Candidate, period: Period, f: Filter)
    ensures forall w ::
      (Matches(c, period, f.(when := w), NoDimension)
       <==> Matches(c, period, f, WhenDimension) && MatchesWhen(period, w))
    ensures forall s ::
      (Matches(c, period, f.(source := Some(s)), NoDimension)
       <==> Matches(c, period, f, SourceDimension) && SourceOf(c) == s)
    ensures forall a :: a != Some(NO_AREA) ==> (Matches(c, period, f.(areaKey := Some(AreaValue(a))), NoDimension)
      <==> Matches(c, period, f, AreaDimension) && (c.areaKey == a))
  {
  }

  /** Each when and source count is the total that choosing its value would show; each area count, its own rows. */
  ghost predicate CountsFirst(records: seq<Candidate>, filter: Filter, today: Text,
                              when: map<When, nat>, source: map<Text, nat>, area: map<Option<Text>, nat>)
  {
    && (forall w :: CountAt(when, w) == Total(records, filter.(when := w), today))
    && (forall s :: CountAt(source, s) == Total(records, filter.(source := Some(s)), today))
    && (forall a :: CountAt(area, a) == InArea(records, filter, today, a))
    && (forall a <- area :: area[a] > 0)
  }

  /** The candidates of one area that pass every other filter. */
  function InArea(records: seq<Candidate>, filter: Filter, today: Text, a: Option<Text>): nat
  {
    if records == [] then 0
    else
      var c := records[|records| - 1];
      InArea(records[..|records| - 1], filter, today, a)
      + (if Matches(c, PeriodOf(c, today), filter, AreaDimension) && c.areaKey == a then 1 else 0)
  }

  lemma {:induction false} AreaCountIsTotal(records: seq<Candidate>, filter: Filter, today: Text, a: Option<Text>)
    requires a != Some(NO_AREA)
    ensures InArea(records, filter, today, a) == Total(records, filter.(areaKey := Some(AreaValue(a))), today)
  {
    hide PeriodOf, Matches, AreaValue;
    if records != [] {
      var n := |records| - 1;
      AreaCountIsTotal(records[..n], filter, today, a);
      ChoosingOne(records[n], PeriodOf(records[n], today), filter);
      assert records[..n + 1] == records;
      OneMoreRecord(records, n, filter.(areaKey := Some(AreaValue(a))), today);
    }
  }

  /** Every area the facet lists carries the total its value would show. */
  ghost predicate AreasAreRight(records: seq<Candidate>, filter: Filter, today: Text, area: map<Option<Text>, nat>)
  {
    forall a <- area :: area[a] == Total(records, filter.(areaKey := Some(AreaValue(a))), today)
  }

  /**
   Why the word is reserved: `_none` asks for the candidates without an area, so an area that had it as its key
   would be listed beside a value that shows other candidates. The facet is right exactly when no match has such
   an area, or when it happens to have as many as there are without an area.
  */
  lemma AreasAreRightExactly(records: seq<Candidate>, filter: Filter, today: Text,
                             when: map<When, nat>, source: map<Text, nat>, area: map<Option<Text>, nat>)
    requires CountsFirst(records, filter, today, when, source, area)
    ensures forall a :: a != Some(NO_AREA) ==>
      CountAt(area, a) == Total(records, filter.(areaKey := Some(AreaValue(a))), today)
    ensures AreasAreRight(records, filter, today, area) <==>
      (var reserved := InArea(records, filter, today, Some(NO_AREA));
       reserved == 0 || reserved == InArea(records, filter, today, None))
  {
    hide Total, InArea;
    forall a | a != Some(NO_AREA)
      ensures CountAt(area, a) == Total(records, filter.(areaKey := Some(AreaValue(a))), today)
    {
      AreaCountIsTotal(records, filter, today, a);
    }
    assert AreaValue(Some(NO_AREA)) == AreaValue(None);
    assert CountAt(area, None) == InArea(records, filter, today, None);
    assert CountAt(area, Some(NO_AREA)) == InArea(records, filter, today, Some(NO_AREA));
  }

  lemma {:induction false} NoRealAreaIsReserved(records: seq<Candidate>, filter: Filter, today: Text)
    requires InRealAreas(records)
    ensures InArea(records, filter, today, Some(NO_AREA)) == 0
  {
    hide PeriodOf, Matches;
    if records != [] {
      assert records[|records| - 1] in records;
      NoRealAreaIsReserved(records[..|records| - 1], filter, today);
    }
  }

  /** With candidates in real areas, every count the area facet lists is the total its value would show. */
  lemma RealAreasAreRight(records: seq<Candidate>, filter: Filter, today: Text,
                          when: map<When, nat>, source: map<Text, nat>, area: map<Option<Text>, nat>)
    requires CountsFirst(records, filter, today, when, source, area) && InRealAreas(records)
    ensures AreasAreRight(records, filter, today, area)
    ensures forall c <- records :: Matches(c, PeriodOf(c, today), filter, AreaDimension) ==> c.areaKey in area
  {
    hide Matches, PeriodOf, AreasAreRight;
    NoRealAreaIsReserved(records, filter, today);
    AreasAreRightExactly(records, filter, today, when, source, area);
    forall c <- records | Matches(c, PeriodOf(c, today), filter, AreaDimension) ensures c.areaKey in area {
      MatchIsInArea(records, filter, today, c);
      assert CountAt(area, c.areaKey) == InArea(records, filter, today, c.areaKey);
    }
  }

  lemma {:induction false} MatchIsInArea(records: seq<Candidate>, filter: Filter, today: Text, c: Candidate)
    requires c in records && Matches(c, PeriodOf(c, today), filter, AreaDimension)
    ensures InArea(records, filter, today, c.areaKey) > 0
  {
    hide Matches, PeriodOf;
    var init, last := records[..|records| - 1], records[|records| - 1];
    if c != last {
      assert records == init + [last];
      MatchIsInArea(init, filter, today, c);
    }
  }

  /** The counts of a view are of what choosing their value would show, on the fields of the candidates. */
  ghost predicate CountsShown(records: seq<Candidate>, filter: Filter, today: Text, view: View)
  {
    && (forall w :: CountAt(view.when, w) == |Shown(records, filter.(when := w), today)|)
    && (forall x :: CountAt(view.source, x) == |Shown(records, filter.(source := Some(x)), today)|)
    && (forall a :: a != Some(NO_AREA) ==>
          CountAt(view.area, a) == |Shown(records, filter.(areaKey := Some(AreaValue(a))), today)|)
  }

  lemma ViewIsShown(records: seq<Candidate>, filter: Filter, today: Text, view: View)
    requires CountsFirst(records, filter, today, view.when, view.source, view.area)
    requires forall a :: a != Some(NO_AREA) ==>
      CountAt(view.area, a) == Total(records, filter.(areaKey := Some(AreaValue(a))), today)
    ensures CountsShown(records, filter, today, view)
  {
    hide Matching, Shown, CountAt, AreaValue;
    forall f ensures Total(records, f, today) == |Shown(records, f, today)| {
      MatchingIsShown(records, f, today);
    }
  }

  /**
   The whole view. Its items are a page of what the filter shows. Every facet count is the total the queue would
   show with that one value chosen instead, and every area with a match is listed.
  */
  method QueueView(records: seq<Candidate>, filter: Filter, today: Text, limit: nat, offset: nat) returns (view: View)
    ensures view.total == Total(records, filter, today)
    ensures view.items == Page(Matching(records, filter, today), limit, offset)
    ensures CountsFirst(records, filter, today, view.when, view.source, view.area)
    ensures forall a :: a != Some(NO_AREA) ==>
      CountAt(view.area, a) == Total(records, filter.(areaKey := Some(AreaValue(a))), today)
    ensures InRealAreas(records) ==>
      && AreasAreRight(records, filter, today, view.area)
      && forall c <- records :: Matches(c, PeriodOf(c, today), filter, AreaDimension) ==> c.areaKey in view.area
    ensures view.total == |Shown(records, filter, today)|
    ensures view.items == Page(Shown(records, filter, today), limit, offset)
    ensures CountsShown(records, filter, today, view)
    ensures InRealAreas(records) ==>
      forall c <- records :: Shows(c, filter.(areaKey := None), today) ==> c.areaKey in view.area
  {
    hide Shows, Shown, CountsShown;
    hide InRealAreas, AreasAreRight;
    hide Matching, Matches, PeriodOf, AreaValue, CountAt, Bump, OwnWhen, CountsFirst, MatchesWhen, SourceOf;
    var when: map<When, nat> := map[Open := 0, Current := 0, Upcoming := 0, Undated := 0, Ended := 0, All := 0];
    var source: map<Text, nat> := map[];
    var area: map<Option<Text>, nat> := map[];
    NothingMatches(filter, today);
    NothingCounted(filter, today, when, source, area);
    for k := 0 to |records|
      invariant CountsFirst(records[..k], filter, today, when, source, area)
    {
      ghost var when0, source0, area0 := when, source, area;
      var c, period := records[k], PeriodOf(records[k], today);
      if Matches(c, period, filter, WhenDimension) {
        when := Bump(when, OwnWhen(period));
        when := Bump(when, All);
        if !period.IsEnded? { when := Bump(when, Open); }
        WhenCounts(when0, period);
      }
      if Matches(c, period, filter, SourceDimension) {
        source := Bump(source, SourceOf(c));
        BumpCounts(source0, SourceOf(c));
      }
      if Matches(c, period, filter, AreaDimension) {
        area := Bump(area, c.areaKey);
        BumpCounts(area0, c.areaKey);
      }
      CountingOn(records, k, filter, today, when0, source0, area0, when, source, area);
    }
    assert records[..|records|] == records;
    AreasAreRightExactly(records, filter, today, when, source, area);
    if InRealAreas(records) { RealAreasAreRight(records, filter, today, when, source, area); }
    var matching := Matching(records, filter, today);
    view := View(Page(matching, limit, offset), |matching|, when, source, area);
    MatchingIsShown(records, filter, today);
    ViewIsShown(records, filter, today, view);
    forall c { MatchesIsShows(c, filter, today); }
  }

  lemma NothingCounted(filter: Filter, today: Text,
                       when: map<When, nat>, source: map<Text, nat>, area: map<Option<Text>, nat>)
    requires (forall w :: w in when ==> when[w] == 0) && source == map[] && area == map[]
    ensures CountsFirst([], filter, today, when, source, area)
  {
  }

  lemma BumpCounts<K(!new)>(counts: map<K, nat>, key: K)
    ensures forall k :: CountAt(Bump(counts, key), k) == CountAt(counts, k) + (if k == key then 1 else 0)
    ensures (forall k <- counts :: counts[k] > 0) ==> forall k <- Bump(counts, key) :: Bump(counts, key)[k] > 0
  {
  }

  /** Counting a period in its own facet, in `all`, and in `open` unless it has ended. */
  lemma WhenCounts(when: map<When, nat>, period: Period)
    ensures
      var two := Bump(Bump(when, OwnWhen(period)), All);
      var all := if period.IsEnded? then two else Bump(two, Open);
      forall w :: CountAt(all, w) == CountAt(when, w) + (if MatchesWhen(period, w) then 1 else 0)
  {
    hide CountAt, Bump;
    BumpCounts(when, OwnWhen(period));
    BumpCounts(Bump(when, OwnWhen(period)), All);
    BumpCounts(Bump(Bump(when, OwnWhen(period)), All), Open);
  }

  /** The facet a period itself is. */
  function OwnWhen(period: Period): When
  {
    match period
    case IsCurrent => Current
    case IsUpcoming => Upcoming
    case IsUndated => Undated
    case IsEnded => Ended
  }

  lemma NothingMatches(filter: Filter, today: Text)
    ensures forall f :: Matching([], f, today) == []
  {
  }

  lemma CountingOn(records: seq<Candidate>, k: nat, filter: Filter, today: Text,
                   when: map<When, nat>, source: map<Text, nat>, area: map<Option<Text>, nat>,
                   when': map<When, nat>, source': map<Text, nat>, area': map<Option<Text>, nat>)
    requires k < |records| && CountsFirst(records[..k], filter, today, when, source, area)
    requires
      var c, p := records[k], PeriodOf(records[k], today);
      && (forall w :: CountAt(when', w) == CountAt(when, w) +
            (if Matches(c, p, filter, WhenDimension) && MatchesWhen(p, w) then 1 else 0))
      && (forall s :: CountAt(source', s) == CountAt(source, s) +
            (if Matches(c, p, filter, SourceDimension) && SourceOf(c) == s then 1 else 0))
      && (forall a :: CountAt(area', a) == CountAt(area, a) +
            (if Matches(c, p, filter, AreaDimension) && c.areaKey == a then 1 else 0))
      && ((forall a <- area :: area[a] > 0) ==> forall a <- area' :: area'[a] > 0)
    ensures CountsFirst(records[..k + 1], filter, today, when', source', area')
  {
    hide Matching, Matches, PeriodOf, AreaValue, MatchesWhen, CountAt;
    var c, p := records[k], PeriodOf(records[k], today);
    ChoosingOne(c, p, filter);
    forall w ensures CountAt(when', w) == Total(records[..k + 1], filter.(when := w), today) {
      OneMoreRecord(records, k, filter.(when := w), today);
      assert CountAt(when, w) == Total(records[..k], filter.(when := w), today);
    }
    forall s ensures CountAt(source', s) == Total(records[..k + 1], filter.(source := Some(s)), today) {
      OneMoreRecord(records, k, filter.(source := Some(s)), today);
      assert CountAt(source, s) == Total(records[..k], filter.(source := Some(s)), today);
    }
    forall a ensures CountAt(area', a) == InArea(records[..k + 1], filter, today, a) {
      assert records[..k + 1][..k] == records[..k];
      assert CountAt(area, a) == InArea(records[..k], filter, today, a);
    }
  }

  /** What the key pattern rules out: in an area keyed `_none`, a candidate counted and not shown. */
  lemma ReservedAreaIsNotShown(c: Candidate, filter: Filter, today: Text)
    requires c.areaKey == Some(NO_AREA) && Matches(c, PeriodOf(c, today), filter, AreaDimension)
    ensures InArea([c], filter, today, Some(NO_AREA)) == 1
    ensures Total([c], filter.(areaKey := Some(NO_AREA)), today) == 0
  {
    var f := filter.(areaKey := Some(NO_AREA));
    assert [c][..0] == [];
    assert InArea([c][..0], filter, today, Some(NO_AREA)) == 0;
    OneMoreRecord([c], 0, f, today);
    assert [c][..1] == [c];
    assert !Matches(c, PeriodOf(c, today), f, NoDimension);
  }

  /** The when facet adds up: every match is in one period, open is all that have not ended. */
  lemma {:induction false} PeriodsAddUp(records: seq<Candidate>, f: Filter, today: Text)
    ensures Total(records, f.(when := All), today)
         == Total(records, f.(when := Open), today) + Total(records, f.(when := Ended), today)
    ensures Total(records, f.(when := Open), today)
         == Total(records, f.(when := Current), today) + Total(records, f.(when := Upcoming), today)
            + Total(records, f.(when := Undated), today)
  {
    hide PeriodOf, Matches, Matching;
    if records != [] {
      PeriodsAddUp(records[..|records| - 1], f, today);
      CountsOneMore(records, f, today, All);
      CountsOneMore(records, f, today, Open);
      CountsOneMore(records, f, today, Ended);
      CountsOneMore(records, f, today, Current);
      CountsOneMore(records, f, today, Upcoming);
      CountsOneMore(records, f, today, Undated);
    } else {
      NothingMatches(f, today);
    }
  }

  lemma CountsOneMore(records: seq<Candidate>, f: Filter, today: Text, w: When)
    requires records != []
    ensures
      var c := records[|records| - 1];
      Total(records, f.(when := w), today) == Total(records[..|records| - 1], f.(when := w), today)
        + (if Matches(c, PeriodOf(c, today), f, WhenDimension) && MatchesWhen(PeriodOf(c, today), w) then 1 else 0)
  {
    hide PeriodOf, Matches, Matching, MatchesWhen;
    var n := |records| - 1;
    assert records[..n + 1] == records;
    OneMoreRecord(records, n, f.(when := w), today);
    ChoosingOne(records[n], PeriodOf(records[n], today), f);
  }

  // ---------------------------------------------------------------------------------------------------------
  // Pages.

  function PagesUpTo<T>(xs: seq<T>, limit: nat, n: nat): seq<T>
  {
    if n == 0 then [] else PagesUpTo(xs, limit, n - 1) + Page(xs, limit, (n - 1) * limit)
  }

  /** The first n pages are the first n x limit matches, so enough pages are the whole list, each match once. */
  lemma {:induction false} PagesConcatenate<T>(xs: seq<T>, limit: nat, n: nat)
    ensures PagesUpTo(xs, limit, n) == xs[..Least(n * limit, |xs|)]
    ensures n * limit >= |xs| ==> PagesUpTo(xs, limit, n) == xs
  {
    if n > 0 {
      PagesConcatenate(xs, limit, n - 1);
      assert n * limit == (n - 1) * limit + limit;
      OnePageMore(xs, (n - 1) * limit, limit);
    }
  }

  lemma OnePageMore<T>(xs: seq<T>, offset: nat, limit: nat)
    ensures xs[..Least(offset, |xs|)] + Page(xs, limit, offset) == xs[..Least(offset + limit, |xs|)]
  {
  }

  // ---------------------------------------------------------------------------------------------------------
  // The ended candidates.

  function EndedSelection(records: seq<Candidate>, filter: Filter, today: Text): seq<Candidate>
  {
    Matching(records, filter.(when := Ended), today)
  }

  /** What it selects, on the fields: what ended before today, under the same source, area and kind. */
  lemma EndedSelectionIsShown(records: seq<Candidate>, filter: Filter, today: Text)
    ensures EndedSelection(records, filter, today) == Shown(records, filter.(when := Ended), today)
    ensures forall c <- EndedSelection(records, filter, today) :: c.endsOn.Some? && Less(c.endsOn.value, today)
  {
    hide Matching;
    MatchingIsShown(records, filter.(when := Ended), today);
  }

  /** Its size is the Ended facet of the same view, whatever `when` the view was asked with. */
  lemma EndedCountIsTheFacet(records: seq<Candidate>, filter: Filter, today: Text,
                             when: map<When, nat>, source: map<Text, nat>, area: map<Option<Text>, nat>)
    requires CountsFirst(records, filter, today, when, source, area)
    ensures |EndedSelection(records, filter, today)| == CountAt(when, Ended)
  {
    assert CountAt(when, Ended) == Total(records, filter.(when := Ended), today);
  }

  lemma EndedStaysEnded(c: Candidate, today: Text, later: Text)
    requires !Less(later, today) && PeriodOf(c, today).IsEnded?
    ensures PeriodOf(c, later).IsEnded?
  {
    if later != today {
      LessIsTotal(today, later);
      LessIsTransitive(c.endsOn.value, today, later);
    }
  }

  /** As the day advances the ended set only grows: what was selected is selected again, in the same order. */
  lemma {:induction false} EndedOnlyGrows(records: seq<Candidate>, filter: Filter, today: Text, later: Text)
    requires !Less(later, today)
    ensures EndedSelection(records, filter, today)
      == Matching(EndedSelection(records, filter, later), filter.(when := Ended), today)
  {
    hide PeriodOf, Matches;
    if records != [] {
      var n := |records| - 1;
      var c, f := records[n], filter.(when := Ended);
      EndedOnlyGrows(records[..n], filter, today, later);
      MatchedThenMatchedLater(c, f, today, later);
      var init := Matching(records[..n], f, later);
      assert Matching(records, f, later) == init + (if Matches(c, PeriodOf(c, later), f, NoDimension) then [c] else []);
      if Matches(c, PeriodOf(c, later), f, NoDimension) {
        assert (init + [c])[..|init + [c]| - 1] == init;
      } else {
        assert init + [] == init;
      }
    }
  }

  lemma MatchedThenMatchedLater(c: Candidate, f: Filter, today: Text, later: Text)
    requires f.when.Ended? && !Less(later, today)
    ensures Matches(c, PeriodOf(c, today), f, NoDimension) ==> Matches(c, PeriodOf(c, later), f, NoDimension)
  {
    hide PeriodOf;
    if PeriodOf(c, today).IsEnded? { EndedStaysEnded(c, today, later); }
  }

  // ---------------------------------------------------------------------------------------------------------
  // The digest of a set of candidates.

  const COLON: CodeUnit := 0x3A
  const OPERATION: Text := [0x6F, 0x70, 0x65, 0x72, 0x61, 0x74, 0x69, 0x6F, 0x6E]  // operation
  const CANDIDATES: Text := [0x63, 0x61, 0x6E, 0x64, 0x69, 0x64, 0x61, 0x74, 0x65, 0x73]  // candidates

  /** The text adoption:ignore-ended. */
  const IGNORE_ENDED: Text :=
    [0x61, 0x64, 0x6F, 0x70, 0x74, 0x69, 0x6F, 0x6E, 0x3A]
    + [0x69, 0x67, 0x6E, 0x6F, 0x72, 0x65, 0x2D, 0x65, 0x6E, 0x64, 0x65, 0x64]

  function Label(c: Candidate): Text { c.externalKind + [COLON] + c.externalId }

  function Labels(cs: seq<Candidate>): (r: seq<Text>)
    ensures |r| == |cs| && forall i :: 0 <= i < |cs| ==> r[i] == Label(cs[i])
  {
    if cs == [] then [] else [Label(cs[0])] + Labels(cs[1..])
  }

  function DigestPlan(cs: seq<Candidate>): Json
  {
    Object([Member(OPERATION, String(IGNORE_ENDED)),
            Member(CANDIDATES, Array(Strings(SortBy(Labels(cs), Itself))))])
  }

  function EndedDigest(cs: seq<Candidate>): Digest { HashPlan(DigestPlan(cs)) }

  /** `external_kind` is a vocabulary without a colon. */
  ghost predicate KindsAreWords(cs: seq<Candidate>)
  {
    forall c <- cs :: COLON !in c.externalKind
  }

  datatype Identity = Identity(kind: Text, id: Text)

  function IdentityOf(c: Candidate): Identity { Identity(c.externalKind, c.externalId) }

  function Identities(cs: seq<Candidate>): (r: seq<Identity>)
    ensures |r| == |cs| && forall i :: 0 <= i < |cs| ==> r[i] == IdentityOf(cs[i])
  {
    if cs == [] then [] else [IdentityOf(cs[0])] + Identities(cs[1..])
  }

  function LabelOf(i: Identity): Text { i.kind + [COLON] + i.id }

  lemma LabelIsInjective(a: Identity, b: Identity)
    requires COLON !in a.kind && COLON !in b.kind && LabelOf(a) == LabelOf(b)
    ensures a == b
  {
    hide LabelOf;
    FirstColonEndsKind(a);
    FirstColonEndsKind(b);
    assert |a.kind| == |b.kind|;
  }

  lemma FirstColonEndsKind(i: Identity)
    requires COLON !in i.kind
    ensures
      var t, n := LabelOf(i), |i.kind|;
      n < |t| && t[n] == COLON && (forall k :: 0 <= k < n ==> t[k] != COLON) && t[..n] == i.kind && t[n + 1..] == i.id
  {
  }

  /** A label occurs among the labels as often as its identity among the identities. */
  lemma {:induction false} LabelsCountIdentities(cs: seq<Candidate>, i: Identity)
    requires KindsAreWords(cs) && COLON !in i.kind
    ensures multiset(Labels(cs))[LabelOf(i)] == multiset(Identities(cs))[i]
  {
    hide Label, LabelOf, IdentityOf;
    if cs != [] {
      LabelsCountIdentities(cs[1..], i);
      assert cs[0] in cs;
      LabelOfCandidate(cs[0]);
      if Label(cs[0]) == LabelOf(i) { LabelIsInjective(IdentityOf(cs[0]), i); }
    }
  }

  lemma LabelOfCandidate(c: Candidate)
    ensures Label(c) == LabelOf(IdentityOf(c)) && IdentityOf(c).kind == c.externalKind
  {
  }

  lemma {:induction false} LabelsOfIdentities(cs: seq<Candidate>, ds: seq<Candidate>)
    requires KindsAreWords(cs) && KindsAreWords(ds)
    ensures multiset(Labels(cs)) == multiset(Labels(ds)) <==> multiset(Identities(cs)) == multiset(Identities(ds))
  {
    var a, b := multiset(Identities(cs)), multiset(Identities(ds));
    var p, q := multiset(Labels(cs)), multiset(Labels(ds));
    if p == q {
      forall i ensures a[i] == b[i] {
        if COLON !in i.kind {
          LabelsCountIdentities(cs, i);
          LabelsCountIdentities(ds, i);
        } else {
          NoSuchIdentity(cs, i);
          NoSuchIdentity(ds, i);
        }
      }
    }
    if a == b {
      forall t ensures p[t] == q[t] {
        LabelComesFromIdentity(cs, t);
        LabelComesFromIdentity(ds, t);
        if i: Identity :| COLON !in i.kind && LabelOf(i) == t {
          LabelsCountIdentities(cs, i);
          LabelsCountIdentities(ds, i);
        }
      }
    }
  }

  lemma NoSuchIdentity(cs: seq<Candidate>, i: Identity)
    requires KindsAreWords(cs) && COLON in i.kind
    ensures multiset(Identities(cs))[i] == 0
  {
    assert forall k :: 0 <= k < |cs| ==> cs[k] in cs && Identities(cs)[k].kind == cs[k].externalKind;
    assert i !in Identities(cs);
  }

  lemma LabelComesFromIdentity(cs: seq<Candidate>, t: Text)
    requires KindsAreWords(cs)
    ensures multiset(Labels(cs))[t] == 0 || exists i: Identity :: COLON !in i.kind && LabelOf(i) == t
  {
    if t in Labels(cs) {
      var k :| 0 <= k < |cs| && Labels(cs)[k] == t;
      assert cs[k] in cs;
      assert COLON !in IdentityOf(cs[k]).kind && LabelOf(IdentityOf(cs[k])) == t;
    }
  }

  lemma StringsArePlain(ts: seq<Text>)
    ensures Plain(Array(Strings(ts)))
  {
  }

  lemma TwoKeys(a: Member, b: Member)
    requires a.key != b.key
    ensures DistinctBy([a, b], KeyOf) && Get([a, b], a.key) == a.value && Get([a, b], b.key) == b.value
  {
    assert [a, b][1..] == [b];
    assert Get([a, b], b.key) == Get([b], b.key);
  }

  lemma DigestPlanIsPlain(cs: seq<Candidate>)
    ensures Plain(DigestPlan(cs))
  {
    var ms := DigestPlan(cs).members;
    StringsArePlain(SortBy(Labels(cs), Itself));
    assert OPERATION[0] != CANDIDATES[0];
    TwoKeys(ms[0], ms[1]);
  }

  /** Two digests agree exactly when they are of the same candidates, in whatever order, and of nothing else. */
  lemma DigestNamesTheSet(cs: seq<Candidate>, ds: seq<Candidate>)
    requires KindsAreWords(cs) && KindsAreWords(ds)
    ensures EndedDigest(cs) == EndedDigest(ds) <==> multiset(Identities(cs)) == multiset(Identities(ds))
  {
    hide HashPlan, Labels, Identities, SortBy;
    var a, b := SortBy(Labels(cs), Itself), SortBy(Labels(ds), Itself);
    DigestPlanIsPlain(cs);
    DigestPlanIsPlain(ds);
    HashPlanDecidesSame(DigestPlan(cs), DigestPlan(ds));
    LabelsOfIdentities(cs, ds);
    SortByIsPermutation(Labels(cs), Itself);
    SortByIsPermutation(Labels(ds), Itself);
    if EndedDigest(cs) == EndedDigest(ds) {
      SameDigestPlans(cs, ds);
    }
    if multiset(Labels(cs)) == multiset(Labels(ds)) {
      SortByIsSorted(Labels(cs), Itself);
      SortByIsSorted(Labels(ds), Itself);
      SortedTextsAreUnique(a, b);
    }
  }

  lemma SameDigestPlans(cs: seq<Candidate>, ds: seq<Candidate>)
    requires Same(DigestPlan(cs), DigestPlan(ds))
    ensures SortBy(Labels(cs), Itself) == SortBy(Labels(ds), Itself)
  {
    hide Labels, SortBy;
    var ms, ws := DigestPlan(cs).members, DigestPlan(ds).members;
    assert OPERATION[0] != CANDIDATES[0];
    TwoKeys(ms[0], ms[1]);
    TwoKeys(ws[0], ws[1]);
    SameObjects(ms, ws);
    assert SameAt(ms, ws, CANDIDATES);
    SameStrings(SortBy(Labels(cs), Itself), SortBy(Labels(ds), Itself));
  }
}
