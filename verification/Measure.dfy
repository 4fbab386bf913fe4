/**
 The KPI series: every bucket between two dates, and what each area's buckets add up to.
*/
module Measure {
  import opened Texts
  import opened Calendar

  // ---------------------------------------------------------------------------------------------------------
  // bucketsBetween.

  /** From the bucket of `from`, cursor by cursor, as long as the cursor is not after `to`. */
  ghost predicate BucketList(bs: seq<int>, from: int, to: int, bucket: Bucket)
  {
    && (bs == [] <==> !NotAfter(BucketStart(from, bucket), to))
    && (bs != [] ==>
          && At(bs[0]) == BucketStart(from, bucket)
          && !NotAfter(NextCursor(bs[|bs| - 1], bucket), to))
    && (forall i :: 0 <= i < |bs| - 1 ==> NextCursor(bs[i], bucket) == At(bs[i + 1]))
    && (forall i :: 0 <= i < |bs| ==> IsStart(bs[i], bucket) && IsTime(bs[i]) && bs[i] <= to)
  }

  /** A comparison with an invalid date is false. */
  predicate NotAfter(d: Date, to: int) { d.At? && d.t <= to }

  lemma BucketStartIsAStart(t: int, bucket: Bucket)
    requires BucketStart(t, bucket).At?
    ensures IsStart(BucketStart(t, bucket).t, bucket) && IsTime(BucketStart(t, bucket).t)
  {
    hide MonthStart, YearOf, MonthOf, MonthIndex;
    var y, m := FullYear(YearOf(Day(t))), MonthOf(Day(t));
    if bucket.Week? {
      var midnight := DateUTC(YearOf(Day(t)), m, DateOf(Day(t))).t;
      var d := MonthStart(12 * y + m) + DateOf(Day(t)) - 1;
      DayOfMidnight(d);
      SameOffset(d);
      StartContains(midnight, Week);
    } else {
      MonthMidnight(12 * y + m);
    }
  }

  method BucketsBetween(from: int, to: int, bucket: Bucket) returns (buckets: seq<int>)
    ensures BucketList(buckets, from, to, bucket)
  {
    hide BucketStart, NextCursor, IsStart;
    buckets := [];
    var cursor := BucketStart(from, bucket);
    if cursor.At? { BucketStartIsAStart(from, bucket); }
    while cursor.At? && cursor.t <= to
      invariant buckets == [] ==> cursor == BucketStart(from, bucket)
      invariant buckets != [] ==>
        At(buckets[0]) == BucketStart(from, bucket) && cursor == NextCursor(buckets[|buckets| - 1], bucket)
      invariant forall i :: 0 <= i < |buckets| - 1 ==> NextCursor(buckets[i], bucket) == At(buckets[i + 1])
      invariant forall i :: 0 <= i < |buckets| ==>
        IsStart(buckets[i], bucket) && IsTime(buckets[i]) && buckets[i] <= to
      invariant cursor.At? ==> IsStart(cursor.t, bucket) && IsTime(cursor.t)
      decreases if cursor.At? then to - cursor.t else -1
    {
      buckets := buckets + [cursor.t];
      NextCursorIsEnd(cursor.t, bucket);
      NextCursorIsTime(cursor.t, bucket);
      cursor := NextCursor(cursor.t, bucket);
    }
  }

  lemma NextCursorIsTime(b: int, bucket: Bucket)
    ensures NextCursor(b, bucket).At? ==> IsTime(NextCursor(b, bucket).t)
  {
  }

  lemma {:induction false} BucketsAscend(bs: seq<int>, from: int, to: int, bucket: Bucket, i: int, j: int)
    requires BucketList(bs, from, to, bucket) && 0 <= i < j < |bs|
    ensures bs[i] < bs[j]
    decreases j - i
  {
    hide BucketStart, NextCursor, IsStart;
    NextCursorIsEnd(bs[j - 1], bucket);
    if i < j - 1 { BucketsAscend(bs, from, to, bucket, i, j - 1); }
  }

  /** No instant of the range lies in a year from 0 to 99. */
  predicate OrdinaryYears(from: int, to: int)
  {
    YearOf(Day(to)) < 0 || YearOf(Day(from)) > 99
  }

  lemma OrdinaryInstant(from: int, to: int, t: int)
    requires OrdinaryYears(from, to) && from <= t <= to
    ensures !TwoDigitYear(t)
  {
    hide YearOf;
    YearsFollowDays(Day(from), Day(t));
    YearsFollowDays(Day(t), Day(to));
  }

  lemma ExtraordinaryInstant(from: int, to: int) returns (t: int)
    requires !OrdinaryYears(from, to) && from <= to
    ensures from <= t <= to && TwoDigitYear(t)
  {
    if TwoDigitYear(from) {
      t := from;
    } else if TwoDigitYear(to) {
      t := to;
    } else {
      t := DayFromYear(0) * MS_PER_DAY;
      DayOfMidnight(DayFromYear(0));
      DayBounds(from);
      DayBounds(to);
      YearContains(Day(from));
      YearContains(Day(to));
      YearContains(DayFromYear(0));
      YearBetween(Day(from), Day(to));
    }
  }

  lemma YearBetween(a: int, b: int)
    requires YearOf(a) < 0 && YearOf(b) > 99
    ensures a < DayFromYear(0) <= b && YearOf(DayFromYear(0)) == 0
  {
    hide YearOf, DayFromYear;
    YearContains(a);
    YearContains(b);
    YearsAscend(YearOf(a) + 1, 0);
    YearsAscend(0, YearOf(b));
    YearOfItsFirstDay(0);
  }

  /** The list holds the calendar's bucket of t, and that is where `bucketStart` puts t. */
  ghost predicate Holds(bs: seq<int>, t: int, bucket: Bucket)
  {
    BucketStart(t, bucket) == At(Start(t, bucket)) && Start(t, bucket) in bs
  }

  /** In ordinary years the list is contiguous: each bucket ends where the next starts, and the last after `to`. */
  lemma BucketsAreContiguous(bs: seq<int>, from: int, to: int, bucket: Bucket, i: int)
    requires BucketList(bs, from, to, bucket) && IsTime(from) && IsTime(to)
    requires OrdinaryYears(from, to) && 0 <= i < |bs| && bs[0] == Start(from, bucket)
    ensures i + 1 < |bs| ==> bs[i + 1] == End(bs[i], bucket)
    ensures i + 1 == |bs| ==> to < End(bs[i], bucket)
  {
    hide BucketStart, NextCursor, YearOf, MonthOf, MonthIndex, MonthStart, DayFromYear;
    NextCursorIsEnd(bs[i], bucket);
    EndIsStart(bs[i], bucket);
    if bucket.Month? {
      OrdinaryMonth(bs, from, to, i);
    }
  }

  lemma OrdinaryMonth(bs: seq<int>, from: int, to: int, i: int)
    requires BucketList(bs, from, to, Month)
    requires OrdinaryYears(from, to) && 0 <= i < |bs| && bs[0] == Start(from, Month)
    ensures !TwoDigitYear(bs[i])
  {
    hide BucketStart, NextCursor, YearOf, MonthOf, MonthStart, IsStart, DayFromYear;
    if i > 0 { BucketsAscend(bs, from, to, Month, 0, i); }
    MonthStartsItself(MonthIndex(Day(from)));
    DayOfMidnight(MonthStart(MonthIndex(Day(from))));
    assert MonthIndex(Day(bs[0])) == MonthIndex(Day(from));
    assert YearOf(Day(bs[0])) == YearOf(Day(from));
    DayBounds(bs[0]);
    DayBounds(bs[i]);
    DayBounds(to);
    YearsFollowDays(Day(bs[0]), Day(bs[i]));
    YearsFollowDays(Day(bs[i]), Day(to));
  }

  /** In ordinary years every instant finds its bucket in the list. */
  lemma {:induction false} EveryInstantIsHeld(bs: seq<int>, from: int, to: int, bucket: Bucket, t: int, i: int)
    requires BucketList(bs, from, to, bucket) && IsTime(from) && IsTime(to)
    requires OrdinaryYears(from, to) && bs != [] && bs[0] == Start(from, bucket)
    requires 0 <= i < |bs| && bs[i] <= t <= to && from <= t
    ensures Holds(bs, t, bucket)
    decreases |bs| - i
  {
    hide BucketStart, NextCursor, IsStart, Start, End, OrdinaryYears;
    BucketsAreContiguous(bs, from, to, bucket, i);
    if t < End(bs[i], bucket) {
      StartIsUnique(t, bs[i], bucket);
      OrdinaryInstant(from, to, t);
      BucketStartIsRightExactly(t, bucket);
    } else {
      EveryInstantIsHeld(bs, from, to, bucket, t, i + 1);
    }
  }

  lemma FirstBucket(bs: seq<int>, from: int, to: int, bucket: Bucket)
    requires BucketList(bs, from, to, bucket) && IsTime(from) && IsTime(to) && from <= to
    requires OrdinaryYears(from, to) && -MAX_TIME <= Start(from, bucket)
    ensures bs != [] && bs[0] == Start(from, bucket) <= from
  {
    hide BucketStart, NextCursor, IsStart, Start, OrdinaryYears;
    OrdinaryInstant(from, to, from);
    StartContains(from, bucket);
    BucketStartIsRightExactly(from, bucket);
  }

  /**
   Whenever from <= to, every instant between them has its bucket in the list exactly when none of them lies in
   a year from 0 to 99 and the first bucket does not start before time itself.
  */
  lemma BucketsCoverExactly(bs: seq<int>, from: int, to: int, bucket: Bucket)
    requires BucketList(bs, from, to, bucket) && IsTime(from) && IsTime(to) && from <= to
    ensures (forall t :: from <= t <= to ==> Holds(bs, t, bucket))
      <==> OrdinaryYears(from, to) && -MAX_TIME <= Start(from, bucket)
  {
    hide BucketStart, NextCursor, IsStart, Start, OrdinaryYears, BucketList, TwoDigitYear;
    if OrdinaryYears(from, to) && -MAX_TIME <= Start(from, bucket) {
      FirstBucket(bs, from, to, bucket);
      forall t | from <= t <= to ensures Holds(bs, t, bucket) {
        EveryInstantIsHeld(bs, from, to, bucket, t, 0);
      }
    } else if !OrdinaryYears(from, to) {
      var t := ExtraordinaryInstant(from, to);
      BucketStartIsRightExactly(t, bucket);
      assert !Holds(bs, t, bucket);
    } else {
      BucketStartIsRightExactly(from, bucket);
      assert !Holds(bs, from, bucket);
    }
  }

  // ---------------------------------------------------------------------------------------------------------
  // The series of one KPI reading.

  datatype Kind = Ordinary | Run | Signals

  datatype Area = Area(key: Text, kind: Kind)

  /** A completed task of the mirror. */
  datatype Completion = Completion(areaKey: Text, completedAt: int, recordedMinutes: Option<int>)

  /** What one record adds: to which area, at which instant, and how much. */
  datatype Entry = Entry(areaKey: Text, at: int, completions: int, minutes: int)

  function EntryOf(c: Completion, defaultMinutes: int): Entry
  {
    Entry(c.areaKey, c.completedAt, 1, match c.recordedMinutes { case Some(m) => m case None => defaultMinutes })
  }

  /** The completions of a list that lie in the range, as entries. */
  function Within(cs: seq<Completion>, from: int, to: int, defaultMinutes: int): (r: seq<Entry>)
    ensures forall e <- r :: from <= e.at <= to
  {
    if cs == [] then []
    else
      var c := cs[|cs| - 1];
      var rest := Within(cs[..|cs| - 1], from, to, defaultMinutes);
      if from <= c.completedAt <= to then rest + [EntryOf(c, defaultMinutes)] else rest
  }

  type Worth = Entry -> int

  function CountWorth(): Worth { (e: Entry) => e.completions }

  function MinutesWorth(): Worth { (e: Entry) => e.minutes }

  /** What the entries of one area that fall in the bucket starting at b are worth. */
  function InBucket(es: seq<Entry>, area: Text, b: int, bucket: Bucket, worth: Worth): int
  {
    if es == [] then 0
    else
      var e := es[|es| - 1];
      InBucket(es[..|es| - 1], area, b, bucket, worth)
      + (if e.areaKey == area && BucketStart(e.at, bucket) == At(b) then worth(e) else 0)
  }

  /** What all entries of one area are worth. */
  function InAll(es: seq<Entry>, area: Text, worth: Worth): int
  {
    if es == [] then 0
    else InAll(es[..|es| - 1], area, worth) + (if es[|es| - 1].areaKey == area then worth(es[|es| - 1]) else 0)
  }

  function Column(es: seq<Entry>, area: Text, bs: seq<int>, bucket: Bucket, worth: Worth): (r: seq<int>)
    ensures |r| == |bs|
    ensures forall i :: 0 <= i < |bs| ==> r[i] == InBucket(es, area, bs[i], bucket, worth)
  {
    seq(|bs|, i requires 0 <= i < |bs| => InBucket(es, area, bs[i], bucket, worth))
  }

  function Total(xs: seq<int>): int
  {
    if xs == [] then 0 else Total(xs[..|xs| - 1]) + xs[|xs| - 1]
  }

  lemma {:induction false} TotalOfUpdate(xs: seq<int>, i: int, d: int)
    requires 0 <= i < |xs|
    ensures Total(xs[i := xs[i] + d]) == Total(xs) + d
  {
    var ys := xs[i := xs[i] + d];
    if i == |xs| - 1 {
      assert ys[..i] == xs[..i];
    } else {
      assert ys[..|xs| - 1] == xs[..|xs| - 1][i := xs[i] + d];
      TotalOfUpdate(xs[..|xs| - 1], i, d);
    }
  }

  lemma {:induction false} TotalOfZeroes(xs: seq<int>)
    requires forall i :: 0 <= i < |xs| ==> xs[i] == 0
    ensures Total(xs) == 0
  {
    if xs != [] { TotalOfZeroes(xs[..|xs| - 1]); }
  }

  predicate Distinct(bs: seq<int>)
  {
    forall i, j :: 0 <= i < j < |bs| ==> bs[i] != bs[j]
  }

  /** One more entry moves one bucket of the column, or none. */
  lemma ColumnOfOneMore(es: seq<Entry>, e: Entry, area: Text, bs: seq<int>, bucket: Bucket, worth: Worth, k: int)
    requires Distinct(bs) && 0 <= k < |bs|
    requires BucketStart(e.at, bucket) == At(bs[k])
    ensures
      var before := Column(es, area, bs, bucket, worth);
      Column(es + [e], area, bs, bucket, worth)
        == before[k := before[k] + (if e.areaKey == area then worth(e) else 0)]
  {
    hide BucketStart;
    assert (es + [e])[..|es|] == es;
  }

  /** When every entry falls in a bucket of the list, the buckets add up to all of them. */
  lemma {:induction false} BucketsConserve(es: seq<Entry>, area: Text, bs: seq<int>, bucket: Bucket, worth: Worth)
    requires Distinct(bs)
    requires forall e <- es :: e.areaKey == area ==> BucketStart(e.at, bucket).At? && BucketStart(e.at, bucket).t in bs
    ensures Total(Column(es, area, bs, bucket, worth)) == InAll(es, area, worth)
    decreases |es|
  {
    hide BucketStart;
    if es == [] {
      TotalOfZeroes(Column(es, area, bs, bucket, worth));
    } else {
      var init, e := es[..|es| - 1], es[|es| - 1];
      assert es == init + [e];
      BucketsConserve(init, area, bs, bucket, worth);
      var before := Column(init, area, bs, bucket, worth);
      if e.areaKey == area {
        var k :| 0 <= k < |bs| && bs[k] == BucketStart(e.at, bucket).t;
        ColumnOfOneMore(init, e, area, bs, bucket, worth, k);
        TotalOfUpdate(before, k, worth(e));
      } else {
        assert Column(es, area, bs, bucket, worth) == before;
      }
    }
  }

  // ---------------------------------------------------------------------------------------------------------
  // The accumulation loops.

  type Series = map<Text, seq<int>>

  /** One row a known area, one place a bucket, each holding what its entries are worth. */
  ghost predicate Tallies(s: Series, areas: seq<Area>, es: seq<Entry>, bs: seq<int>, bucket: Bucket, worth: Worth)
  {
    && (forall a :: a in s <==> exists i :: 0 <= i < |areas| && areas[i].key == a)
    && (forall a :: a in s ==> s[a] == Column(es, a, bs, bucket, worth))
  }

  /** Minutes are the same, but for a Signals area they stay at zero. */
  ghost predicate TalliesMinutes(s: Series, areas: seq<Area>, es: seq<Entry>, bs: seq<int>, bucket: Bucket)
  {
    && (forall a :: a in s <==> exists i :: 0 <= i < |areas| && areas[i].key == a)
    && (forall a :: a in s ==>
          s[a] == Column(if KindOf(areas, a) == Some(Signals) then [] else es, a, bs, bucket, MinutesWorth()))
  }

  /** `new Map(areas.map(...)).get(key)`: the last area of that key. */
  function KindOf(areas: seq<Area>, key: Text): Option<Kind>
  {
    if areas == [] then None
    else if areas[|areas| - 1].key == key then Some(areas[|areas| - 1].kind)
    else KindOf(areas[..|areas| - 1], key)
  }

  /** The kind of an area is that of the last one with its key, and there is none exactly when no area has it. */
  lemma {:induction false} KindIsOfTheLast(areas: seq<Area>, key: Text, i: int)
    requires 0 <= i < |areas| && areas[i].key == key && forall j :: i < j < |areas| ==> areas[j].key != key
    ensures KindOf(areas, key) == Some(areas[i].kind)
    decreases |areas|
  {
    if i < |areas| - 1 { KindIsOfTheLast(areas[..|areas| - 1], key, i); }
  }

  /** `indexByLabel.get(...)`, the label being the day a bucket starts. */
  method IndexOf(bs: seq<int>, d: Date) returns (index: Option<nat>)
    ensures index.None? ==> forall i :: 0 <= i < |bs| ==> At(bs[i]) != d
    ensures index.Some? ==> index.value < |bs| && At(bs[index.value]) == d
  {
    var i := 0;
    while i < |bs|
      invariant 0 <= i <= |bs|
      invariant forall j :: 0 <= j < i ==> At(bs[j]) != d
    {
      if d == At(bs[i]) { return Some(i); }
      i := i + 1;
    }
    return None;
  }

  method Zeroes(areas: seq<Area>, bs: seq<int>) returns (s: Series)
    ensures forall a :: a in s <==> exists i :: 0 <= i < |areas| && areas[i].key == a
    ensures forall a :: a in s ==> s[a] == seq(|bs|, _ => 0)
  {
    s := map[];
    for k := 0 to |areas|
      invariant forall a :: a in s <==> exists i :: 0 <= i < k && areas[i].key == a
      invariant forall a :: a in s ==> s[a] == seq(|bs|, _ => 0)
    {
      s := s[areas[k].key := seq(|bs|, _ => 0)];
    }
  }

  lemma ColumnOfNothing(a: Text, bs: seq<int>, bucket: Bucket, worth: Worth)
    ensures Column([], a, bs, bucket, worth) == seq(|bs|, _ => 0)
  {
  }

  /** An entry leaves a column alone when it is another area's, or falls in no bucket of the list. */
  lemma ColumnUnmoved(es: seq<Entry>, e: Entry, a: Text, bs: seq<int>, bucket: Bucket, worth: Worth)
    requires e.areaKey != a || forall i :: 0 <= i < |bs| ==> At(bs[i]) != BucketStart(e.at, bucket)
    ensures Column(es + [e], a, bs, bucket, worth) == Column(es, a, bs, bucket, worth)
  {
    hide BucketStart;
    assert (es + [e])[..|es|] == es;
  }

  /** `counts[index] += amount` for the entry's own area, when that area is known. */
  function AddAt(s: Series, area: Text, index: nat, amount: int): Series
    requires area in s ==> index < |s[area]|
  {
    if area in s then s[area := s[area][index := s[area][index] + amount]] else s
  }

  lemma AddingTallies(
      s: Series, areas: seq<Area>, es: seq<Entry>, e: Entry, bs: seq<int>, bucket: Bucket, worth: Worth, k: nat)
    requires Tallies(s, areas, es, bs, bucket, worth)
    requires Distinct(bs) && k < |bs| && At(bs[k]) == BucketStart(e.at, bucket)
    ensures Tallies(AddAt(s, e.areaKey, k, worth(e)), areas, es + [e], bs, bucket, worth)
  {
    hide BucketStart, Column;
    var t := AddAt(s, e.areaKey, k, worth(e));
    forall a | a in t ensures t[a] == Column(es + [e], a, bs, bucket, worth) {
      if a == e.areaKey {
        ColumnOfOneMore(es, e, a, bs, bucket, worth, k);
      } else {
        ColumnUnmoved(es, e, a, bs, bucket, worth);
      }
    }
  }

  lemma SkippingTallies(
      s: Series, areas: seq<Area>, es: seq<Entry>, e: Entry, bs: seq<int>, bucket: Bucket, worth: Worth)
    requires Tallies(s, areas, es, bs, bucket, worth)
    requires forall i :: 0 <= i < |bs| ==> At(bs[i]) != BucketStart(e.at, bucket)
    ensures Tallies(s, areas, es + [e], bs, bucket, worth)
  {
    hide BucketStart, Column;
    forall a | a in s ensures s[a] == Column(es + [e], a, bs, bucket, worth) {
      ColumnUnmoved(es, e, a, bs, bucket, worth);
    }
  }

  lemma MinutesTallyOn(
      s: Series, t: Series, areas: seq<Area>, es: seq<Entry>, e: Entry, bs: seq<int>, bucket: Bucket, k: Option<nat>)
    requires TalliesMinutes(s, areas, es, bs, bucket) && Distinct(bs)
    requires k.None? ==> t == s && forall i :: 0 <= i < |bs| ==> At(bs[i]) != BucketStart(e.at, bucket)
    requires k.Some? ==> k.value < |bs| && At(bs[k.value]) == BucketStart(e.at, bucket)
    requires k.Some? ==>
      t == if KindOf(areas, e.areaKey) == Some(Signals) then s else AddAt(s, e.areaKey, k.value, e.minutes)
    ensures TalliesMinutes(t, areas, es + [e], bs, bucket)
  {
    hide BucketStart, Column, KindOf;
    forall a | a in t && KindOf(areas, a) != Some(Signals)
      ensures t[a] == Column(es + [e], a, bs, bucket, MinutesWorth())
    {
      if k.Some? && a == e.areaKey {
        ColumnOfOneMore(es, e, a, bs, bucket, MinutesWorth(), k.value);
      } else {
        ColumnUnmoved(es, e, a, bs, bucket, MinutesWorth());
      }
    }
  }

  /** One entry: the counts of its area's bucket, and its minutes unless the area is a Signals one. */
  method Accumulate(areas: seq<Area>, bs: seq<int>, bucket: Bucket, e: Entry, counts: Series, minutes: Series,
                    ghost es: seq<Entry>)
    returns (counts': Series, minutes': Series)
    requires Distinct(bs)
    requires Tallies(counts, areas, es, bs, bucket, CountWorth()) && TalliesMinutes(minutes, areas, es, bs, bucket)
    ensures Tallies(counts', areas, es + [e], bs, bucket, CountWorth())
    ensures TalliesMinutes(minutes', areas, es + [e], bs, bucket)
  {
    hide BucketStart, KindOf;
    counts', minutes' := counts, minutes;
    var index := IndexOf(bs, BucketStart(e.at, bucket));
    if index.None? {
      SkippingTallies(counts, areas, es, e, bs, bucket, CountWorth());
      MinutesTallyOn(minutes, minutes', areas, es, e, bs, bucket, index);
      return;
    }
    counts' := AddAt(counts, e.areaKey, index.value, e.completions);
    AddingTallies(counts, areas, es, e, bs, bucket, CountWorth(), index.value);
    if KindOf(areas, e.areaKey) != Some(Signals) {
      minutes' := AddAt(minutes, e.areaKey, index.value, e.minutes);
    }
    MinutesTallyOn(minutes, minutes', areas, es, e, bs, bucket, index);
  }

  /** The loop over the materialised weeks. */
  method KpiFromWeeks(areas: seq<Area>, bs: seq<int>, bucket: Bucket, weeks: seq<Entry>)
    returns (counts: Series, minutes: Series)
    requires Distinct(bs)
    ensures Tallies(counts, areas, weeks, bs, bucket, CountWorth())
    ensures TalliesMinutes(minutes, areas, weeks, bs, bucket)
  {
    hide BucketStart, KindOf, Column;
    forall a ensures Column([], a, bs, bucket, CountWorth()) == seq(|bs|, _ => 0) {
      ColumnOfNothing(a, bs, bucket, CountWorth());
    }
    forall a ensures Column([], a, bs, bucket, MinutesWorth()) == seq(|bs|, _ => 0) {
      ColumnOfNothing(a, bs, bucket, MinutesWorth());
    }
    counts := Zeroes(areas, bs);
    minutes := Zeroes(areas, bs);
    for k := 0 to |weeks|
      invariant Tallies(counts, areas, weeks[..k], bs, bucket, CountWorth())
      invariant TalliesMinutes(minutes, areas, weeks[..k], bs, bucket)
    {
      counts, minutes := Accumulate(areas, bs, bucket, weeks[k], counts, minutes, weeks[..k]);
      assert weeks[..k + 1] == weeks[..k] + [weeks[k]];
    }
    assert weeks[..|weeks|] == weeks;
  }

  /** The loop over the mirrored completions. */
  method KpiFromMirror(areas: seq<Area>, bs: seq<int>, bucket: Bucket, completions: seq<Completion>,
                       from: int, to: int, defaultMinutes: int)
    returns (counts: Series, minutes: Series)
    requires Distinct(bs)
    ensures Tallies(counts, areas, Within(completions, from, to, defaultMinutes), bs, bucket, CountWorth())
    ensures TalliesMinutes(minutes, areas, Within(completions, from, to, defaultMinutes), bs, bucket)
  {
    hide BucketStart, KindOf, Column;
    forall a ensures Column([], a, bs, bucket, CountWorth()) == seq(|bs|, _ => 0) {
      ColumnOfNothing(a, bs, bucket, CountWorth());
    }
    forall a ensures Column([], a, bs, bucket, MinutesWorth()) == seq(|bs|, _ => 0) {
      ColumnOfNothing(a, bs, bucket, MinutesWorth());
    }
    counts := Zeroes(areas, bs);
    minutes := Zeroes(areas, bs);
    for k := 0 to |completions|
      invariant Tallies(counts, areas, Within(completions[..k], from, to, defaultMinutes), bs, bucket, CountWorth())
      invariant TalliesMinutes(minutes, areas, Within(completions[..k], from, to, defaultMinutes), bs, bucket)
    {
      var c := completions[k];
      assert completions[..k + 1][..k] == completions[..k];
      if from <= c.completedAt <= to {
        ghost var before := Within(completions[..k], from, to, defaultMinutes);
        counts, minutes := Accumulate(areas, bs, bucket, EntryOf(c, defaultMinutes), counts, minutes, before);
      }
    }
    assert completions[..|completions|] == completions;
  }

  // ---------------------------------------------------------------------------------------------------------
  // Conservation.

  lemma BucketsAreDistinct(bs: seq<int>, from: int, to: int, bucket: Bucket)
    requires BucketList(bs, from, to, bucket)
    ensures Distinct(bs)
  {
    hide BucketStart, NextCursor, IsStart;
    forall i, j | 0 <= i < j < |bs| ensures bs[i] != bs[j] {
      BucketsAscend(bs, from, to, bucket, i, j);
    }
  }

  /** Every mirrored completion in the range falls in a bucket of the list, so the columns add up to all of them. */
  lemma MirrorColumnsConserve(
      bs: seq<int>, from: int, to: int, bucket: Bucket, cs: seq<Completion>, defaultMinutes: int,
      area: Text, worth: Worth)
    requires BucketList(bs, from, to, bucket) && IsTime(from) && IsTime(to) && from <= to
    requires OrdinaryYears(from, to) && -MAX_TIME <= Start(from, bucket)
    ensures
      var es := Within(cs, from, to, defaultMinutes);
      Total(Column(es, area, bs, bucket, worth)) == InAll(es, area, worth)
  {
    hide BucketStart, NextCursor, IsStart, Start, OrdinaryYears, BucketList, TwoDigitYear, Column;
    var es := Within(cs, from, to, defaultMinutes);
    BucketsCoverExactly(bs, from, to, bucket);
    BucketsAreDistinct(bs, from, to, bucket);
    forall e <- es ensures BucketStart(e.at, bucket).At? && BucketStart(e.at, bucket).t in bs {
      assert Holds(bs, e.at, bucket);
    }
    BucketsConserve(es, area, bs, bucket, worth);
  }

  /** How many tasks of an area were completed in [from, to]. */
  function Completed(cs: seq<Completion>, area: Text, from: int, to: int): nat
  {
    if cs == [] then 0
    else
      var c := cs[|cs| - 1];
      Completed(cs[..|cs| - 1], area, from, to)
      + (if c.areaKey == area && from <= c.completedAt && c.completedAt <= to then 1 else 0)
  }

  /** The minutes recorded for them, and the default for each that has none recorded. */
  function MinutesSpent(cs: seq<Completion>, area: Text, from: int, to: int, defaultMinutes: int): int
  {
    if cs == [] then 0
    else
      var c := cs[|cs| - 1];
      var own := if c.recordedMinutes.Some? then c.recordedMinutes.value else defaultMinutes;
      MinutesSpent(cs[..|cs| - 1], area, from, to, defaultMinutes)
      + (if c.areaKey == area && from <= c.completedAt && c.completedAt <= to then own else 0)
  }

  /** The entries of the range are worth exactly those. */
  lemma {:induction false} EntriesAreCompletions(
      cs: seq<Completion>, from: int, to: int, defaultMinutes: int, area: Text)
    ensures InAll(Within(cs, from, to, defaultMinutes), area, CountWorth()) == Completed(cs, area, from, to)
    ensures InAll(Within(cs, from, to, defaultMinutes), area, MinutesWorth())
         == MinutesSpent(cs, area, from, to, defaultMinutes)
  {
    if cs != [] {
      var c, init := cs[|cs| - 1], cs[..|cs| - 1];
      EntriesAreCompletions(init, from, to, defaultMinutes, area);
      var rest := Within(init, from, to, defaultMinutes);
      assert (rest + [EntryOf(c, defaultMinutes)])[..|rest|] == rest;
    }
  }

  function Max(a: int, b: int): int { if a < b then b else a }
  function Min(a: int, b: int): int { if a < b then a else b }

  /** `bucketStart` puts into a bucket the instants of the range that lie in it, and no others. */
  ghost predicate TakesItsOwn(b: int, bucket: Bucket, from: int, to: int)
  {
    forall t :: from <= t <= to ==> (BucketStart(t, bucket) == At(b) <==> b <= t < End(b, bucket))
  }

  lemma OneMoreInBucket(es: seq<Entry>, e: Entry, area: Text, b: int, bucket: Bucket, worth: Worth)
    ensures InBucket(es + [e], area, b, bucket, worth) == InBucket(es, area, b, bucket, worth)
      + (if e.areaKey == area && BucketStart(e.at, bucket) == At(b) then worth(e) else 0)
  {
    hide BucketStart;
    assert (es + [e])[..|es|] == es;
  }

  /** And the entries of one bucket are the completions of its part of the range. */
  lemma {:induction false} BucketEntriesAreCompletions(
      cs: seq<Completion>, from: int, to: int, defaultMinutes: int, area: Text, b: int, bucket: Bucket)
    requires TakesItsOwn(b, bucket, from, to)
    ensures InBucket(Within(cs, from, to, defaultMinutes), area, b, bucket, CountWorth())
         == Completed(cs, area, Max(from, b), Min(to, End(b, bucket) - 1))
    ensures InBucket(Within(cs, from, to, defaultMinutes), area, b, bucket, MinutesWorth())
         == MinutesSpent(cs, area, Max(from, b), Min(to, End(b, bucket) - 1), defaultMinutes)
  {
    hide BucketStart, End, InBucket;
    if cs == [] {
      NothingInBucket(area, b, bucket);
    } else {
      var c, init := cs[|cs| - 1], cs[..|cs| - 1];
      BucketEntriesAreCompletions(init, from, to, defaultMinutes, area, b, bucket);
      var rest, e := Within(init, from, to, defaultMinutes), EntryOf(c, defaultMinutes);
      OneMoreInBucket(rest, e, area, b, bucket, CountWorth());
      OneMoreInBucket(rest, e, area, b, bucket, MinutesWorth());
    }
  }

  lemma NothingInBucket(area: Text, b: int, bucket: Bucket)
    ensures InBucket([], area, b, bucket, CountWorth()) == InBucket([], area, b, bucket, MinutesWorth()) == 0
  {
  }

  /** In ordinary years an instant of the range is put in a listed bucket exactly when it lies in it. */
  lemma BucketTakesItsOwn(bs: seq<int>, from: int, to: int, bucket: Bucket, i: nat, t: int)
    requires BucketList(bs, from, to, bucket) && IsTime(from) && IsTime(to) && from <= t <= to && i < |bs|
    requires OrdinaryYears(from, to) && -MAX_TIME <= Start(from, bucket)
    ensures BucketStart(t, bucket) == At(bs[i]) <==> bs[i] <= t < End(bs[i], bucket)
  {
    hide BucketStart, NextCursor, Start, End, OrdinaryYears, TwoDigitYear;
    BucketsCoverExactly(bs, from, to, bucket);
    assert Holds(bs, t, bucket);
    StartContains(t, bucket);
    IsStartMeans(bs[i], bucket);
    if bs[i] <= t < End(bs[i], bucket) { StartIsUnique(t, bs[i], bucket); }
  }

  lemma NothingTotals(area: Text, bs: seq<int>, bucket: Bucket)
    ensures Total(Column([], area, bs, bucket, MinutesWorth())) == 0
    ensures forall i: nat :: i < |bs| ==> Column([], area, bs, bucket, MinutesWorth())[i] == 0
  {
    hide BucketStart;
    TotalOfZeroes(Column([], area, bs, bucket, MinutesWorth()));
  }

  lemma MirrorBucketsAreCompletions(
      bs: seq<int>, from: int, to: int, bucket: Bucket, cs: seq<Completion>, defaultMinutes: int, area: Text, i: nat)
    requires BucketList(bs, from, to, bucket) && IsTime(from) && IsTime(to) && from <= to && i < |bs|
    requires OrdinaryYears(from, to) && -MAX_TIME <= Start(from, bucket)
    ensures
      var es := Within(cs, from, to, defaultMinutes);
      && Column(es, area, bs, bucket, CountWorth())[i]
         == Completed(cs, area, Max(from, bs[i]), Min(to, End(bs[i], bucket) - 1))
      && Column(es, area, bs, bucket, MinutesWorth())[i]
         == MinutesSpent(cs, area, Max(from, bs[i]), Min(to, End(bs[i], bucket) - 1), defaultMinutes)
  {
    hide BucketStart, NextCursor, Start, End, OrdinaryYears, BucketList, IsTime;
    hide InBucket, Completed, MinutesSpent, Column;
    forall t | from <= t <= to ensures BucketStart(t, bucket) == At(bs[i]) <==> bs[i] <= t < End(bs[i], bucket) {
      BucketTakesItsOwn(bs, from, to, bucket, i, t);
    }
    BucketEntriesAreCompletions(cs, from, to, defaultMinutes, area, bs[i], bucket);
  }

  /** The series of a KPI reading are those of an area's entries, its minutes those of nothing for a Signals one. */
  lemma SeriesOfArea(areas: seq<Area>, es: seq<Entry>, bs: seq<int>, bucket: Bucket,
                     counts: Series, minutes: Series, area: Text)
    requires Tallies(counts, areas, es, bs, bucket, CountWorth()) && TalliesMinutes(minutes, areas, es, bs, bucket)
    requires exists i :: 0 <= i < |areas| && areas[i].key == area
    ensures area in counts && counts[area] == Column(es, area, bs, bucket, CountWorth())
    ensures area in minutes && minutes[area]
      == Column(if KindOf(areas, area) == Some(Signals) then [] else es, area, bs, bucket, MinutesWorth())
  {
    hide Column, KindOf;
  }

  /**
   The series of a KPI reading from mirrored completions. In ordinary years each bucket of an area holds how many of
   its tasks were completed in the bucket's part of [from, to], and they add up to all that were completed in it;
   and the minutes likewise, but none for a Signals area.
  */
  lemma MirrorConserves(
      areas: seq<Area>, bs: seq<int>, from: int, to: int, bucket: Bucket, cs: seq<Completion>, defaultMinutes: int,
      counts: Series, minutes: Series, area: Text)
    requires BucketList(bs, from, to, bucket) && IsTime(from) && IsTime(to) && from <= to
    requires OrdinaryYears(from, to) && -MAX_TIME <= Start(from, bucket)
    requires Tallies(counts, areas, Within(cs, from, to, defaultMinutes), bs, bucket, CountWorth())
    requires TalliesMinutes(minutes, areas, Within(cs, from, to, defaultMinutes), bs, bucket)
    requires exists i :: 0 <= i < |areas| && areas[i].key == area
    ensures area in counts && |counts[area]| == |bs| && area in minutes && |minutes[area]| == |bs|
    ensures Total(counts[area]) == Completed(cs, area, from, to)
    ensures Total(minutes[area])
         == if KindOf(areas, area) == Some(Signals) then 0 else MinutesSpent(cs, area, from, to, defaultMinutes)
    ensures forall i: nat :: i < |bs| ==>
      counts[area][i] == Completed(cs, area, Max(from, bs[i]), Min(to, End(bs[i], bucket) - 1))
    ensures forall i: nat :: i < |bs| ==>
      minutes[area][i] == if KindOf(areas, area) == Some(Signals) then 0
        else MinutesSpent(cs, area, Max(from, bs[i]), Min(to, End(bs[i], bucket) - 1), defaultMinutes)
  {
    hide BucketStart, NextCursor, Start, End, OrdinaryYears, TwoDigitYear, BucketList, KindOf, InAll, Total, Within;
    hide Completed, MinutesSpent, Max, Min, IsTime, Column, InBucket, Tallies, TalliesMinutes, CountWorth, MinutesWorth;
    SeriesOfArea(areas, Within(cs, from, to, defaultMinutes), bs, bucket, counts, minutes, area);
    MirrorColumnsConserve(bs, from, to, bucket, cs, defaultMinutes, area, CountWorth());
    MirrorColumnsConserve(bs, from, to, bucket, cs, defaultMinutes, area, MinutesWorth());
    EntriesAreCompletions(cs, from, to, defaultMinutes, area);
    NothingTotals(area, bs, bucket);
    forall i: nat | i < |bs|
      ensures counts[area][i] == Completed(cs, area, Max(from, bs[i]), Min(to, End(bs[i], bucket) - 1))
      ensures KindOf(areas, area) != Some(Signals) ==>
        minutes[area][i]
        == MinutesSpent(cs, area, Max(from, bs[i]), Min(to, End(bs[i], bucket) - 1), defaultMinutes)
    {
      MirrorBucketsAreCompletions(bs, from, to, bucket, cs, defaultMinutes, area, i);
    }
  }

  /** The rows the weekly query returns: Mondays from the week of `from` through the week of `to`. */
  ghost predicate QueriedWeeks(weeks: seq<Entry>, from: int, to: int)
  {
    forall w <- weeks :: IsStart(w.at, Week) && Start(from, Week) <= w.at < Start(to, Week) + 7 * MS_PER_DAY
  }

  lemma QueriedWeekIsInside(w: Entry, from: int, to: int)
    requires IsStart(w.at, Week) && Start(from, Week) <= w.at < Start(to, Week) + 7 * MS_PER_DAY
    ensures w.at <= Start(to, Week) <= to
  {
    StartContains(to, Week);
    if w.at > Start(to, Week) {
      StartIsUnique(w.at, Start(to, Week), Week);
    }
  }

  /** From weekly rows into weekly buckets: no row is lost and none is counted twice. */
  lemma WeeksConserveByWeek(bs: seq<int>, from: int, to: int, weeks: seq<Entry>, area: Text, worth: Worth)
    requires BucketList(bs, from, to, Week) && IsTime(from) && IsTime(to) && from <= to
    requires OrdinaryYears(Start(from, Week), to) && -MAX_TIME <= Start(from, Week)
    requires QueriedWeeks(weeks, from, to)
    ensures Total(Column(weeks, area, bs, Week, worth)) == InAll(weeks, area, worth)
  {
    hide BucketStart, NextCursor, OrdinaryYears, BucketList, TwoDigitYear, Column, Start;
    StartContains(from, Week);
    WiderIsOrdinary(Start(from, Week), from, to);
    FirstBucket(bs, from, to, Week);
    BucketsAreDistinct(bs, from, to, Week);
    forall w <- weeks ensures BucketStart(w.at, Week).At? && BucketStart(w.at, Week).t in bs {
      QueriedWeekIsInside(w, from, to);
      OrdinaryInstant(Start(from, Week), to, w.at);
      BucketStartIsRightExactly(w.at, Week);
      WeekIsListed(bs, from, to, w.at, 0);
    }
    BucketsConserve(weeks, area, bs, Week, worth);
  }

  lemma WiderIsOrdinary(a: int, from: int, to: int)
    requires OrdinaryYears(a, to) && a <= from
    ensures OrdinaryYears(from, to)
  {
    hide YearOf;
    YearsFollowDays(Day(a), Day(from));
  }

  /** A start between the first bucket and `to` is itself in the list. */
  lemma {:induction false} WeekIsListed(bs: seq<int>, from: int, to: int, b: int, i: int)
    requires BucketList(bs, from, to, Week) && IsTime(from) && IsTime(to) && from <= to
    requires OrdinaryYears(from, to) && bs != [] && bs[0] == Start(from, Week)
    requires 0 <= i < |bs| && bs[i] <= b <= to && IsStart(b, Week)
    ensures b in bs
    decreases |bs| - i
  {
    hide BucketStart, NextCursor, IsStart, Start, End, OrdinaryYears;
    BucketsAreContiguous(bs, from, to, Week, i);
    if b < End(bs[i], Week) {
      StartIsUnique(b, bs[i], Week);
      assert IsStart(b, Week) ==> Start(b, Week) == b by { IsStartMeans(b, Week); }
    } else {
      WeekIsListed(bs, from, to, b, i + 1);
    }
  }

  lemma IsStartMeans(b: int, bucket: Bucket)
    ensures IsStart(b, bucket) <==> Start(b, bucket) == b
  {
  }

  /** The rows whose Monday is not before the first bucket. */
  function NotBefore(weeks: seq<Entry>, first: int): (r: seq<Entry>)
    ensures forall w :: w in r <==> w in weeks && first <= w.at
  {
    if weeks == [] then []
    else
      var rest := NotBefore(weeks[..|weeks| - 1], first);
      if first <= weeks[|weeks| - 1].at then rest + [weeks[|weeks| - 1]] else rest
  }

  /**
   From weekly rows into monthly buckets: exactly the rows whose Monday precedes the first bucket are dropped, and
   every other row is counted once, in the month its Monday lies in.
  */
  lemma WeeksConserveByMonth(bs: seq<int>, from: int, to: int, weeks: seq<Entry>, area: Text, worth: Worth)
    requires BucketList(bs, from, to, Month) && IsTime(from) && IsTime(to) && from <= to
    requires OrdinaryYears(Start(from, Week), to) && -MAX_TIME <= Start(from, Week)
    requires -MAX_TIME <= Start(from, Month)
    requires QueriedWeeks(weeks, from, to)
    ensures bs != [] && bs[0] == Start(from, Month)
    ensures Total(Column(weeks, area, bs, Month, worth)) == InAll(NotBefore(weeks, bs[0]), area, worth)
  {
    hide BucketStart, NextCursor, OrdinaryYears, BucketList, TwoDigitYear, Column, Start, IsStart;
    StartContains(from, Week);
    WiderIsOrdinary(Start(from, Week), from, to);
    FirstBucket(bs, from, to, Month);
    BucketsAreDistinct(bs, from, to, Month);
    var kept := NotBefore(weeks, bs[0]);
    forall w <- weeks
      ensures bs[0] <= w.at ==> BucketStart(w.at, Month).At? && BucketStart(w.at, Month).t in bs
      ensures w.at < bs[0] ==> forall b <- bs :: BucketStart(w.at, Month) != At(b)
    {
      MonthOfQueriedWeek(bs, from, to, weeks, w);
    }
    DroppedRowsMoveNothing(weeks, bs, area, worth);
    BucketsConserve(kept, area, bs, Month, worth);
  }

  lemma MonthOfQueriedWeek(bs: seq<int>, from: int, to: int, weeks: seq<Entry>, w: Entry)
    requires BucketList(bs, from, to, Month) && IsTime(from) && IsTime(to) && from <= to
    requires OrdinaryYears(Start(from, Week), to) && -MAX_TIME <= Start(from, Week)
    requires OrdinaryYears(from, to) && bs != [] && bs[0] == Start(from, Month)
    requires QueriedWeeks(weeks, from, to) && w in weeks
    ensures bs[0] <= w.at ==> BucketStart(w.at, Month).At? && BucketStart(w.at, Month).t in bs
    ensures w.at < bs[0] ==> forall b <- bs :: BucketStart(w.at, Month) != At(b)
  {
    hide BucketStart, NextCursor, OrdinaryYears, TwoDigitYear, Start, IsStart, End;
    QueriedWeekIsInside(w, from, to);
    OrdinaryInstant(Start(from, Week), to, w.at);
    BucketStartIsRightExactly(w.at, Month);
    StartContains(w.at, Month);
    if bs[0] <= w.at {
      MonthIsListed(bs, from, to, w.at, 0);
    } else {
      BucketStartIsStart(w.at, Month);
      forall b <- bs ensures BucketStart(w.at, Month) != At(b) {
        var i :| 0 <= i < |bs| && bs[i] == b;
        if i > 0 { BucketsAscend(bs, from, to, Month, 0, i); }
      }
    }
  }

  lemma {:induction false} MonthIsListed(bs: seq<int>, from: int, to: int, t: int, i: int)
    requires BucketList(bs, from, to, Month) && IsTime(from) && IsTime(to) && from <= to
    requires OrdinaryYears(from, to) && bs != [] && bs[0] == Start(from, Month)
    requires 0 <= i < |bs| && bs[i] <= t <= to
    ensures Start(t, Month) in bs && IsTime(Start(t, Month))
    decreases |bs| - i
  {
    hide BucketStart, NextCursor, IsStart, Start, End, OrdinaryYears;
    BucketsAreContiguous(bs, from, to, Month, i);
    if t < End(bs[i], Month) {
      StartIsUnique(t, bs[i], Month);
    } else {
      MonthIsListed(bs, from, to, t, i + 1);
    }
  }

  lemma {:induction false} DroppedRowsMoveNothing(weeks: seq<Entry>, bs: seq<int>, area: Text, worth: Worth)
    requires bs != []
    requires forall w <- weeks :: w.at < bs[0] ==> forall b <- bs :: BucketStart(w.at, Month) != At(b)
    ensures Column(weeks, area, bs, Month, worth) == Column(NotBefore(weeks, bs[0]), area, bs, Month, worth)
    decreases |weeks|
  {
    hide BucketStart, Column;
    if weeks != [] {
      var init, w := weeks[..|weeks| - 1], weeks[|weeks| - 1];
      assert weeks == init + [w];
      DroppedRowsMoveNothing(init, bs, area, worth);
      if w.at < bs[0] {
        ColumnUnmoved(init, w, area, bs, Month, worth);
      } else {
        SameColumnsStaySame(init, NotBefore(init, bs[0]), w, area, bs, worth);
      }
    }
  }

  lemma SameColumnsStaySame(es: seq<Entry>, fs: seq<Entry>, e: Entry, area: Text, bs: seq<int>, worth: Worth)
    requires Column(es, area, bs, Month, worth) == Column(fs, area, bs, Month, worth)
    ensures Column(es + [e], area, bs, Month, worth) == Column(fs + [e], area, bs, Month, worth)
  {
    hide BucketStart;
    assert (es + [e])[..|es|] == es && (fs + [e])[..|fs|] == fs;
    forall i | 0 <= i < |bs|
      ensures InBucket(es + [e], area, bs[i], Month, worth) == InBucket(fs + [e], area, bs[i], Month, worth)
    {
      assert Column(es, area, bs, Month, worth)[i] == Column(fs, area, bs, Month, worth)[i];
    }
  }
}
