/**
 UTC time values and the calendar buckets of the KPI series. Times are milliseconds since 1970, days and years
 are those of section 21.4.1 of ECMA-262, and every division rounds down.
*/
module Calendar {

  const MS_PER_DAY := 86_400_000
  const MAX_TIME := 8_640_000_000_000_000

  /** A `Date`: a time value, or the invalid date. */
  datatype Date = Invalid | At(t: int)

  predicate IsTime(t: int) { -MAX_TIME <= t <= MAX_TIME }

  function TimeClip(t: int): Date { if IsTime(t) then At(t) else Invalid }

  function Day(t: int): int { t / MS_PER_DAY }

  // ---------------------------------------------------------------------------------------------------------
  // Years and months.

  function DayFromYear(y: int): int
  {
    365 * (y - 1970) + (y - 1969) / 4 - (y - 1901) / 100 + (y - 1601) / 400
  }

  predicate IsLeap(y: int) { y % 4 == 0 && (y % 100 != 0 || y % 400 == 0) }

  lemma YearLength(y: int)
    ensures DayFromYear(y + 1) == DayFromYear(y) + if IsLeap(y) then 366 else 365
  {
    assert (y - 1968) / 4 == (y - 1969) / 4 + if y % 4 == 0 then 1 else 0;
    assert (y - 1900) / 100 == (y - 1901) / 100 + if y % 100 == 0 then 1 else 0;
    assert (y - 1600) / 400 == (y - 1601) / 400 + if y % 400 == 0 then 1 else 0;
    assert y % 400 == 0 ==> y % 100 == 0;
    assert y % 100 == 0 ==> y % 4 == 0;
  }

  /** `getUTCFullYear` of a day: an estimate from the mean year, off by at most one. */
  function YearOf(day: int): int
  {
    var y := 1970 + day * 400 / 146_097;
    if DayFromYear(y) > day then y - 1
    else if DayFromYear(y + 1) <= day then y + 1
    else y
  }

  lemma YearContains(day: int)
    ensures DayFromYear(YearOf(day)) <= day < DayFromYear(YearOf(day) + 1)
  {
    var n := day * 400 / 146_097;
    var y := 1970 + n;
    assert 146_097 * n <= 400 * day < 146_097 * (n + 1);
    assert 4 * ((y - 1969) / 4) <= y - 1969 < 4 * ((y - 1969) / 4) + 4;
    YearLength(y - 1);
    YearLength(y);
    YearLength(y + 1);
  }

  lemma {:induction false} YearsAscend(y: int, z: int)
    requires y <= z
    ensures DayFromYear(y) + 365 * (z - y) <= DayFromYear(z)
    decreases z - y
  {
    if y < z {
      YearLength(z - 1);
      YearsAscend(y, z - 1);
    }
  }

  /** Days of a year before its month m, counted from 0. */
  function DaysBefore(m: int, leap: bool): int
    requires 0 <= m <= 12
  {
    var l := if leap then 1 else 0;
    if m == 0 then 0 else if m == 1 then 31
    else if m == 2 then 59 + l else if m == 3 then 90 + l else if m == 4 then 120 + l else if m == 5 then 151 + l
    else if m == 6 then 181 + l else if m == 7 then 212 + l else if m == 8 then 243 + l else if m == 9 then 273 + l
    else if m == 10 then 304 + l else if m == 11 then 334 + l else 365 + l
  }

  /** Thirty days have April, June, September and November; February has 28 or 29, and every other month 31. */
  lemma DaysOfMonth(m: int, leap: bool)
    requires 0 <= m < 12
    ensures DaysBefore(0, leap) == 0
    ensures DaysBefore(m + 1, leap) - DaysBefore(m, leap)
         == if m in {3, 5, 8, 10} then 30 else if m != 1 then 31 else if leap then 29 else 28
  {
  }

  /** The month of the d-th day of a year. */
  function MonthInYear(d: int, leap: bool): (m: int)
    requires 0 <= d < DaysBefore(12, leap)
    ensures 0 <= m < 12 && DaysBefore(m, leap) <= d < DaysBefore(m + 1, leap)
  {
    if d < DaysBefore(1, leap) then 0 else if d < DaysBefore(2, leap) then 1
    else if d < DaysBefore(3, leap) then 2 else if d < DaysBefore(4, leap) then 3
    else if d < DaysBefore(5, leap) then 4 else if d < DaysBefore(6, leap) then 5
    else if d < DaysBefore(7, leap) then 6 else if d < DaysBefore(8, leap) then 7
    else if d < DaysBefore(9, leap) then 8 else if d < DaysBefore(10, leap) then 9
    else if d < DaysBefore(11, leap) then 10 else 11
  }

  /** `getUTCMonth` of a day. */
  function MonthOf(day: int): (m: int)
    ensures 0 <= m < 12
    ensures
      var y := YearOf(day);
      DayFromYear(y) + DaysBefore(m, IsLeap(y)) <= day < DayFromYear(y) + DaysBefore(m + 1, IsLeap(y))
  {
    YearContains(day);
    YearLength(YearOf(day));
    MonthInYear(day - DayFromYear(YearOf(day)), IsLeap(YearOf(day)))
  }

  /** The first day of month n of all months, n being 12 x year + month: what MakeDay(year, month, 1) gives. */
  function MonthStart(n: int): int
  {
    DayFromYear(n / 12) + DaysBefore(n % 12, IsLeap(n / 12))
  }

  function MonthIndex(day: int): int { 12 * YearOf(day) + MonthOf(day) }

  lemma MonthLength(n: int)
    ensures MonthStart(n) + 28 <= MonthStart(n + 1) <= MonthStart(n) + 31
  {
    YearLength(n / 12);
    if n % 12 == 11 {
      assert (n + 1) / 12 == n / 12 + 1 && (n + 1) % 12 == 0;
    } else {
      assert (n + 1) / 12 == n / 12 && (n + 1) % 12 == n % 12 + 1;
    }
  }

  lemma {:induction false} MonthsAscend(n: int, k: int)
    requires n <= k
    ensures MonthStart(n) + (k - n) <= MonthStart(k)
    decreases k - n
  {
    if n < k {
      MonthLength(k - 1);
      MonthsAscend(n, k - 1);
    }
  }

  lemma MonthContains(day: int)
    ensures MonthStart(MonthIndex(day)) <= day < MonthStart(MonthIndex(day) + 1)
  {
    var y, m := YearOf(day), MonthOf(day);
    assert MonthIndex(day) / 12 == y && MonthIndex(day) % 12 == m;
    YearLength(y);
    if m == 11 {
      assert (MonthIndex(day) + 1) / 12 == y + 1 && (MonthIndex(day) + 1) % 12 == 0;
    } else {
      assert (MonthIndex(day) + 1) / 12 == y && (MonthIndex(day) + 1) % 12 == m + 1;
    }
  }

  /** A day lies in one month only. */
  lemma OneMonth(day: int, a: int, b: int)
    requires MonthStart(a) <= day < MonthStart(a + 1)
    requires MonthStart(b) <= day < MonthStart(b + 1)
    ensures a == b
  {
    hide MonthStart;
    if a < b {
      MonthsAscend(a + 1, b);
    } else if b < a {
      MonthsAscend(b + 1, a);
    }
  }

  lemma MonthIsUnique(day: int, n: int)
    requires MonthStart(n) <= day < MonthStart(n + 1)
    ensures MonthIndex(day) == n
  {
    hide MonthStart, MonthIndex;
    var k := MonthIndex(day);
    MonthContains(day);
    OneMonth(day, k, n);
  }

  lemma MonthStartsItself(n: int)
    ensures MonthIndex(MonthStart(n)) == n
  {
    MonthLength(n);
    MonthIsUnique(MonthStart(n), n);
  }

  lemma YearsFollowDays(a: int, b: int)
    requires a <= b
    ensures YearOf(a) <= YearOf(b)
  {
    YearContains(a);
    YearContains(b);
    if YearOf(b) < YearOf(a) { YearsAscend(YearOf(b) + 1, YearOf(a)); }
  }

  // ---------------------------------------------------------------------------------------------------------
  // Buckets, as the code finds them.

  datatype Bucket = Week | Month

  /** `Date.UTC` reads a year from 0 to 99 as one of the twentieth century. */
  function FullYear(y: int): int { if 0 <= y <= 99 then 1900 + y else y }

  /** `new Date(Date.UTC(year, month, date))`. */
  function DateUTC(year: int, month: int, date: int): Date
  {
    TimeClip((MonthStart(12 * FullYear(year) + month) + date - 1) * MS_PER_DAY)
  }

  function DateOf(day: int): int { day - MonthStart(MonthIndex(day)) + 1 }

  /** 0 is Sunday. */
  function WeekDay(day: int): int { (day + 4) % 7 }

  function StartOfWeek(t: int): Date
  {
    match DateUTC(YearOf(Day(t)), MonthOf(Day(t)), DateOf(Day(t)))
    case Invalid => Invalid
    case At(midnight) => TimeClip(midnight - (WeekDay(Day(midnight)) + 6) % 7 * MS_PER_DAY)
  }

  function StartOfMonth(t: int): Date { DateUTC(YearOf(Day(t)), MonthOf(Day(t)), 1) }

  function BucketStart(t: int, bucket: Bucket): Date
  {
    if bucket.Week? then StartOfWeek(t) else StartOfMonth(t)
  }

  /** The cursor's next position. */
  function NextCursor(cursor: int, bucket: Bucket): Date
  {
    if bucket.Week? then TimeClip(cursor + 7 * MS_PER_DAY)
    else DateUTC(YearOf(Day(cursor)), MonthOf(Day(cursor)) + 1, 1)
  }

  // ---------------------------------------------------------------------------------------------------------
  // Buckets, as the calendar has them.

  /** The last Monday midnight, or the last midnight on a first of a month, that is not after t. */
  function Start(t: int, bucket: Bucket): int
  {
    if bucket.Week? then (Day(t) - (Day(t) + 3) % 7) * MS_PER_DAY else MonthStart(MonthIndex(Day(t))) * MS_PER_DAY
  }

  function End(start: int, bucket: Bucket): int
  {
    if bucket.Week? then start + 7 * MS_PER_DAY else MonthStart(MonthIndex(Day(start)) + 1) * MS_PER_DAY
  }

  predicate IsStart(b: int, bucket: Bucket) { Start(b, bucket) == b }

  lemma DayOfMidnight(d: int)
    ensures Day(d * MS_PER_DAY) == d
  {
  }

  lemma DayBounds(t: int)
    ensures Day(t) * MS_PER_DAY <= t < (Day(t) + 1) * MS_PER_DAY
  {
  }

  lemma MonthMidnight(n: int)
    ensures Start(MonthStart(n) * MS_PER_DAY, Month) == MonthStart(n) * MS_PER_DAY
    ensures End(MonthStart(n) * MS_PER_DAY, Month) == MonthStart(n + 1) * MS_PER_DAY
  {
    hide MonthStart, MonthIndex;
    DayOfMidnight(MonthStart(n));
    MonthStartsItself(n);
  }

  /** Every instant lies in the bucket that starts at its start. */
  lemma StartContains(t: int, bucket: Bucket)
    ensures IsStart(Start(t, bucket), bucket)
    ensures Start(t, bucket) <= t < End(Start(t, bucket), bucket)
  {
    hide MonthStart, MonthIndex;
    DayBounds(t);
    if bucket.Week? {
      DayOfMidnight(Day(t) - (Day(t) + 3) % 7);
    } else {
      MonthContains(Day(t));
      MonthMidnight(MonthIndex(Day(t)));
    }
  }

  lemma WeekIsUnique(d: int, monday: int)
    requires (monday + 3) % 7 == 0 && monday <= d < monday + 7
    ensures d - (d + 3) % 7 == monday
  {
  }

  /** And in no other. */
  lemma StartIsUnique(t: int, b: int, bucket: Bucket)
    requires IsStart(b, bucket) && b <= t < End(b, bucket)
    ensures Start(t, bucket) == b
  {
    hide MonthStart, YearOf, MonthOf;
    DayBounds(t);
    DayBounds(b);
    if bucket.Week? {
      assert Day(b) * MS_PER_DAY == b && (Day(b) + 3) % 7 == 0;
      WeekIsUnique(Day(t), Day(b));
    } else {
      MonthOfBucket(t, MonthIndex(Day(b)));
    }
  }

  lemma MonthOfBucket(t: int, n: int)
    requires MonthStart(n) * MS_PER_DAY <= t < MonthStart(n + 1) * MS_PER_DAY
    ensures MonthIndex(Day(t)) == n
  {
    DayBounds(t);
    MonthIsUnique(Day(t), n);
  }

  /** The end of a bucket is the start of the next. */
  lemma EndIsStart(b: int, bucket: Bucket)
    requires IsStart(b, bucket)
    ensures IsStart(End(b, bucket), bucket) && End(b, bucket) >= b + 7 * MS_PER_DAY
  {
    if bucket.Week? {
      assert Day(b + 7 * MS_PER_DAY) == Day(b) + 7;
    } else {
      var n := MonthIndex(Day(b));
      MonthLength(n);
      MonthMidnight(n + 1);
    }
  }

  // ---------------------------------------------------------------------------------------------------------
  // When the code finds the calendar's bucket.

  predicate TwoDigitYear(t: int) { 0 <= YearOf(Day(t)) <= 99 }

  lemma CenturiesLater(n: int)
    requires 0 <= n / 12 <= 99
    ensures MonthStart(n + 12 * 1900) >= MonthStart(n) + 22_800
  {
    MonthsAscend(n, n + 12 * 1900);
  }

  /** The midnight `startOfWeek` and `startOfMonth` begin from: the right one, or one many years later. */
  lemma MidnightOf(t: int, date: int)
    ensures
      var day := Day(t);
      var found := MonthStart(12 * FullYear(YearOf(day)) + MonthOf(day)) + date - 1;
      if TwoDigitYear(t) then found >= MonthStart(MonthIndex(day)) + 22_800 + date - 1
      else found == MonthStart(MonthIndex(day)) + date - 1
  {
    hide MonthStart, YearOf;
    if TwoDigitYear(t) {
      CenturiesLater(MonthIndex(Day(t)));
    }
  }

  /** Stepping back from Sunday-based week days is stepping back to Monday. */
  lemma SameOffset(d: int)
    ensures (WeekDay(d) + 6) % 7 == (d + 3) % 7
  {
  }

  lemma StepsBackToMonday(d: int)
    ensures d * MS_PER_DAY - (WeekDay(Day(d * MS_PER_DAY)) + 6) % 7 * MS_PER_DAY == (d - (d + 3) % 7) * MS_PER_DAY
  {
    hide Day, WeekDay;
    DayOfMidnight(d);
    SameOffset(d);
  }

  lemma MidnightIsTime(t: int)
    requires IsTime(t)
    ensures IsTime(Day(t) * MS_PER_DAY)
  {
  }

  lemma MidnightOfToday(t: int)
    requires IsTime(t) && !TwoDigitYear(t)
    ensures DateUTC(YearOf(Day(t)), MonthOf(Day(t)), DateOf(Day(t))) == At(Day(t) * MS_PER_DAY)
  {
    hide MonthStart, YearOf, MonthOf, MonthIndex, Day, FullYear, TwoDigitYear;
    MidnightOf(t, DateOf(Day(t)));
    MidnightIsTime(t);
  }

  lemma WeekStartIsStart(t: int)
    requires IsTime(t) && !TwoDigitYear(t)
    ensures StartOfWeek(t) == TimeClip(Start(t, Week))
  {
    hide Day, WeekDay, DateUTC, DateOf, YearOf, MonthOf, TwoDigitYear;
    MidnightOfToday(t);
    StepsBackToMonday(Day(t));
  }

  /** Outside years 0 to 99, a bucket start is the calendar's, unless that is before time begins. */
  lemma BucketStartIsStart(t: int, bucket: Bucket)
    requires IsTime(t) && !TwoDigitYear(t)
    ensures BucketStart(t, bucket) == TimeClip(Start(t, bucket))
  {
    hide MonthStart, YearOf, MonthOf, StartOfWeek;
    if bucket.Week? {
      WeekStartIsStart(t);
    } else {
      MidnightOf(t, 1);
    }
  }

  /** Inside them it is an instant after t, whatever the bucket. */
  lemma BucketStartIsLate(t: int, bucket: Bucket)
    requires IsTime(t) && TwoDigitYear(t)
    ensures BucketStart(t, bucket).At? ==> BucketStart(t, bucket).t > t
  {
    hide MonthStart, YearOf, MonthOf;
    var day := Day(t);
    DayBounds(t);
    MonthContains(day);
    MonthLength(MonthIndex(day));
    MidnightOf(t, DateOf(day));
    MidnightOf(t, 1);
  }

  /** `bucketStart` finds the bucket of an instant exactly outside years 0 to 99 and the first days of time. */
  lemma BucketStartIsRightExactly(t: int, bucket: Bucket)
    requires IsTime(t)
    ensures BucketStart(t, bucket) == At(Start(t, bucket)) <==> !TwoDigitYear(t) && -MAX_TIME <= Start(t, bucket)
  {
    StartContains(t, bucket);
    if TwoDigitYear(t) {
      BucketStartIsLate(t, bucket);
    } else {
      BucketStartIsStart(t, bucket);
    }
  }

  /** The first time value lies in a week that starts before time does, and `bucketStart` does not find it. */
  lemma FirstTimeValueHasNoWeek()
    ensures IsTime(-MAX_TIME) && Start(-MAX_TIME, Week) < -MAX_TIME
    ensures BucketStart(-MAX_TIME, Week) != At(Start(-MAX_TIME, Week))
  {
    hide BucketStart, TwoDigitYear, YearOf;
    BucketStartIsRightExactly(-MAX_TIME, Week);
  }

  lemma YearOfItsFirstDay(y: int)
    ensures YearOf(DayFromYear(y)) == y
  {
    hide YearOf, DayFromYear;
    var day := DayFromYear(y);
    YearContains(day);
    if YearOf(day) < y {
      YearsAscend(YearOf(day) + 1, y);
    } else if y < YearOf(day) {
      YearsAscend(y, YearOf(day));
    }
  }

  /** And for the first instant of the year 0 neither the week nor the month found is the right one. */
  lemma YearZeroIsNotFound(bucket: Bucket)
    ensures
      var t := DayFromYear(0) * MS_PER_DAY;
      IsTime(t) && TwoDigitYear(t) && BucketStart(t, bucket) != At(Start(t, bucket))
  {
    hide BucketStart, Start, YearOf, Day;
    YearOfItsFirstDay(0);
    DayOfMidnight(DayFromYear(0));
    BucketStartIsRightExactly(DayFromYear(0) * MS_PER_DAY, bucket);
  }

  /** The cursor moves to the end of its bucket, and in any case forward. */
  lemma NextCursorIsEnd(b: int, bucket: Bucket)
    requires IsTime(b) && IsStart(b, bucket)
    ensures bucket.Week? || !TwoDigitYear(b) ==> NextCursor(b, bucket) == TimeClip(End(b, bucket))
    ensures NextCursor(b, bucket).At? ==> NextCursor(b, bucket).t >= b + 7 * MS_PER_DAY
    ensures NextCursor(b, bucket).At? ==> IsStart(NextCursor(b, bucket).t, bucket)
  {
    hide MonthStart, YearOf, MonthOf;
    EndIsStart(b, bucket);
    if bucket.Month? {
      var n := MonthIndex(Day(b));
      var m := 12 * FullYear(YearOf(Day(b))) + MonthOf(Day(b)) + 1;
      assert m >= n + 1;
      MonthLength(n);
      MonthsAscend(n + 1, m);
      MonthMidnight(m);
    }
  }
}
