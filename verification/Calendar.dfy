/**
 Seconds since 1970 from packed timestamps of seventeen decimal digits (year, month, day, hour, minute, second,
 milliseconds), and the offset between two of them.
 */
module Calendar {
  import opened Modular

  datatype Time = Time(y: nat, m: nat, d: nat, hour: nat, minute: nat, second: nat)

  predicate IsLeapYear(year: nat) {
    (year % 4 == 0 && year % 100 != 0) || year % 400 == 0
  }

  const DAYS_PER_MONTH: seq<nat> := [31, 28, 31, 30, 31, 30, 31, 31, 30, 31, 30, 31]
  const DAYS_PER_MONTH_LEAP: seq<nat> := [31, 29, 31, 30, 31, 30, 31, 31, 30, 31, 30, 31]

  function DaysInMonth(year: nat, month: nat): nat
    requires 1 <= month <= 12
  {
    if IsLeapYear(year) then DAYS_PER_MONTH_LEAP[month - 1] else DAYS_PER_MONTH[month - 1]
  }

  function DaysInYear(year: nat): nat {
    if IsLeapYear(year) then 366 else 365
  }

  /** A date and time of the calendar from 1970 on. */
  predicate IsTime(t: Time) {
    && 1970 <= t.y <= 9999 && 1 <= t.m <= 12 && 1 <= t.d <= DaysInMonth(t.y, t.m)
    && t.hour < 24 && t.minute < 60 && t.second < 60
  }

  // ---- counting days -------------------------------------------------------------------

  /** The days of the years before. */
  function YearDays(year: nat): nat {
    if year <= 1970 then 0 else YearDays(year - 1) + DaysInYear(year - 1)
  }

  /** The days of the months before, in this year. */
  function MonthDays(year: nat, month: nat): nat
    requires month <= 13
  {
    if month <= 1 then 0 else MonthDays(year, month - 1) + DaysInMonth(year, month - 1)
  }

  /** The number of a day, the first of January 1970 being 0. */
  function DayNumber(t: Time): nat
    requires 1 <= t.m <= 12 && 1 <= t.d
  {
    YearDays(t.y) + MonthDays(t.y, t.m) + (t.d - 1)
  }

  function Seconds(t: Time): nat
    requires 1 <= t.m <= 12 && 1 <= t.d
  {
    DayNumber(t) * 86400 + t.hour * 3600 + t.minute * 60 + t.second
  }

  /** The number of a day by formula, without tables and years to count: years begin in March, so that the leap day
      is the last, and months of 31 and 30 days alternate as 153 days in five. */
  function CivilDay(t: Time): int {
    var y := if t.m >= 3 then t.y else t.y - 1;
    var m := if t.m >= 3 then t.m - 3 else t.m + 9;
    365 * y + y / 4 - y / 100 + y / 400 + (153 * m + 2) / 5 + (t.d - 1) - 719468
  }

  function CivilSeconds(t: Time): int {
    CivilDay(t) * 86400 + t.hour * 3600 + t.minute * 60 + t.second
  }

  /** The leap days up to a year. */
  function LeapDays(year: nat): int {
    year / 4 - year / 100 + year / 400
  }

  lemma LeapDaysStep(year: nat)
    requires year > 0
    ensures LeapDays(year) == LeapDays(year - 1) + if IsLeapYear(year) then 1 else 0
  {
    QuotientStep(year, 4);
    QuotientStep(year, 100);
    QuotientStep(year, 400);
    DivisorsOfYear(year);
  }

  lemma QuotientStep(n: nat, d: nat)
    requires n > 0 && d > 0
    ensures n / d == (n - 1) / d + if n % d == 0 then 1 else 0
  {
    var q, r := n / d, n % d;
    if r > 0 {
      DivModUnique(n - 1, d, q, r - 1);
    } else {
      assert n - 1 == (q - 1) * d + (d - 1);
      DivModUnique(n - 1, d, q - 1, d - 1);
    }
  }

  lemma DivisorsOfYear(n: nat)
    ensures n % 100 == 0 ==> n % 4 == 0
    ensures n % 400 == 0 ==> n % 100 == 0
  {
    if n % 100 == 0 {
      DivModUnique(n, 4, 25 * (n / 100), 0);
    }
    if n % 400 == 0 {
      DivModUnique(n, 100, 4 * (n / 400), 0);
    }
  }

  lemma {:induction false} YearDaysAre(year: nat)
    requires year >= 1970
    ensures YearDays(year) == 365 * (year - 1970) + LeapDays(year - 1) - LeapDays(1969)
    decreases year
  {
    if year > 1970 {
      YearDaysAre(year - 1);
      LeapDaysStep(year - 1);
    }
  }

  lemma FirstMonths(year: nat)
    ensures MonthDays(year, 1) == 0 && MonthDays(year, 2) == 31
    ensures MonthDays(year, 3) == 59 + if IsLeapYear(year) then 1 else 0
  {
    assert MonthDays(year, 2) == MonthDays(year, 1) + 31;
  }

  lemma OddMonthDays(year: nat, month: nat)
    requires 3 <= month <= 11 && month % 2 == 1
    ensures MonthDays(year, month) == (153 * (month - 3) + 2) / 5 + 59 + if IsLeapYear(year) then 1 else 0
  {
    hide MonthDays;
    FirstMonths(year);
    TwoMonths(year, 3);
    TwoMonths(year, 5);
    TwoMonths(year, 7);
    TwoMonths(year, 9);
  }

  lemma MonthDaysAre(year: nat, month: nat)
    requires 1 <= month <= 12
    ensures MonthDays(year, month) ==
            if month < 3 then (153 * (month + 9) + 2) / 5 - 306
            else (153 * (month - 3) + 2) / 5 + 59 + if IsLeapYear(year) then 1 else 0
  {
    FirstMonths(year);
    if month >= 3 {
      var odd := if month % 2 == 0 then month - 1 else month;
      OddMonthDays(year, odd);
      EvenMonthDays(year, odd, month);
    }
  }

  lemma EvenMonthDays(year: nat, odd: nat, month: nat)
    requires 3 <= odd <= month <= odd + 1 <= 12 && odd % 2 == 1
    ensures MonthDays(year, month) == MonthDays(year, odd) + if month == odd then 0 else DaysInMonth(year, odd)
  {
  }

  /** The days counted by the loops are those of the formula, for every date from 1970 on. */
  lemma DayNumberIsCivil(t: Time)
    requires t.y >= 1970 && 1 <= t.m <= 12 && 1 <= t.d
    ensures DayNumber(t) == CivilDay(t)
  {
    CivilDayIs(t);
    assert LeapDays(1969) == 477;
    hide YearDays, MonthDays, IsLeapYear, LeapDays, CivilDay;
    YearDaysAre(t.y);
    MonthDaysAre(t.y, t.m);
    LeapDaysStep(t.y);
  }

  lemma CivilDayIs(t: Time)
    requires t.y >= 1970
    ensures CivilDay(t) ==
            if t.m >= 3 then 365 * t.y + LeapDays(t.y) + (153 * (t.m - 3) + 2) / 5 + (t.d - 1) - 719468
            else 365 * (t.y - 1) + LeapDays(t.y - 1) + (153 * (t.m + 9) + 2) / 5 + (t.d - 1) - 719468
  {
  }

  /** `dateToSeconds`. */
  method DateToSeconds(t: Time) returns (seconds: nat)
    requires 1 <= t.m <= 12 && 1 <= t.d
    ensures seconds == Seconds(t)
    ensures t.y >= 1970 ==> seconds == CivilSeconds(t)
  {
    if t.y >= 1970 {
      DayNumberIsCivil(t);
    }
    hide CivilDay;
    var days := t.d - 1;
    var year := 1970;
    while year < t.y
      invariant 1970 <= year && (year <= t.y || year == 1970)
      invariant days == t.d - 1 + YearDays(year)
      decreases t.y - year
    {
      days := days + if IsLeapYear(year) then 366 else 365;
      year := year + 1;
    }
    for month := 1 to t.m
      invariant days == t.d - 1 + YearDays(t.y) + MonthDays(t.y, month)
    {
      days := days + if IsLeapYear(t.y) then DAYS_PER_MONTH_LEAP[month - 1] else DAYS_PER_MONTH[month - 1];
    }
    seconds := days * 86400 + t.hour * 3600 + t.minute * 60 + t.second;
  }

  /** The date after: the next day, or the first of the next month, or of the next year. */
  function NextDay(t: Time): Time
    requires IsTime(t)
  {
    if t.d < DaysInMonth(t.y, t.m) then t.(d := t.d + 1)
    else if t.m < 12 then t.(m := t.m + 1, d := 1)
    else t.(y := t.y + 1, m := 1, d := 1)
  }

  lemma TwoMonths(year: nat, month: nat)
    requires 1 <= month <= 11
    ensures MonthDays(year, month + 2) ==
            MonthDays(year, month) + DaysInMonth(year, month) + DaysInMonth(year, month + 1)
  {
    assert MonthDays(year, month + 2) == MonthDays(year, month + 1) + DaysInMonth(year, month + 1);
  }

  /** The months of a year are its days. */
  lemma MonthsAreYear(year: nat)
    ensures MonthDays(year, 13) == DaysInYear(year)
  {
    TwoMonths(year, 1);
    TwoMonths(year, 3);
    TwoMonths(year, 5);
    TwoMonths(year, 7);
    TwoMonths(year, 9);
    TwoMonths(year, 11);
    assert MonthDays(year, 1) == 0;
  }

  /** Consecutive days have consecutive numbers, over every end of a month and year. */
  lemma DaysFollow(t: Time)
    requires IsTime(t)
    ensures 1 <= NextDay(t).m <= 12 && NextDay(t).d >= 1 && DayNumber(NextDay(t)) == DayNumber(t) + 1
    ensures Seconds(NextDay(t)) == Seconds(t) + 86400
  {
    if t.d == DaysInMonth(t.y, t.m) && t.m == 12 {
      MonthsAreYear(t.y);
    }
  }

  lemma {:induction false} MonthDaysBound(year: nat, month: nat, later: nat)
    requires 1 <= month < later <= 13
    ensures MonthDays(year, month) + DaysInMonth(year, month) <= MonthDays(year, later)
    decreases later - month
  {
    if later > month + 1 {
      MonthDaysBound(year, month, later - 1);
    }
  }

  lemma {:induction false} YearDaysBound(year: nat, later: nat)
    requires 1970 <= year < later
    ensures YearDays(year) + DaysInYear(year) <= YearDays(later)
    decreases later
  {
    if later > year + 1 {
      YearDaysBound(year, later - 1);
    }
  }

  // ---- packed timestamps ---------------------------------------------------------------

  /** The digits of a timestamp: year, month, day, hour, minute, second. */
  function Extract(ts: nat): Time {
    var s := ts / 1000;
    Time(s / 10000000000 % 10000, s / 100000000 % 100, s / 1000000 % 100, s / 10000 % 100, s / 100 % 100, s % 100)
  }

  function Pack(t: Time): nat {
    ((((t.y * 100 + t.m) * 100 + t.d) * 100 + t.hour) * 100 + t.minute) * 100 + t.second
  }

  predicate IsTimestamp(ts: nat) {
    ts < 1_0000_00_00_00_00_00_000 && IsTime(Extract(ts))
  }

  /** No timestamp fits 32 bits. */
  lemma TimestampIsLong(ts: nat)
    requires IsTimestamp(ts)
    ensures ts >= 0x1_0000_0000
  {
    assert Extract(ts).y <= ts / 1000 / 10000000000;
  }

  /** Dates compare as their packed numbers do. */
  predicate Earlier(a: Time, b: Time) {
    a.y < b.y || (a.y == b.y && (a.m < b.m || (a.m == b.m && (a.d < b.d || (a.d == b.d && (
      a.hour < b.hour || (a.hour == b.hour && (
        a.minute < b.minute || (a.minute == b.minute && a.second < b.second)))))))))
  }

  lemma DayOfYearBound(t: Time)
    requires IsTime(t)
    ensures MonthDays(t.y, t.m) + (t.d - 1) < DaysInYear(t.y)
  {
    if t.m < 12 {
      MonthDaysBound(t.y, t.m, 13);
    }
    MonthsAreYear(t.y);
  }

  lemma DaysOrdered(a: Time, b: Time)
    requires IsTime(a) && IsTime(b)
    requires a.y < b.y || (a.y == b.y && (a.m < b.m || (a.m == b.m && a.d < b.d)))
    ensures DayNumber(a) < DayNumber(b)
  {
    if a.y < b.y {
      DayOfYearBound(a);
      YearDaysBound(a.y, b.y);
    } else if a.m < b.m {
      MonthDaysBound(a.y, a.m, b.m);
    }
  }

  /** Later dates have more seconds. */
  lemma SecondsOrdered(a: Time, b: Time)
    requires IsTime(a) && IsTime(b) && Earlier(a, b)
    ensures Seconds(a) < Seconds(b)
  {
    if a.y == b.y && a.m == b.m && a.d == b.d {
      assert DayNumber(a) == DayNumber(b);
    } else {
      DaysOrdered(a, b);
    }
  }

  lemma DigitPairs(n: nat)
    ensures n == (n / 100) * 100 + n % 100
  {
  }

  /** Extracting loses nothing but the milliseconds. */
  lemma PackExtract(ts: nat)
    requires ts < 1_0000_00_00_00_00_00_000
    ensures Pack(Extract(ts)) == ts / 1000
  {
    var s := ts / 1000;
    DigitPairs(s);
    DigitPairs(s / 100);
    DigitPairs(s / 10000);
    DigitPairs(s / 1000000);
    DigitPairs(s / 100000000);
    assert s / 100 / 100 == s / 10000 && s / 10000 / 100 == s / 1000000;
    assert s / 1000000 / 100 == s / 100000000 && s / 100000000 / 100 == s / 10000000000;
    assert s / 10000000000 % 10000 == s / 10000000000;
  }

  lemma PackOrdered(a: Time, b: Time)
    requires a.m < 100 && a.d < 100 && a.hour < 100 && a.minute < 100 && a.second < 100
    requires b.m < 100 && b.d < 100 && b.hour < 100 && b.minute < 100 && b.second < 100
    ensures Pack(a) < Pack(b) ==> Earlier(a, b)
    ensures Pack(a) == Pack(b) ==> a == b
  {
    var a2, b2 := a.y * 100 + a.m, b.y * 100 + b.m;
    var a3, b3 := a2 * 100 + a.d, b2 * 100 + b.d;
    var a4, b4 := a3 * 100 + a.hour, b3 * 100 + b.hour;
    var a5, b5 := a4 * 100 + a.minute, b4 * 100 + b.minute;
    PairOrdered(a.y, a.m, b.y, b.m);
    PairOrdered(a2, a.d, b2, b.d);
    PairOrdered(a3, a.hour, b3, b.hour);
    PairOrdered(a4, a.minute, b4, b.minute);
    PairOrdered(a5, a.second, b5, b.second);
  }

  lemma PairOrdered(p: nat, x: nat, q: nat, y: nat)
    requires x < 100 && y < 100
    ensures p * 100 + x < q * 100 + y <==> p < q || (p == q && x < y)
    ensures p * 100 + x == q * 100 + y <==> p == q && x == y
  {
  }

  /** Timestamps in order are seconds in order; timestamps in different seconds strictly. */
  lemma TimestampsOrdered(ts1: nat, ts2: nat)
    requires IsTimestamp(ts1) && IsTimestamp(ts2) && ts1 <= ts2
    ensures Seconds(Extract(ts1)) <= Seconds(Extract(ts2))
    ensures ts1 / 1000 < ts2 / 1000 ==> Seconds(Extract(ts1)) < Seconds(Extract(ts2))
  {
    var a, b := Extract(ts1), Extract(ts2);
    PackExtract(ts1);
    PackExtract(ts2);
    hide Extract, Seconds, Pack;
    PackOrdered(a, b);
    if ts1 / 1000 < ts2 / 1000 {
      SecondsOrdered(a, b);
    }
  }

  const WORD: nat := 0x1_0000_0000_0000_0000

  /** `cal_offset_sec`, with the 64-bit subtraction. */
  method CalOffsetSec(ts1: nat, ts2: nat) returns (offset: nat)
    requires HasDate(ts1) && HasDate(ts2)
    ensures offset == Offset(ts1, ts2)
    ensures IsTimestamp(ts1) && IsTimestamp(ts2) && ts1 <= ts2 ==>
              offset == CivilSeconds(Extract(ts2)) - CivilSeconds(Extract(ts1))
  {
    if IsTimestamp(ts1) && IsTimestamp(ts2) && ts1 <= ts2 {
      OffsetIsDifference(ts1, ts2);
      DayNumberIsCivil(Extract(ts1));
      DayNumberIsCivil(Extract(ts2));
    }
    hide IsTimestamp, Extract, CivilDay, DayNumber;
    var t1, t2 := Extract(ts1), Extract(ts2);
    var sec1 := DateToSeconds(t1);
    var sec2 := DateToSeconds(t2);
    offset := (sec2 - sec1) % WORD;
  }

  /** The month can be looked up and the day is not zero. */
  predicate HasDate(ts: nat) {
    1 <= Extract(ts).m <= 12 && 1 <= Extract(ts).d
  }

  function Offset(ts1: nat, ts2: nat): nat
    requires HasDate(ts1) && HasDate(ts2)
  {
    (Seconds(Extract(ts2)) - Seconds(Extract(ts1))) % WORD
  }

  lemma {:induction false} YearsFit(year: nat)
    requires year <= 10000
    ensures YearDays(year) <= 366 * 10000
    decreases year
  {
    YearsUpTo(year);
  }

  lemma {:induction false} YearsUpTo(year: nat)
    ensures YearDays(year) <= 366 * year
    decreases year
  {
    if year > 1970 {
      YearsUpTo(year - 1);
    }
  }

  lemma SecondsFit(t: Time)
    requires IsTime(t)
    ensures Seconds(t) < 0x100_0000_0000
  {
    YearsFit(t.y);
    DayOfYearBound(t);
  }

  /** For ordered timestamps the subtraction never wraps, and offsets add up. */
  lemma OffsetsAdd(a: nat, b: nat, c: nat)
    requires IsTimestamp(a) && IsTimestamp(b) && IsTimestamp(c) && a <= b <= c
    ensures Offset(a, b) == Seconds(Extract(b)) - Seconds(Extract(a))
    ensures Offset(a, b) + Offset(b, c) == Offset(a, c)
  {
    TimestampsOrdered(a, b);
    TimestampsOrdered(b, c);
    OffsetIsDifference(a, b);
    OffsetIsDifference(b, c);
    OffsetIsDifference(a, c);
    hide Offset, Seconds, Extract;
  }

  lemma OffsetIsDifference(a: nat, b: nat)
    requires IsTimestamp(a) && IsTimestamp(b) && a <= b
    ensures Offset(a, b) == Seconds(Extract(b)) - Seconds(Extract(a))
  {
    assert IsTime(Extract(a)) && IsTime(Extract(b));
    hide Extract, Seconds, IsTime, IsTimestamp;
    TimestampsOrdered(a, b);
    SecondsFit(Extract(b));
    NoWrap(Seconds(Extract(a)), Seconds(Extract(b)));
  }

  lemma OffsetIsSmall(a: nat, b: nat)
    requires IsTimestamp(a) && IsTimestamp(b) && a <= b
    ensures HasDate(a) && HasDate(b) && Offset(a, b) < 0x100_0000_0000
  {
    OffsetIsDifference(a, b);
    hide Extract, Seconds, Offset;
    SecondsFit(Extract(b));
  }

  lemma NoWrap(x: nat, y: nat)
    requires x <= y < WORD
    ensures (y - x) % WORD == y - x
  {
  }
}
