/**
 * The part of Python's `datetime.date` that the calendar printer relies on:
 * the proleptic Gregorian calendar on years 1..9999, day ordinals counted from
 * 0001-01-01 = 1, the ISO weekday with Monday = 0, `replace` with its range
 * checks, and advancing by one day (`date + timedelta(days=1)`).
 */
module Gregorian {
  import opened Wrappers

  const MinYear := 1
  const MaxYear := 9999
  /** Ordinal of 9999-12-31, the last representable date. */
  const MaxOrdinal := 3652059

  datatype Date = Date(year: int, month: int, day: int)

  /** The exceptions `date` construction and arithmetic raise. */
  datatype DateError =
    | YearOutOfRange(year: int)     // ValueError: year out of range
    | MonthOutOfRange(month: int)   // ValueError: month must be in 1..12
    | DayOutOfRange(day: int)       // ValueError: day is out of range for month
    | DateOverflow                  // OverflowError: date value out of range

  predicate IsLeap(y: int) {
    y % 4 == 0 && (y % 100 != 0 || y % 400 == 0)
  }

  function DaysInYear(y: int): int {
    if IsLeap(y) then 366 else 365
  }

  function DaysInMonth(y: int, m: int): (n: int)
    requires 1 <= m <= 12
    ensures 28 <= n <= 31
  {
    if m == 2 then (if IsLeap(y) then 29 else 28)
    else if m == 4 || m == 6 || m == 9 || m == 11 then 30
    else 31
  }

  /** Days in the months of year `y` that precede month `m`, from the cumulative table. */
  function DaysBeforeMonth(y: int, m: int): int
    requires 1 <= m <= 12
  {
    [0, 31, 59, 90, 120, 151, 181, 212, 243, 273, 304, 334][m - 1]
      + (if m > 2 && IsLeap(y) then 1 else 0)
  }

  /** Days in the years 1 .. y-1. */
  function DaysBeforeYear(y: int): int {
    var p := y - 1;
    p * 365 + p / 4 - p / 100 + p / 400
  }

  ghost predicate ValidDate(d: Date) {
    MinYear <= d.year <= MaxYear && 1 <= d.month <= 12 && 1 <= d.day <= DaysInMonth(d.year, d.month)
  }

  /** Day number of `d`, with 0001-01-01 as day 1 (`date.toordinal()`). */
  function ToOrdinal(d: Date): int
    requires 1 <= d.month <= 12
  {
    DaysBeforeYear(d.year) + DaysBeforeMonth(d.year, d.month) + d.day
  }

  /** `date.weekday()`: Monday is 0 and Sunday is 6. */
  function Weekday(d: Date): (w: int)
    requires 1 <= d.month <= 12
    ensures 0 <= w < 7
  {
    (ToOrdinal(d) + 6) % 7
  }

  /** The `date(y, m, d)` constructor: checks the year, then the month, then the day. */
  function NewDate(y: int, m: int, d: int): (r: Result<Date, DateError>)
    ensures r.Success? <==> ValidDate(Date(y, m, d))
    ensures r.Success? ==> r.value == Date(y, m, d)
    ensures r == Failure(YearOutOfRange(y)) <==> !(MinYear <= y <= MaxYear)
    ensures r == Failure(MonthOutOfRange(m)) <==> MinYear <= y <= MaxYear && !(1 <= m <= 12)
    ensures r == Failure(DayOutOfRange(d)) <==>
              MinYear <= y <= MaxYear && 1 <= m <= 12 && !(1 <= d <= DaysInMonth(y, m))
    ensures r != Failure(DateOverflow)
  {
    if !(MinYear <= y <= MaxYear) then Failure(YearOutOfRange(y))
    else if !(1 <= m <= 12) then Failure(MonthOutOfRange(m))
    else if !(1 <= d <= DaysInMonth(y, m)) then Failure(DayOutOfRange(d))
    else Success(Date(y, m, d))
  }

  /** `d.replace(year=..., month=..., day=...)`: a new date from the given fields, the rest kept. */
  function Replace(d: Date, year: Option<int>, month: Option<int>, day: Option<int>): (r: Result<Date, DateError>)
    ensures r.Success? <==> ValidDate(Date(year.GetOr(d.year), month.GetOr(d.month), day.GetOr(d.day)))
    ensures r.Success? ==> r.value == Date(year.GetOr(d.year), month.GetOr(d.month), day.GetOr(d.day))
  {
    NewDate(year.GetOr(d.year), month.GetOr(d.month), day.GetOr(d.day))
  }

  /** `d + timedelta(days=1)`, which raises OverflowError past 9999-12-31. */
  function NextDay(d: Date): (r: Result<Date, DateError>)
    requires ValidDate(d)
    ensures r.Success? ==> ValidDate(r.value)
    ensures r.Failure? <==> d == Date(MaxYear, 12, 31)
    ensures r.Failure? ==> r.error == DateOverflow
  {
    if d.day < DaysInMonth(d.year, d.month) then Success(Date(d.year, d.month, d.day + 1))
    else if d.month < 12 then Success(Date(d.year, d.month + 1, 1))
    else if d.year < MaxYear then Success(Date(d.year + 1, 1, 1))
    else Failure(DateOverflow)
  }

  // ---------------------------------------------------------------------------
  // Lemmas about the calendar arithmetic
  // ---------------------------------------------------------------------------

  /** One more year adds one to y/k exactly when k divides y. */
  lemma DivStep(y: int, k: int)
    requires k == 4 || k == 100 || k == 400
    ensures y / k - (y - 1) / k == if y % k == 0 then 1 else 0
  {
    var q, r := (y - 1) / k, (y - 1) % k;
    assert y - 1 == k * q + r && 0 <= r < k;
    if r + 1 < k {
      assert y == k * q + (r + 1);
      DivUnique(y, k, q, r + 1);
    } else {
      assert y == k * (q + 1) + 0;
      DivUnique(y, k, q + 1, 0);
    }
  }

  lemma DivUnique(y: int, k: int, q: int, r: int)
    requires k == 4 || k == 100 || k == 400
    requires y == k * q + r && 0 <= r < k
    ensures y / k == q && y % k == r
  {
  }

  /** DaysBeforeYear counts exactly the days of the years it passes. */
  lemma DaysBeforeYearStep(y: int)
    ensures DaysBeforeYear(y + 1) == DaysBeforeYear(y) + DaysInYear(y)
  {
    DivStep(y, 4);
    DivStep(y, 100);
    DivStep(y, 400);
    DivisorChain(y);
    var a, b, c := y / 4 - (y - 1) / 4, y / 100 - (y - 1) / 100, y / 400 - (y - 1) / 400;
    assert DaysBeforeYear(y + 1) - DaysBeforeYear(y) == 365 + a - b + c;
  }

  /** Multiples of 400 are multiples of 100, and those are multiples of 4. */
  lemma DivisorChain(y: int)
    ensures y % 400 == 0 ==> y % 100 == 0
    ensures y % 100 == 0 ==> y % 4 == 0
  {
    if y % 400 == 0 {
      DivUnique(y, 100, 4 * (y / 400), 0);
    }
    if y % 100 == 0 {
      DivUnique(y, 4, 25 * (y / 100), 0);
    }
  }

  lemma {:induction false} DaysBeforeYearMonotone(a: int, b: int)
    requires a <= b
    ensures DaysBeforeYear(a) <= DaysBeforeYear(b)
    ensures a < b ==> DaysBeforeYear(a) + DaysInYear(a) <= DaysBeforeYear(b)
    decreases b - a
  {
    if a < b {
      DaysBeforeYearStep(a);
      DaysBeforeYearMonotone(a + 1, b);
    }
  }

  /** The cumulative month table agrees with DaysInMonth. */
  lemma DaysBeforeMonthStep(y: int, m: int)
    requires 1 <= m < 12
    ensures DaysBeforeMonth(y, m + 1) == DaysBeforeMonth(y, m) + DaysInMonth(y, m)
  {
  }

  lemma DaysBeforeMonthDecember(y: int)
    ensures DaysBeforeMonth(y, 12) + DaysInMonth(y, 12) == DaysInYear(y)
  {
  }

  lemma {:induction false} DaysBeforeMonthMonotone(y: int, a: int, b: int)
    requires 1 <= a < b <= 12
    ensures DaysBeforeMonth(y, a) + DaysInMonth(y, a) <= DaysBeforeMonth(y, b)
    decreases b - a
  {
    DaysBeforeMonthStep(y, a);
    if a + 1 < b {
      DaysBeforeMonthMonotone(y, a + 1, b);
    }
  }

  /** A valid date's ordinal lies within its year's span of ordinals. */
  lemma OrdinalInYear(d: Date)
    requires ValidDate(d)
    ensures DaysBeforeYear(d.year) < ToOrdinal(d) <= DaysBeforeYear(d.year) + DaysInYear(d.year)
  {
    if d.month < 12 {
      DaysBeforeMonthMonotone(d.year, d.month, 12);
    }
    DaysBeforeMonthDecember(d.year);
  }

  /** Every valid date has an ordinal in 1 .. MaxOrdinal. */
  lemma OrdinalRange(d: Date)
    requires ValidDate(d)
    ensures 1 <= ToOrdinal(d) <= MaxOrdinal
  {
    OrdinalInYear(d);
    DaysBeforeYearMonotone(MinYear, d.year);
    DaysBeforeYearMonotone(d.year, MaxYear);
    DaysBeforeYearStep(MaxYear);
  }

  /** Two valid dates with the same ordinal are the same date. */
  lemma OrdinalInjective(a: Date, b: Date)
    requires ValidDate(a) && ValidDate(b)
    requires ToOrdinal(a) == ToOrdinal(b)
    ensures a == b
  {
    OrdinalInYear(a);
    OrdinalInYear(b);
    if a.year < b.year {
      DaysBeforeYearMonotone(a.year, b.year);
      assert false;
    } else if b.year < a.year {
      DaysBeforeYearMonotone(b.year, a.year);
      assert false;
    }
    if a.month < b.month {
      DaysBeforeMonthMonotone(a.year, a.month, b.month);
      assert false;
    } else if b.month < a.month {
      DaysBeforeMonthMonotone(a.year, b.month, a.month);
      assert false;
    }
  }

  /** NextDay advances the ordinal by exactly one. */
  lemma NextDayOrdinal(d: Date)
    requires ValidDate(d)
    ensures NextDay(d).Success? ==> ToOrdinal(NextDay(d).value) == ToOrdinal(d) + 1
  {
    if d.day == DaysInMonth(d.year, d.month) {
      if d.month < 12 {
        DaysBeforeMonthStep(d.year, d.month);
      } else {
        DaysBeforeMonthDecember(d.year);
        DaysBeforeYearStep(d.year);
      }
    }
  }

  /**
   * NextDay yields exactly the date whose ordinal is one more, which is how
   * `date + timedelta(days=1)` is defined; it fails exactly when that ordinal
   * would exceed the last representable one.
   */
  lemma NextDayIsSuccessor(d: Date, e: Date)
    requires ValidDate(d) && ValidDate(e)
    ensures NextDay(d) == Success(e) <==> ToOrdinal(e) == ToOrdinal(d) + 1
    ensures NextDay(d).Failure? <==> ToOrdinal(d) == MaxOrdinal
  {
    NextDayOrdinal(d);
    OrdinalRange(e);
    if ToOrdinal(e) == ToOrdinal(d) + 1 {
      if NextDay(d).Success? {
        OrdinalInjective(NextDay(d).value, e);
      }
    }
    if NextDay(d).Success? {
      OrdinalRange(NextDay(d).value);
    } else {
      assert ToOrdinal(d) == MaxOrdinal;
    }
    if ToOrdinal(d) == MaxOrdinal {
      OrdinalInjective(d, Date(MaxYear, 12, 31));
    }
  }

  /** Adding `b` after reducing mod 7 gives the same residue as adding it before. */
  lemma ModShift(a: int, b: int)
    ensures ((a % 7) + b) % 7 == (a + b) % 7
  {
    var q := a / 7;
    assert a == 7 * q + a % 7;
    var x := a % 7 + b;
    assert x == 7 * (x / 7) + x % 7 && 0 <= x % 7 < 7;
    assert a + b == 7 * (q + x / 7) + x % 7;
  }

  /** The weekday moves on by one, Sunday wrapping round to Monday. */
  lemma NextDayWeekday(d: Date)
    requires ValidDate(d) && NextDay(d).Success?
    ensures Weekday(NextDay(d).value) == (Weekday(d) + 1) % 7
  {
    NextDayOrdinal(d);
    var o := ToOrdinal(d);
    assert ToOrdinal(NextDay(d).value) + 6 == (o + 6) + 1;
    ModShift(o + 6, 1);
  }

  /** Within a month the weekday of day k is that of day 1 shifted by k - 1. */
  lemma WeekdayInMonth(y: int, m: int, k: int)
    requires 1 <= m <= 12
    ensures Weekday(Date(y, m, k)) == (Weekday(Date(y, m, 1)) + k - 1) % 7
  {
    var o := ToOrdinal(Date(y, m, 1));
    assert ToOrdinal(Date(y, m, k)) + 6 == (o + 6) + (k - 1);
    ModShift(o + 6, k - 1);
  }

  /** 0001-01-01 .. 0001-01-07 fall on Monday .. Sunday. */
  lemma FirstWeekOfYearOne(i: int)
    requires 1 <= i <= 7
    ensures Weekday(Date(1, 1, i)) == i - 1
  {
  }
}
