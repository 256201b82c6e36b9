/** The parts of Python's `datetime.date` and `datetime.time` the program
    relies on: proleptic Gregorian validity, ordering, `toordinal()` and
    `weekday()` (Monday = 0). */
module Calendar {

  datatype Date = Date(year: int, month: int, day: int)

  datatype Time = Time(hour: int, minute: int, second: int)

  const MinYear := 1
  const MaxYear := 9999

  predicate IsLeapYear(y: int) {
    y % 4 == 0 && (y % 100 != 0 || y % 400 == 0)
  }

  function DaysInMonth(y: int, m: int): (n: int)
    requires 1 <= m <= 12
    ensures 28 <= n <= 31
  {
    if m == 2 then (if IsLeapYear(y) then 29 else 28)
    else if m == 4 || m == 6 || m == 9 || m == 11 then 30
    else 31
  }

  function DaysInYear(y: int): int {
    if IsLeapYear(y) then 366 else 365
  }

  /** What the `date` constructor accepts; anything else is a `ValueError`. */
  predicate ValidDate(d: Date) {
    MinYear <= d.year <= MaxYear && 1 <= d.month <= 12 && 1 <= d.day <= DaysInMonth(d.year, d.month)
  }

  /** What the `time` (and `datetime`) constructor accepts. */
  predicate ValidTime(t: Time) {
    0 <= t.hour <= 23 && 0 <= t.minute <= 59 && 0 <= t.second <= 59
  }

  /** Python's comparison of dates: by year, then month, then day. */
  predicate Before(a: Date, b: Date) {
    a.year < b.year
    || (a.year == b.year && a.month < b.month)
    || (a.year == b.year && a.month == b.month && a.day < b.day)
  }

  /** `a <= b` on dates. */
  predicate NotAfter(a: Date, b: Date) {
    Before(a, b) || a == b
  }

  /** Days in the years before `y` (`_days_before_year`). */
  function DaysBeforeYear(y: int): int
    requires y >= 1
  {
    var p := y - 1;
    p * 365 + p / 4 - p / 100 + p / 400
  }

  /** Days in a common year before each month (index 1 is January). */
  const DaysBeforeMonthTable: seq<int> := [0, 0, 31, 59, 90, 120, 151, 181, 212, 243, 273, 304, 334]

  /** Days in the months of year `y` before month `m` (`_days_before_month`). */
  function DaysBeforeMonth(y: int, m: int): (n: int)
    requires 1 <= m <= 12
    ensures 0 <= n <= 335
  {
    DaysBeforeMonthTable[m] + (if m > 2 && IsLeapYear(y) then 1 else 0)
  }

  /** `date.toordinal()`: 0001-01-01 is day 1. */
  function Ordinal(d: Date): int
    requires ValidDate(d)
  {
    DaysBeforeYear(d.year) + DaysBeforeMonth(d.year, d.month) + d.day
  }

  /** `date.weekday()`: Monday is 0 and Sunday is 6. */
  function Weekday(d: Date): (w: int)
    requires ValidDate(d)
    ensures 0 <= w <= 6
  {
    (Ordinal(d) + 6) % 7
  }

  /** The calendar day after `d`. */
  function NextDay(d: Date): (e: Date)
    requires ValidDate(d) && d != Date(MaxYear, 12, 31)
    ensures ValidDate(e) && Before(d, e)
  {
    if d.day < DaysInMonth(d.year, d.month) then Date(d.year, d.month, d.day + 1)
    else if d.month < 12 then Date(d.year, d.month + 1, 1)
    else Date(d.year + 1, 1, 1)
  }

  /** Each month adds its own length to the count of the days before it. */
  lemma DaysBeforeMonthStep(y: int, m: int)
    requires 1 <= m <= 12
    ensures m < 12 ==> DaysBeforeMonth(y, m + 1) == DaysBeforeMonth(y, m) + DaysInMonth(y, m)
    ensures m == 12 ==> DaysBeforeMonth(y, m) + DaysInMonth(y, m) == DaysInYear(y)
  {
  }

  lemma DivStep4(y: int)
    ensures y / 4 == (y - 1) / 4 + (if y % 4 == 0 then 1 else 0)
  {
    var q, r := (y - 1) / 4, (y - 1) % 4;
    assert y == 4 * q + r + 1;
    if r == 3 {
      assert y == 4 * (q + 1) + 0;
    } else {
      assert y == 4 * q + (r + 1);
    }
  }

  lemma DivStep100(y: int)
    ensures y / 100 == (y - 1) / 100 + (if y % 100 == 0 then 1 else 0)
  {
    var q, r := (y - 1) / 100, (y - 1) % 100;
    assert y == 100 * q + r + 1;
    if r == 99 {
      assert y == 100 * (q + 1) + 0;
    } else {
      assert y == 100 * q + (r + 1);
    }
  }

  lemma DivStep400(y: int)
    ensures y / 400 == (y - 1) / 400 + (if y % 400 == 0 then 1 else 0)
  {
    var q, r := (y - 1) / 400, (y - 1) % 400;
    assert y == 400 * q + r + 1;
    if r == 399 {
      assert y == 400 * (q + 1) + 0;
    } else {
      assert y == 400 * q + (r + 1);
    }
  }

  lemma LeapDivisibility(y: int)
    ensures y % 400 == 0 ==> y % 100 == 0
    ensures y % 100 == 0 ==> y % 4 == 0
  {
    if y % 400 == 0 {
      var k := 4 * (y / 400);
      assert y == 100 * k;
    }
    if y % 100 == 0 {
      var k := 25 * (y / 100);
      assert y == 4 * k;
    }
  }

  /** A year adds exactly its own length to the day count. */
  lemma DaysBeforeNextYear(y: int)
    requires y >= 1
    ensures DaysBeforeYear(y + 1) == DaysBeforeYear(y) + DaysInYear(y)
  {
    DivStep4(y);
    DivStep100(y);
    DivStep400(y);
    LeapDivisibility(y);
  }

  /** The ordinal of the next day is one more: the day count has no gaps. */
  lemma OrdinalNextDay(d: Date)
    requires ValidDate(d) && d != Date(MaxYear, 12, 31)
    ensures Ordinal(NextDay(d)) == Ordinal(d) + 1
  {
    DaysBeforeMonthStep(d.year, d.month);
    if d.day == DaysInMonth(d.year, d.month) && d.month == 12 {
      DaysBeforeNextYear(d.year);
    }
  }

  /** Monday follows Sunday and every weekday follows the previous one. */
  lemma WeekdayNextDay(d: Date)
    requires ValidDate(d) && d != Date(MaxYear, 12, 31)
    ensures Weekday(NextDay(d)) == (Weekday(d) + 1) % 7
  {
    OrdinalNextDay(d);
    SevenStep(Ordinal(d) + 6);
  }

  lemma SevenStep(x: int)
    ensures (x + 1) % 7 == (x % 7 + 1) % 7
  {
    var q := x / 7;
    var r := x % 7;
    assert x == 7 * q + r;
    if r == 6 {
      assert x + 1 == 7 * (q + 1);
    } else {
      assert x + 1 == 7 * q + (r + 1);
    }
  }

  /** 0001-01-01 is ordinal day 1 and a Monday. */
  lemma FirstDayIsMonday()
    ensures Ordinal(Date(1, 1, 1)) == 1 && Weekday(Date(1, 1, 1)) == 0
  {
    var d := Date(1, 1, 1);
    assert DaysBeforeYear(1) == 0;
    assert DaysBeforeMonth(1, 1) == 0;
    WeekdayOfOrdinal(d, 0);
  }

  /** The weekday depends only on the ordinal modulo seven. */
  lemma WeekdayOfOrdinal(d: Date, w: int)
    requires ValidDate(d) && 0 <= w <= 6 && (Ordinal(d) - 1) % 7 == w
    ensures Weekday(d) == w
  {
    var o := Ordinal(d) - 1;
    var q := o / 7;
    assert o == 7 * q + w;
    assert Ordinal(d) + 6 == 7 * (q + 1) + w;
  }

  lemma DaysBeforeMonthGrows(y: int, m1: int, m2: int)
    requires 1 <= m1 < m2 <= 12
    ensures DaysBeforeMonth(y, m1) + DaysInMonth(y, m1) <= DaysBeforeMonth(y, m2)
    decreases m2 - m1
  {
    DaysBeforeMonthStep(y, m1);
    if m1 + 1 < m2 {
      DaysBeforeMonthGrows(y, m1 + 1, m2);
    }
  }

  lemma DaysBeforeYearGrows(y1: int, y2: int)
    requires 1 <= y1 < y2
    ensures DaysBeforeYear(y1) + DaysInYear(y1) <= DaysBeforeYear(y2)
    decreases y2 - y1
  {
    DaysBeforeNextYear(y1);
    if y1 + 1 < y2 {
      DaysBeforeYearGrows(y1 + 1, y2);
    }
  }

  /** Every day of a year lies inside that year's block of ordinals. */
  lemma OrdinalWithinYear(d: Date)
    requires ValidDate(d)
    ensures DaysBeforeYear(d.year) < Ordinal(d) <= DaysBeforeYear(d.year) + DaysInYear(d.year)
  {
    if d.month < 12 {
      DaysBeforeMonthGrows(d.year, d.month, 12);
    }
    DaysBeforeMonthStep(d.year, 12);
  }

  /** `toordinal` is strictly increasing in date order. */
  lemma OrdinalMonotone(a: Date, b: Date)
    requires ValidDate(a) && ValidDate(b) && Before(a, b)
    ensures Ordinal(a) < Ordinal(b)
  {
    if a.year < b.year {
      OrdinalWithinYear(a);
      OrdinalWithinYear(b);
      DaysBeforeYearGrows(a.year, b.year);
    } else if a.month < b.month {
      DaysBeforeMonthGrows(a.year, a.month, b.month);
    }
  }

  /** Comparing dates is the same as comparing their ordinals. */
  lemma BeforeIffOrdinal(a: Date, b: Date)
    requires ValidDate(a) && ValidDate(b)
    ensures Before(a, b) <==> Ordinal(a) < Ordinal(b)
    ensures a == b <==> Ordinal(a) == Ordinal(b)
  {
    if Before(a, b) {
      OrdinalMonotone(a, b);
    } else if Before(b, a) {
      OrdinalMonotone(b, a);
    }
  }
}
