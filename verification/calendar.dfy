/**
 * The proleptic Gregorian calendar as the JavaScript `Date` object computes it:
 * the leap-year rule, month lengths, day-of-year ordinals and their inverse,
 * the day-number arithmetic of `Date.UTC` (including roll-over of out-of-range
 * months and days), and the mapping of two-digit years to the 1900s that
 * `Date.UTC(y, …)` and `new Date(y, …)` apply.
 */
module Calendar {

  /** The Gregorian leap-year rule. The source tests `y % n === 0` with
      JavaScript's truncating `%`; `=== 0` holds exactly when `n` divides `y`,
      which is also what Dafny's Euclidean `%` tests. */
  predicate IsLeapYear(y: int)
  {
    (y % 4 == 0 && y % 100 != 0) || y % 400 == 0
  }

  function DaysInYear(y: int): (n: nat)
    ensures 365 <= n <= 366
  {
    if IsLeapYear(y) then 366 else 365
  }

  /** JavaScript's `%`: the remainder truncated toward zero, so its sign follows `a`. */
  function JsRemainder(a: int, n: int): (r: int)
    requires n > 0
    ensures -n < r < n
    ensures a >= 0 ==> r >= 0
    ensures a <= 0 ==> r <= 0
    ensures (a - r) % n == 0
  {
    if a >= 0 then
      RemainderLeavesMultiple(a, n);
      a % n
    else
      RemainderLeavesMultiple(-a, n);
      -((-a) % n)
  }

  /** Taking the remainder away, or adding it to the negation, leaves a
      multiple of `n`. */
  lemma RemainderLeavesMultiple(b: int, n: int)
    requires n > 0
    ensures (b - b % n) % n == 0
    ensures (-b + b % n) % n == 0
  {
    var q := b / n;
    assert b - b % n == n * q;
    MultipleHasNoRemainder(q, n);
    assert -b + b % n == n * -q;
    MultipleHasNoRemainder(-q, n);
  }

  lemma MultipleHasNoRemainder(k: int, n: int)
    requires n > 0
    ensures (n * k) % n == 0
  {
    var x := n * k;
    var d := k - x / n;
    assert x % n == n * d;
    assert d == 0;
  }

  /** The rule exactly as `isLeapYear` writes it, with truncating `%`, picks
      the same years as divisibility; a year has 366 days exactly when it is a
      leap year. */
  lemma LeapYearAsWritten(y: int)
    ensures IsLeapYear(y) <==>
              (JsRemainder(y, 4) == 0 && JsRemainder(y, 100) != 0) || JsRemainder(y, 400) == 0
    ensures DaysInYear(y) == 366 <==> IsLeapYear(y)
  {
    if y < 0 {
      NegationKeeps4(y);
      NegationKeeps100(y);
      NegationKeeps400(y);
    }
  }

  /** Whether 4, 100 or 400 divides a number does not depend on its sign. */
  lemma NegationKeeps4(a: int) ensures (-a) % 4 == 0 <==> a % 4 == 0 { }
  lemma NegationKeeps100(a: int) ensures (-a) % 100 == 0 <==> a % 100 == 0 { }
  lemma NegationKeeps400(a: int) ensures (-a) % 400 == 0 <==> a % 400 == 0 { }

  /** Remainders by 4, 100 and 400 repeat every 400. */
  lemma ShiftKeeps4(a: int) ensures (a + 400) % 4 == a % 4 { }
  lemma ShiftKeeps100(a: int) ensures (a + 400) % 100 == a % 100 { }
  lemma ShiftKeeps400(a: int) ensures (a + 400) % 400 == a % 400 { }

  lemma LeapYearExamples()
    ensures IsLeapYear(2000) && !IsLeapYear(1900) && IsLeapYear(2024) && !IsLeapYear(2023)
    ensures DaysInYear(2000) == 366 && DaysInYear(2001) == 365
  {
  }

  /** The rule repeats every 400 years. */
  lemma LeapYearPeriodic(y: int)
    ensures IsLeapYear(y + 400) == IsLeapYear(y)
    ensures DaysInYear(y + 400) == DaysInYear(y)
  {
    ShiftKeeps4(y);
    ShiftKeeps100(y);
    ShiftKeeps400(y);
  }

  /** The year `Date.UTC(y, …)` and `new Date(y, …)` actually use: 0..99 mean 1900..1999. */
  function EngineYear(y: int): int
  {
    if 0 <= y <= 99 then 1900 + y else y
  }

  /** Length of month `m` (0 = January, as `getMonth` counts). */
  function MonthLength(y: int, m: nat): (n: nat)
    requires m < 12
    ensures 28 <= n <= 31
  {
    if m == 1 then (if IsLeapYear(y) then 29 else 28)
    else if m == 3 || m == 5 || m == 8 || m == 10 then 30
    else 31
  }

  /** Days in the months before month `m` of year `y`. */
  function DaysBeforeMonth(y: int, m: nat): nat
    requires m <= 12
  {
    if m == 0 then 0 else DaysBeforeMonth(y, m - 1) + MonthLength(y, m - 1)
  }

  /** The twelve months make up the year. */
  lemma {:induction false} TwelveMonthsMakeAYear(y: int)
    ensures DaysBeforeMonth(y, 12) == DaysInYear(y)
  {
    var feb := MonthLength(y, 1);
    assert DaysBeforeMonth(y, 1) == 31;
    assert DaysBeforeMonth(y, 2) == 31 + feb;
    assert DaysBeforeMonth(y, 3) == 62 + feb;
    assert DaysBeforeMonth(y, 4) == 92 + feb;
    assert DaysBeforeMonth(y, 5) == 123 + feb;
    assert DaysBeforeMonth(y, 6) == 153 + feb;
    assert DaysBeforeMonth(y, 7) == 184 + feb;
    assert DaysBeforeMonth(y, 8) == 215 + feb;
    assert DaysBeforeMonth(y, 9) == 245 + feb;
    assert DaysBeforeMonth(y, 10) == 276 + feb;
    assert DaysBeforeMonth(y, 11) == 306 + feb;
  }

  lemma {:induction false} DaysBeforeMonthMonotone(y: int, m: nat, m': nat)
    requires m <= m' <= 12
    ensures DaysBeforeMonth(y, m) + 28 * (m' - m) <= DaysBeforeMonth(y, m')
  {
    if m < m' {
      DaysBeforeMonthMonotone(y, m, m' - 1);
    }
  }

  /** A calendar date: `month` 0-based as `getMonth`, `day` 1-based as `getDate`. */
  datatype Date = Date(year: int, month: nat, day: nat)

  predicate ValidDate(d: Date)
  {
    d.month < 12 && 1 <= d.day <= MonthLength(d.year, d.month)
  }

  /** 0-based ordinal of a valid date within its year. */
  function DayOfYear(d: Date): (k: nat)
    requires ValidDate(d)
    ensures k < DaysInYear(d.year)
  {
    TwelveMonthsMakeAYear(d.year);
    DaysBeforeMonthMonotone(d.year, d.month + 1, 12);
    DaysBeforeMonth(d.year, d.month) + d.day - 1
  }

  /** The date of 0-based ordinal `k` in year `y`, searching from month `m` on. */
  function DateInYearFrom(y: int, k: nat, m: nat): (d: Date)
    requires m < 12 && DaysBeforeMonth(y, m) <= k < DaysInYear(y)
    ensures ValidDate(d) && d.year == y && m <= d.month
    ensures DayOfYear(d) == k
    decreases 12 - m
  {
    if k < DaysBeforeMonth(y, m + 1) then Date(y, m, k - DaysBeforeMonth(y, m) + 1)
    else
      TwelveMonthsMakeAYear(y);
      DateInYearFrom(y, k, m + 1)
  }

  /** The date of 0-based ordinal `k` in year `y`. */
  function DateInYear(y: int, k: nat): (d: Date)
    requires k < DaysInYear(y)
    ensures ValidDate(d) && d.year == y && DayOfYear(d) == k
  {
    DateInYearFrom(y, k, 0)
  }

  /** Distinct valid dates of a year have distinct ordinals. */
  lemma DayOfYearInjective(d: Date, e: Date)
    requires ValidDate(d) && ValidDate(e) && d.year == e.year
    requires DayOfYear(d) == DayOfYear(e)
    ensures d == e
  {
    if d.month < e.month {
      DaysBeforeMonthMonotone(d.year, d.month + 1, e.month);
      assert false;
    } else if e.month < d.month {
      DaysBeforeMonthMonotone(d.year, e.month + 1, d.month);
      assert false;
    }
  }

  /** DateInYear inverts DayOfYear. */
  lemma DateInYearOfDayOfYear(d: Date)
    requires ValidDate(d)
    ensures DateInYear(d.year, DayOfYear(d)) == d
  {
    DayOfYearInjective(DateInYear(d.year, DayOfYear(d)), d);
  }

  /** The date `k` days after January 1 of year `y`, rolling over into later years. */
  function DateOfOffset(y: int, k: nat): (d: Date)
    ensures ValidDate(d) && d.year >= y
    ensures k < DaysInYear(y) ==> d == DateInYear(y, k)
    decreases k
  {
    if k < DaysInYear(y) then DateInYear(y, k) else DateOfOffset(y + 1, k - DaysInYear(y))
  }

  /** Days from January 1 of year `a` to January 1 of year `b` (negative when b < a). */
  function YearSpan(a: int, b: int): int
    decreases if a <= b then b - a else a - b
  {
    if a == b then 0
    else if a < b then YearSpan(a, b - 1) + DaysInYear(b - 1)
    else YearSpan(a, b + 1) - DaysInYear(b)
  }

  lemma {:induction false} YearSpanBounds(a: int, b: int)
    requires a <= b
    ensures 365 * (b - a) <= YearSpan(a, b) <= 366 * (b - a)
    ensures YearSpan(b, a) == -YearSpan(a, b)
    decreases b - a
  {
    if a < b {
      YearSpanBounds(a, b - 1);
      YearSpanBackward(b, a);
    }
  }

  lemma {:induction false} YearSpanBackward(a: int, b: int)
    requires b < a
    ensures YearSpan(a, b) == YearSpan(a - 1, b) - DaysInYear(a - 1)
    decreases a - b
  {
    if b + 1 < a {
      YearSpanBackward(a, b + 1);
    }
  }

  /** `(Date.UTC(y, m0, d) - Date.UTC(y, 0, 1)) / 86400000` for an engine year `y`:
      `Date.UTC` carries a month outside 0..11 into the year (`y + floor(m0 / 12)`,
      month `m0 mod 12`) and counts day `d` from the first of that month, so
      day 0 is the last day of the previous month and large days roll forward. */
  function DaysFromYearStart(y: int, m0: int, d: int): int
  {
    var ym := y + m0 / 12;
    YearSpan(y, ym) + DaysBeforeMonth(ym, m0 % 12) + d - 1
  }

  /** For fields that name a real date, that difference is the date's ordinal. */
  lemma DaysFromYearStartOfValidDate(d: Date)
    requires ValidDate(d)
    ensures DaysFromYearStart(d.year, d.month, d.day) == DayOfYear(d)
  {
    assert d.month / 12 == 0 && d.month % 12 == d.month;
  }

  const MsPerDay: nat := 86400000

  /** A UTC date and time of day in milliseconds, as the `getUTC…` accessors report it. */
  datatype UtcDateTime = UtcDateTime(date: Date, msOfDay: nat)

  /** What a successful engine parse (`Date.parse`, `new Date(str)`) yields. */
  type Instant = t: UtcDateTime | ValidDate(t.date) && t.msOfDay < MsPerDay
    witness UtcDateTime(Date(1970, 0, 1), 0)

  /** `year + (t - Date.UTC(year, 0, 1)) / 86400000 / daysInYear(year)` with
      `year = getUTCFullYear()`: the fractional year both parsers give an
      engine-parsed instant. `Date.UTC(year, 0, 1)` uses the engine year. */
  function EngineFractionalYear(t: Instant): real
  {
    var y := t.date.year;
    var days := YearSpan(EngineYear(y), y) + DayOfYear(t.date);
    y as real + (days as real + t.msOfDay as real / MsPerDay as real) / DaysInYear(y) as real
  }

  /** Outside years 0..99 the instant lands inside its own year. */
  lemma EngineFractionalYearInYear(t: Instant)
    requires t.date.year < 0 || 99 < t.date.year
    ensures t.date.year as real <= EngineFractionalYear(t) < t.date.year as real + 1.0
    ensures EngineFractionalYear(t).Floor == t.date.year
  {
    var y := t.date.year;
    var frac := (DayOfYear(t.date) as real + t.msOfDay as real / MsPerDay as real) / DaysInYear(y) as real;
    assert t.msOfDay as real / MsPerDay as real < 1.0;
    assert DayOfYear(t.date) as real + 1.0 <= DaysInYear(y) as real;
    assert 0.0 <= frac < 1.0;
  }

  /** In years 0..99 the year start is taken in the 1900s, so, as written, the
      result lies more than 1800 years before the instant's own year. */
  lemma EngineFractionalYearEarlyYears(t: Instant)
    requires 0 <= t.date.year <= 99
    ensures EngineFractionalYear(t) < t.date.year as real - 1800.0
  {
    var y := t.date.year;
    YearSpanBounds(y, 1900 + y);
    var days := YearSpan(1900 + y, y) + DayOfYear(t.date);
    assert days <= -693134;
    var frac := t.msOfDay as real / MsPerDay as real;
    assert frac < 1.0;
    QuotientBelow(days as real + frac, DaysInYear(y) as real);
  }

  lemma QuotientBelow(num: real, n: real)
    requires num < -693133.0 && 365.0 <= n <= 366.0
    ensures num / n < -1800.0
  {
    var q := num / n;
    assert q * n == num;
  }
}
