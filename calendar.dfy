/** Calendar dates written `YYYY-MM-DD`, as `strptime(s, "%Y-%m-%d")`
    accepts them in the zero-padded form, and the day of the week. */
module Calendar {

  predicate IsDigit(c: char) {
    '0' <= c <= '9'
  }

  function DigitValue(c: char): (n: nat)
    requires IsDigit(c)
    ensures n <= 9
  {
    c as int - '0' as int
  }

  /** Four digits, a dash, two digits, a dash, two digits. */
  predicate IsoShape(s: string) {
    && |s| == 10
    && s[4] == '-' && s[7] == '-'
    && IsDigit(s[0]) && IsDigit(s[1]) && IsDigit(s[2]) && IsDigit(s[3])
    && IsDigit(s[5]) && IsDigit(s[6]) && IsDigit(s[8]) && IsDigit(s[9])
  }

  function YearOf(s: string): nat
    requires IsoShape(s)
  {
    1000 * DigitValue(s[0]) + 100 * DigitValue(s[1]) + 10 * DigitValue(s[2]) + DigitValue(s[3])
  }

  function MonthOf(s: string): nat
    requires IsoShape(s)
  {
    10 * DigitValue(s[5]) + DigitValue(s[6])
  }

  function DayOf(s: string): nat
    requires IsoShape(s)
  {
    10 * DigitValue(s[8]) + DigitValue(s[9])
  }

  /** The Gregorian leap-year rule (Python's proleptic calendar). */
  predicate IsLeapYear(y: int) {
    y % 4 == 0 && (y % 100 != 0 || y % 400 == 0)
  }

  function DaysInMonth(y: int, m: int): (n: nat)
    requires 1 <= m <= 12
    ensures 28 <= n <= 31
  {
    if m == 2 then (if IsLeapYear(y) then 29 else 28)
    else if m == 4 || m == 6 || m == 9 || m == 11 then 30
    else 31
  }

  /** The date is one `datetime` can hold: year 1 to 9999, a real month and
      a day that exists in that month. */
  predicate ValidDate(s: string) {
    && IsoShape(s)
    && 1 <= YearOf(s)
    && 1 <= MonthOf(s) <= 12
    && 1 <= DayOf(s) <= DaysInMonth(YearOf(s), MonthOf(s))
  }

  /** Sakamoto's month offsets. */
  const MonthOffsets: seq<nat> := [0, 3, 2, 5, 0, 3, 5, 1, 4, 6, 2, 4]

  /** The sum Sakamoto's method reduces modulo 7: January and February
      count as months of the year before. */
  function SakamotoSum(y: nat, m: nat, d: nat): nat
    requires 1 <= y && 1 <= m <= 12
  {
    var y' := if m < 3 then y - 1 else y;
    y' + y' / 4 - y' / 100 + y' / 400 + MonthOffsets[m - 1] + d
  }

  /** Day of the week, 0 = Sunday .. 6 = Saturday (Sakamoto's method). */
  function Weekday(y: nat, m: nat, d: nat): (w: nat)
    requires 1 <= y && 1 <= m <= 12
    ensures w < 7
  {
    SakamotoSum(y, m, d) % 7
  }

  function DaysInYear(y: int): nat {
    if IsLeapYear(y) then 366 else 365
  }

  /** The days of the years before `y`. */
  function DaysBeforeYear(y: nat): nat
    requires 1 <= y
  {
    if y == 1 then 0 else DaysBeforeYear(y - 1) + DaysInYear(y - 1)
  }

  /** The days of the months before `m` in year `y`. */
  function DaysBeforeMonth(y: nat, m: nat): nat
    requires 1 <= m <= 12
  {
    if m == 1 then 0 else DaysBeforeMonth(y, m - 1) + DaysInMonth(y, m - 1)
  }

  /** The day's number counted from 0001-01-01, which is day 1 and a
      Monday in the proleptic Gregorian calendar. */
  function DayNumber(y: nat, m: nat, d: nat): nat
    requires 1 <= y && 1 <= m <= 12
  {
    DaysBeforeYear(y) + DaysBeforeMonth(y, m) + d
  }

  /** The leap years among 1 .. n. */
  function LeapsUpTo(n: nat): nat {
    n / 4 - n / 100 + n / 400
  }

  /** Going from n - 1 to n, the multiples of k up to n grow by one
      exactly when n is one. */
  lemma MultiplesStep(n: nat, k: nat)
    requires 1 <= n && (k == 4 || k == 100 || k == 400)
    ensures n / k == (n - 1) / k + (if n % k == 0 then 1 else 0)
  {
    var q, r := (n - 1) / k, (n - 1) % k;
    assert n - 1 == k * q + r && 0 <= r < k;
    if r + 1 < k {
      assert n == k * q + (r + 1);
    } else {
      assert n == k * (q + 1) + 0;
    }
  }

  /** A multiple of 400 is one of 100, and a multiple of 100 one of 4. */
  lemma MultiplesNested(n: nat)
    ensures n % 400 == 0 ==> n % 100 == 0
    ensures n % 100 == 0 ==> n % 4 == 0
  {
    if n % 400 == 0 {
      assert n == 100 * (4 * (n / 400));
    }
    if n % 100 == 0 {
      assert n == 4 * (25 * (n / 100));
    }
  }

  lemma LeapsStep(n: nat)
    requires 1 <= n
    ensures LeapsUpTo(n) == LeapsUpTo(n - 1) + (if IsLeapYear(n) then 1 else 0)
  {
    MultiplesNested(n);
    MultiplesStep(n, 4);
    MultiplesStep(n, 100);
    MultiplesStep(n, 400);
  }

  lemma {:induction false} DaysBeforeYearCount(y: nat)
    requires 1 <= y
    ensures DaysBeforeYear(y) == 365 * (y - 1) + LeapsUpTo(y - 1)
  {
    if y > 1 {
      DaysBeforeYearCount(y - 1);
      LeapsStep(y - 1);
    }
  }

  /** The days before each month of a common year. */
  const CommonDaysBefore: seq<nat> := [0, 31, 59, 90, 120, 151, 181, 212, 243, 273, 304, 334]

  lemma {:induction false} DaysBeforeMonthCount(y: nat, m: nat)
    requires 1 <= m <= 12
    ensures DaysBeforeMonth(y, m) == CommonDaysBefore[m - 1] + (if m >= 3 && IsLeapYear(y) then 1 else 0)
  {
    if m > 1 {
      DaysBeforeMonthCount(y, m - 1);
    }
  }

  /** How many weeks each month's offset lags the days before it in a
      common year, counting March onwards from the leap day's place. */
  const MonthWeeks: seq<nat> := [0, 4, 8, 12, 17, 21, 25, 30, 34, 38, 43, 47]

  lemma ModWeeks(a: int, k: int)
    ensures (a + 7 * k) % 7 == a % 7
  {
  }

  /** The day number and Sakamoto's sum differ by whole weeks. */
  lemma DayNumberWeeks(y: nat, m: nat, d: nat)
    requires 1 <= y && 1 <= m <= 12
    ensures DayNumber(y, m, d) == SakamotoSum(y, m, d) + 7 * (52 * (y - 1) + MonthWeeks[m - 1])
  {
    DaysBeforeYearCount(y);
    DaysBeforeMonthCount(y, m);
    assert CommonDaysBefore[m - 1] == MonthOffsets[m - 1] + (if m >= 3 then 1 else 0) + 7 * MonthWeeks[m - 1];
    if m >= 3 {
      LeapsStep(y);
    }
  }

  /** Sakamoto's formula agrees with counting days from 0001-01-01. */
  lemma WeekdayIsDayCount(y: nat, m: nat, d: nat)
    requires 1 <= y && 1 <= m <= 12
    ensures Weekday(y, m, d) == DayNumber(y, m, d) % 7
  {
    DayNumberWeeks(y, m, d);
    ModWeeks(SakamotoSum(y, m, d), 52 * (y - 1) + MonthWeeks[m - 1]);
  }
}
