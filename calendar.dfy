/**
 * Dates of the proleptic Gregorian calendar, as chrono's `NaiveDate` holds
 * them, with the date arithmetic and the date text the program uses: the
 * day before a date (`pred_opt`), day counts (`signed_duration_since`,
 * `- Duration::days(n)`), chrono's `%Y-%m-%d` and `%Y-%m` and SQLite's
 * `strftime`.
 */
module Calendar {
  import opened Wrappers
  import opened Text

  datatype Date = Date(year: int, month: nat, day: nat)

  predicate IsLeapYear(y: int)
  {
    y % 4 == 0 && (y % 100 != 0 || y % 400 == 0)
  }

  function YearLength(y: int): nat
  {
    if IsLeapYear(y) then 366 else 365
  }

  function MonthLength(y: int, m: nat): (n: nat)
    requires 1 <= m <= 12
    ensures 28 <= n <= 31
  {
    if m == 2 then (if IsLeapYear(y) then 29 else 28)
    else if m == 4 || m == 6 || m == 9 || m == 11 then 30
    else 31
  }

  predicate IsValid(d: Date)
  {
    1 <= d.month <= 12 && 1 <= d.day <= MonthLength(d.year, d.month)
  }

  /** Days of year `y` before the first of month `m`. */
  function DaysBeforeMonth(y: int, m: nat): nat
    requires 1 <= m <= 12
  {
    [0, 31, 59, 90, 120, 151, 181, 212, 243, 273, 304, 334][m - 1]
    + (if m > 2 && IsLeapYear(y) then 1 else 0)
  }

  /** Days from 1 January of year 0 to 1 January of year `y` (negative before year 0). */
  function DaysBeforeYear(y: int): int
  {
    365 * y + (y + 3) / 4 - (y + 99) / 100 + (y + 399) / 400
  }

  /** Position of a date on the day line: consecutive days have consecutive ordinals. */
  function Ordinal(d: Date): int
    requires IsValid(d)
  {
    DaysBeforeYear(d.year) + DaysBeforeMonth(d.year, d.month) + d.day - 1
  }

  lemma YearStep(y: int)
    ensures DaysBeforeYear(y + 1) == DaysBeforeYear(y) + YearLength(y)
  {
    DivStep(y, 4);
    DivStep(y, 100);
    DivStep(y, 400);
    DivisorsNest(y);
  }

  /** A year divisible by 100 is divisible by 4, and one divisible by 400 by 100. */
  lemma DivisorsNest(y: int)
    ensures y % 100 == 0 ==> y % 4 == 0
    ensures y % 400 == 0 ==> y % 100 == 0
  {
    if y % 100 == 0 {
      var q := y / 100;
      assert y == 4 * (25 * q) + 0;
      DivUnique(y, 4, 25 * q, 0);
    }
    if y % 400 == 0 {
      var q := y / 400;
      assert y == 100 * (4 * q) + 0;
      DivUnique(y, 100, 4 * q, 0);
    }
  }

  /** `(y + k) / k` exceeds `(y + k - 1) / k` by one exactly when `k` divides `y`. */
  lemma DivStep(y: int, k: int)
    requires k > 0
    ensures (y + k) / k == (y + k - 1) / k + (if y % k == 0 then 1 else 0)
  {
    var q, r := y / k, y % k;
    assert y == k * q + r && 0 <= r < k;
    if r == 0 {
      DivUnique(y + k - 1, k, q, k - 1);
      DivUnique(y + k, k, q + 1, 0);
    } else {
      DivUnique(y + k - 1, k, q + 1, r - 1);
      DivUnique(y + k, k, q + 1, r);
    }
  }

  lemma DivUnique(x: int, k: int, q: int, r: int)
    requires k > 0 && x == k * q + r && 0 <= r < k
    ensures x / k == q
  {
    var q' := x / k;
    assert x == k * q' + x % k;
    if q' < q {
      MulMono(k, q' + 1, q);
    } else if q' > q {
      MulMono(k, q + 1, q');
    }
  }

  lemma MulMono(k: int, a: int, b: int)
    requires k > 0 && a <= b
    ensures k * a <= k * b
  {
    assert k * b - k * a == k * (b - a);
  }

  /** Each month starts where the one before it ends, and December ends the year. */
  lemma DaysBeforeMonthStep(y: int, m: nat)
    requires 1 <= m <= 12
    ensures m < 12 ==> DaysBeforeMonth(y, m + 1) == DaysBeforeMonth(y, m) + MonthLength(y, m)
    ensures DaysBeforeMonth(y, m) + MonthLength(y, m) <= YearLength(y)
    ensures m == 12 ==> DaysBeforeMonth(y, m) + MonthLength(y, m) == YearLength(y)
  {
  }

  /** The day before `d` (chrono's `pred_opt`). */
  function Pred(d: Date): (p: Date)
    requires IsValid(d)
    ensures IsValid(p)
  {
    if d.day > 1 then Date(d.year, d.month, d.day - 1)
    else if d.month > 1 then Date(d.year, d.month - 1, MonthLength(d.year, d.month - 1))
    else Date(d.year - 1, 12, 31)
  }

  /** `Pred` steps back exactly one day. */
  lemma PredOrdinal(d: Date)
    requires IsValid(d)
    ensures Ordinal(Pred(d)) == Ordinal(d) - 1
  {
    if d.day == 1 && d.month == 1 {
      YearStep(d.year - 1);
      DaysBeforeMonthStep(d.year - 1, 12);
    }
  }

  /** `d - Duration::days(n)`, as `n` steps of `Pred`. */
  function SubtractDays(d: Date, n: nat): (r: Date)
    requires IsValid(d)
    ensures IsValid(r)
    decreases n
  {
    if n == 0 then d else SubtractDays(Pred(d), n - 1)
  }

  lemma {:induction false} SubtractDaysOrdinal(d: Date, n: nat)
    requires IsValid(d)
    ensures Ordinal(SubtractDays(d, n)) == Ordinal(d) - n
    decreases n
  {
    if n > 0 {
      PredOrdinal(d);
      SubtractDaysOrdinal(Pred(d), n - 1);
    }
  }

  /** The first day of the month after the month of `d`; December wraps to January of the next year. */
  function NextMonthFirst(d: Date): (r: Date)
    requires IsValid(d)
    ensures IsValid(r) && r.day == 1
  {
    if d.month == 12 then Date(d.year + 1, 1, 1) else Date(d.year, d.month + 1, 1)
  }

  function MonthFirst(d: Date): (r: Date)
    requires IsValid(d)
    ensures IsValid(r) && r.year == d.year && r.month == d.month && r.day == 1
  {
    Date(d.year, d.month, 1)
  }

  /** Days in the month of `d` as the day number of the day before the next month's first. */
  function DaysInMonthByPred(d: Date): nat
    requires IsValid(d)
  {
    Pred(NextMonthFirst(d)).day
  }

  /** Days in the month of `d` as the day count between this month's first and the next month's first. */
  function DaysInMonthBySpan(d: Date): int
    requires IsValid(d)
  {
    Ordinal(NextMonthFirst(d)) - Ordinal(MonthFirst(d))
  }

  /** Both ways of counting give the calendar's month length, which lies in 28..31. */
  lemma DaysInMonthAgree(d: Date)
    requires IsValid(d)
    ensures DaysInMonthByPred(d) == MonthLength(d.year, d.month)
    ensures DaysInMonthBySpan(d) == MonthLength(d.year, d.month)
    ensures 28 <= DaysInMonthBySpan(d) <= 31
  {
    if d.month == 12 {
      YearStep(d.year);
      DaysBeforeMonthStep(d.year, 12);
    }
  }

  lemma KnownMonthLengths()
    ensures DaysInMonthByPred(Date(2024, 2, 15)) == 29
    ensures DaysInMonthByPred(Date(2023, 4, 10)) == 30
    ensures DaysInMonthBySpan(Date(2024, 12, 1)) == 31
  {
    DaysInMonthAgree(Date(2024, 12, 1));
  }

  // ----- ordering -----

  /** Calendar order on (year, month, day). */
  predicate Before(a: Date, b: Date)
  {
    a.year < b.year || (a.year == b.year && (a.month < b.month || (a.month == b.month && a.day < b.day)))
  }

  /** Calendar order agrees with ordinal order. */
  lemma {:induction false} BeforeOrdinal(a: Date, b: Date)
    requires IsValid(a) && IsValid(b)
    ensures Before(a, b) <==> Ordinal(a) < Ordinal(b)
  {
    OrdinalWithinYear(a);
    OrdinalWithinYear(b);
    if a.year < b.year {
      YearOrder(a.year, b.year);
    } else if b.year < a.year {
      YearOrder(b.year, a.year);
    } else if a.month < b.month {
      MonthOrder(a.year, a.month, b.month);
    } else if b.month < a.month {
      MonthOrder(a.year, b.month, a.month);
    }
  }

  lemma OrdinalWithinYear(d: Date)
    requires IsValid(d)
    ensures DaysBeforeYear(d.year) <= Ordinal(d) < DaysBeforeYear(d.year + 1)
  {
    DaysBeforeMonthStep(d.year, d.month);
    YearStep(d.year);
  }

  lemma {:induction false} YearOrder(a: int, b: int)
    requires a < b
    ensures DaysBeforeYear(a + 1) <= DaysBeforeYear(b)
    decreases b - a
  {
    if a + 1 < b {
      YearOrder(a + 1, b);
      YearStep(a + 1);
    }
  }

  lemma {:induction false} MonthOrder(y: int, m: nat, n: nat)
    requires 1 <= m < n <= 12
    ensures DaysBeforeMonth(y, m) + MonthLength(y, m) <= DaysBeforeMonth(y, n)
    decreases n - m
  {
    DaysBeforeMonthStep(y, m);
    if m + 1 < n {
      MonthOrder(y, m + 1, n);
      DaysBeforeMonthStep(y, m + 1);
    }
  }

  // ----- text -----

  /** chrono's `%Y`: four digits for years 0 to 9999, otherwise an explicit sign. */
  function YearText(y: int): string
  {
    if 0 <= y <= 9999 then Pad(y, 4)
    else if y > 9999 then "+" + Pad(y, 0)
    else "-" + Pad(-y, 4)
  }

  /** chrono's `%Y-%m-%d` */
  function FormatDate(d: Date): string
  {
    YearText(d.year) + "-" + Pad(d.month, 2) + "-" + Pad(d.day, 2)
  }

  /** chrono's `%Y-%m` */
  function FormatMonth(d: Date): string
  {
    YearText(d.year) + "-" + Pad(d.month, 2)
  }

  /** Rust's `format!("{:04}-{:02}", year, month)`: the sign counts towards the width of four. */
  function PaddedMonthKey(year: int, month: nat): string
  {
    (if year < 0 then "-" + Pad(-year, 3) else Pad(year, 4)) + "-" + Pad(month, 2)
  }

  predicate InSqlRange(d: Date)
  {
    0 <= d.year <= 9999
  }

  /** SQLite's `strftime('%Y-%m-%d', t)`: NULL for a stamp outside years 0000 to 9999. */
  function SqlDate(d: Date): Option<string>
  {
    if InSqlRange(d) then Some(FormatDate(d)) else None
  }

  /** SQLite's `strftime('%Y-%m', t)` */
  function SqlMonth(d: Date): Option<string>
  {
    if InSqlRange(d) then Some(FormatMonth(d)) else None
  }

  /** Within years 0 to 9999 the program's two month keys coincide. */
  lemma MonthKeysAgree(d: Date)
    requires InSqlRange(d)
    ensures FormatMonth(d) == PaddedMonthKey(d.year, d.month)
  {
  }

  /** For dates of years 0 to 9999, comparing the date texts compares the dates. */
  lemma FormatDateOrder(a: Date, b: Date)
    requires IsValid(a) && IsValid(b) && InSqlRange(a) && InSqlRange(b)
    ensures StrLt(FormatDate(a), FormatDate(b)) <==> Before(a, b)
  {
    PadLength(a.year, 4);
    PadLength(b.year, 4);
    PadLength(a.month, 2);
    PadLength(b.month, 2);
    PadLength(a.day, 2);
    PadLength(b.day, 2);
    var ya, yb := Pad(a.year, 4), Pad(b.year, 4);
    var ma, mb := Pad(a.month, 2), Pad(b.month, 2);
    var da, db := Pad(a.day, 2), Pad(b.day, 2);
    assert FormatDate(a) == ya + ("-" + ma + "-" + da);
    assert FormatDate(b) == yb + ("-" + mb + "-" + db);
    StrLeConcat(ya, "-" + ma + "-" + da, yb, "-" + mb + "-" + db);
    PadOrder(a.year, b.year, 4);
    PadInjective(a.year, b.year, 4);
    assert "-" + ma + "-" + da == "-" + (ma + ("-" + da));
    assert "-" + mb + "-" + db == "-" + (mb + ("-" + db));
    StrLeConcat("-", ma + ("-" + da), "-", mb + ("-" + db));
    StrLeConcat(ma, "-" + da, mb, "-" + db);
    PadOrder(a.month, b.month, 2);
    PadInjective(a.month, b.month, 2);
    StrLeConcat("-", da, "-", db);
    PadOrder(a.day, b.day, 2);
    PadInjective(a.day, b.day, 2);
    assert (FormatDate(a) == FormatDate(b)) == (a == b) by {
      FormatDateInjective(a, b);
    }
  }

  lemma FormatDateInjective(a: Date, b: Date)
    requires InSqlRange(a) && InSqlRange(b) && IsValid(a) && IsValid(b)
    ensures FormatDate(a) == FormatDate(b) <==> a == b
  {
    if FormatDate(a) == FormatDate(b) {
      ParseFormat(a);
      ParseFormat(b);
    }
  }

  /** Two dates have one month key exactly when they are in one month. */
  lemma FormatMonthEqual(a: Date, b: Date)
    requires InSqlRange(a) && InSqlRange(b) && IsValid(a) && IsValid(b)
    ensures FormatMonth(a) == FormatMonth(b) <==> a.year == b.year && a.month == b.month
  {
    PadLength(a.year, 4);
    PadLength(b.year, 4);
    PadLength(a.month, 2);
    PadLength(b.month, 2);
    if FormatMonth(a) == FormatMonth(b) {
      var s := FormatMonth(a);
      assert Pad(a.year, 4) == s[..4] == Pad(b.year, 4);
      assert Pad(a.month, 2) == s[5..] == Pad(b.month, 2);
      PadInjective(a.year, b.year, 4);
      PadInjective(a.month, b.month, 2);
    }
  }

  /**
   * chrono's `NaiveDate::parse_from_str(s, "%Y-%m-%d")` on the text the
   * program writes: four, two and two digits joined by '-', naming a real date.
   */
  function ParseDate(s: string): (r: Option<Date>)
    ensures r.Some? ==> IsValid(r.value) && InSqlRange(r.value)
  {
    if |s| == 10 && s[4] == '-' && s[7] == '-' && AllDigits(s[..4]) && AllDigits(s[5..7]) && AllDigits(s[8..]) then
      var d := Date(DecimalValue(s[..4]), DecimalValue(s[5..7]), DecimalValue(s[8..]));
      DecimalBound(s[..4]);
      if IsValid(d) then Some(d) else None
    else None
  }

  lemma {:induction false} DecimalBound(s: string)
    requires AllDigits(s)
    ensures DecimalValue(s) < Pow10(|s|)
  {
    if s != [] {
      DecimalBound(s[..|s| - 1]);
    }
  }

  /** A digit string of length `w` is the padded numeral of its value. */
  lemma {:induction false} DecimalPad(s: string)
    requires AllDigits(s) && |s| >= 1
    ensures Pad(DecimalValue(s), |s|) == s
  {
    var n := DecimalValue(s);
    var last := s[|s| - 1];
    assert n % 10 == DigitValue(last) && n / 10 == DecimalValue(s[..|s| - 1]);
    if |s| == 1 {
      assert DecimalValue(s[..0]) == 0;
      assert Pad(n, 1) == [DigitChar(n)];
      assert (48 + DigitValue(last)) as char == last;
    } else {
      DecimalPad(s[..|s| - 1]);
      assert DigitChar(n % 10) == last;
      assert s == s[..|s| - 1] + [last];
    }
  }

  /** What the program writes, it reads back. */
  lemma ParseFormat(d: Date)
    requires IsValid(d) && InSqlRange(d)
    ensures ParseDate(FormatDate(d)) == Some(d)
  {
    PadLength(d.year, 4);
    PadLength(d.month, 2);
    PadLength(d.day, 2);
    var s := FormatDate(d);
    assert s[..4] == Pad(d.year, 4);
    assert s[5..7] == Pad(d.month, 2);
    assert s[8..] == Pad(d.day, 2);
    PadValue(d.year, 4);
    PadValue(d.month, 2);
    PadValue(d.day, 2);
  }

  /** What the parser accepts is exactly the program's own text of the date it returns. */
  lemma ParseSound(s: string)
    requires ParseDate(s).Some?
    ensures FormatDate(ParseDate(s).value) == s
  {
    var d := ParseDate(s).value;
    DecimalPad(s[..4]);
    DecimalPad(s[5..7]);
    DecimalPad(s[8..]);
    assert s == s[..4] + "-" + s[5..7] + "-" + s[8..];
  }
}
