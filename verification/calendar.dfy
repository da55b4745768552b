/** Decimal digits and proleptic Gregorian calendar arithmetic: what the system
    gets from JavaScript's `String(n)`, `parseInt`, `padStart(2, '0')` and the
    day-by-day stepping of a `Date`. The `YYYYMMDD` date key is defined here. */
module Calendar {

  predicate IsDigit(c: char) {
    '0' <= c <= '9'
  }

  predicate AllDigits(s: string) {
    forall i :: 0 <= i < |s| ==> IsDigit(s[i])
  }

  function DigitChar(d: nat): (c: char)
    requires d < 10
    ensures IsDigit(c)
  {
    ('0' as int + d) as char
  }

  function DigitValue(c: char): (d: nat)
    requires IsDigit(c)
    ensures d < 10 && DigitChar(d) == c
  {
    c as int - '0' as int
  }

  /** JavaScript `String(n)` for a non-negative integer: decimal, no leading zero. */
  function Decimal(n: nat): (r: string)
    ensures 1 <= |r| && AllDigits(r)
    ensures |r| > 1 ==> r[0] != '0'
    decreases n
  {
    if n < 10 then [DigitChar(n)] else Decimal(n / 10) + [DigitChar(n % 10)]
  }

  /** `parseInt` of a string made of decimal digits (the empty string gives 0 here). */
  function ParseDecimal(s: string): nat
    requires AllDigits(s)
  {
    if s == [] then 0 else ParseDecimal(s[..|s| - 1]) * 10 + DigitValue(s[|s| - 1])
  }

  /** Reading back what `Decimal` writes gives the number. */
  lemma {:induction false} ParseDecimalOfDecimal(n: nat)
    ensures ParseDecimal(Decimal(n)) == n
    decreases n
  {
    if n >= 10 {
      ParseDecimalOfDecimal(n / 10);
      var s := Decimal(n);
      assert s[..|s| - 1] == Decimal(n / 10);
    }
  }

  /** A digit string without a leading zero is rewritten by `Decimal` as it was. */
  lemma {:induction false} DecimalOfParseDecimal(s: string)
    requires 1 <= |s| && AllDigits(s) && (|s| > 1 ==> s[0] != '0')
    ensures Decimal(ParseDecimal(s)) == s
    decreases |s|
  {
    if |s| > 1 {
      var front := s[..|s| - 1];
      DecimalOfParseDecimal(front);
      ParseDecimalPositive(front);
      var n := ParseDecimal(s);
      assert n / 10 == ParseDecimal(front) && n % 10 == DigitValue(s[|s| - 1]);
      assert s == front + [s[|s| - 1]];
    }
  }

  lemma {:induction false} ParseDecimalPositive(s: string)
    requires 1 <= |s| && AllDigits(s) && s[0] != '0'
    ensures ParseDecimal(s) >= 1
    decreases |s|
  {
    if |s| > 1 {
      ParseDecimalPositive(s[..|s| - 1]);
    }
  }

  /** `Decimal` of an n-digit number has n characters (for the widths the system uses). */
  lemma DecimalLength(n: nat)
    ensures n < 10 ==> |Decimal(n)| == 1
    ensures 10 <= n < 100 ==> |Decimal(n)| == 2
    ensures 100 <= n < 1000 ==> |Decimal(n)| == 3
    ensures 1000 <= n < 10000 ==> |Decimal(n)| == 4
  {
  }

  /** The `add0` helper of the crawler and `padStart(2, "0")` of the batch script:
      numbers below 10 get a leading zero. */
  function Pad2(n: nat): (r: string)
    ensures AllDigits(r)
    ensures n < 100 ==> |r| == 2
  {
    DecimalLength(n);
    if n < 10 then "0" + Decimal(n) else Decimal(n)
  }

  /** Reading a padded number back gives the number, for every number below 100. */
  lemma Pad2RoundTrip(n: nat)
    requires n < 100
    ensures ParseDecimal(Pad2(n)) == n
  {
    ParseDecimalOfDecimal(n);
    if n < 10 {
      assert Pad2(n) == ['0', DigitChar(n)];
      assert Pad2(n)[..1] == "0";
    }
  }

  /** A two-digit string is rewritten by `Pad2` as it was. */
  lemma Pad2OfParse(s: string)
    requires |s| == 2 && AllDigits(s)
    ensures Pad2(ParseDecimal(s)) == s
  {
    assert s[..1][..0] == [];
    if s[0] == '0' {
      assert s[..1] == ['0'];
      assert ParseDecimal(s[..1]) == 0;
      assert ParseDecimal(s) == DigitValue(s[1]);
      assert Decimal(ParseDecimal(s)) == [s[1]];
    } else {
      DecimalOfParseDecimal(s);
      ParseDecimalPositive(s[..1]);
    }
  }

  // ---------------------------------------------------------------------------
  // Calendar dates

  datatype Date = Date(year: nat, month: nat, day: nat)

  predicate IsLeapYear(y: nat) {
    y % 4 == 0 && (y % 100 != 0 || y % 400 == 0)
  }

  function DaysInMonth(y: nat, m: nat): (n: nat)
    requires 1 <= m <= 12
    ensures 28 <= n <= 31
  {
    if m == 2 then (if IsLeapYear(y) then 29 else 28)
    else if m == 4 || m == 6 || m == 9 || m == 11 then 30
    else 31
  }

  function YearLength(y: nat): nat {
    if IsLeapYear(y) then 366 else 365
  }

  predicate ValidDate(d: Date) {
    1 <= d.month <= 12 && 1 <= d.day <= DaysInMonth(d.year, d.month)
  }

  /** The day after `d`, as `d.setDate(d.getDate() + 1)` computes it. */
  function NextDay(d: Date): (r: Date)
    requires ValidDate(d)
    ensures ValidDate(r)
  {
    if d.day < DaysInMonth(d.year, d.month) then Date(d.year, d.month, d.day + 1)
    else if d.month < 12 then Date(d.year, d.month + 1, 1)
    else Date(d.year + 1, 1, 1)
  }

  function DaysBeforeYear(y: nat): nat {
    if y == 0 then 0 else DaysBeforeYear(y - 1) + YearLength(y - 1)
  }

  function DaysBeforeMonth(y: nat, m: nat): nat
    requires 1 <= m <= 12
  {
    if m == 1 then 0 else DaysBeforeMonth(y, m - 1) + DaysInMonth(y, m - 1)
  }

  /** Position of a date on the day line: what a JavaScript `Date` comparison compares. */
  function DayNumber(d: Date): int
    requires ValidDate(d)
  {
    DaysBeforeYear(d.year) + DaysBeforeMonth(d.year, d.month) + d.day
  }

  /** `NextDay` steps exactly one day forward on the day line. */
  lemma NextDayNumber(d: Date)
    requires ValidDate(d)
    ensures DayNumber(NextDay(d)) == DayNumber(d) + 1
  {
    if d.day == DaysInMonth(d.year, d.month) && d.month == 12 {
      MonthLengthsSum(d.year);
    }
  }

  /** Day numbers tell dates apart. */
  lemma DayNumberInjective(a: Date, b: Date)
    requires ValidDate(a) && ValidDate(b) && DayNumber(a) == DayNumber(b)
    ensures a == b
  {
    if a.year < b.year {
      DaysBeforeYearGap(a.year, b.year);
      MonthsWithinYear(a.year, a.month);
      assert false;
    } else if b.year < a.year {
      DaysBeforeYearGap(b.year, a.year);
      MonthsWithinYear(b.year, b.month);
      assert false;
    } else if a.month < b.month {
      DaysBeforeMonthGap(a.year, a.month, b.month);
      assert false;
    } else if b.month < a.month {
      DaysBeforeMonthGap(a.year, b.month, a.month);
      assert false;
    }
  }

  /** A date in an earlier year comes earlier on the day line. */
  lemma YearOrder(a: Date, b: Date)
    requires ValidDate(a) && ValidDate(b) && a.year < b.year
    ensures DayNumber(a) < DayNumber(b)
  {
    DaysBeforeYearGap(a.year, b.year);
    MonthsWithinYear(a.year, a.month);
  }

  lemma {:induction false} DaysBeforeYearGap(y: nat, z: nat)
    requires y < z
    ensures DaysBeforeYear(y) + YearLength(y) <= DaysBeforeYear(z)
    decreases z - y
  {
    if y + 1 < z {
      DaysBeforeYearGap(y + 1, z);
    }
  }

  lemma MonthsWithinYear(y: nat, m: nat)
    requires 1 <= m <= 12
    ensures DaysBeforeMonth(y, m) + DaysInMonth(y, m) <= YearLength(y)
  {
    MonthLengthsSum(y);
    MonthsGrow(y, m, 12);
  }

  /** The twelve months fill the year exactly. */
  lemma MonthLengthsSum(y: nat)
    ensures DaysBeforeMonth(y, 12) + DaysInMonth(y, 12) == YearLength(y)
  {
    var leap := if IsLeapYear(y) then 1 else 0;
    assert DaysBeforeMonth(y, 2) == 31;
    assert DaysBeforeMonth(y, 3) == 59 + leap;
    assert DaysBeforeMonth(y, 4) == 90 + leap;
    assert DaysBeforeMonth(y, 5) == 120 + leap;
    assert DaysBeforeMonth(y, 6) == 151 + leap;
    assert DaysBeforeMonth(y, 7) == 181 + leap;
    assert DaysBeforeMonth(y, 8) == 212 + leap;
    assert DaysBeforeMonth(y, 9) == 243 + leap;
    assert DaysBeforeMonth(y, 10) == 273 + leap;
    assert DaysBeforeMonth(y, 11) == 304 + leap;
    assert DaysBeforeMonth(y, 12) == 334 + leap;
  }

  lemma {:induction false} MonthsGrow(y: nat, m: nat, n: nat)
    requires 1 <= m <= n <= 12
    ensures DaysBeforeMonth(y, m) + DaysInMonth(y, m) <= DaysBeforeMonth(y, n) + DaysInMonth(y, n)
    decreases n - m
  {
    if m < n {
      MonthsGrow(y, m + 1, n);
    }
  }

  lemma DaysBeforeMonthGap(y: nat, m: nat, n: nat)
    requires 1 <= m < n <= 12
    ensures DaysBeforeMonth(y, m) + DaysInMonth(y, m) <= DaysBeforeMonth(y, n)
  {
    MonthsGrow(y, m, n - 1);
  }

  // ---------------------------------------------------------------------------
  // The YYYYMMDD date key

  /** `'' + year + add0(month) + add0(day)`: the key under which a day's transcript is stored. */
  function DateKey(d: Date): (r: string)
    ensures AllDigits(r)
    ensures d.month < 100 && d.day < 100 ==> |r| == |Decimal(d.year)| + 4
  {
    Decimal(d.year) + Pad2(d.month) + Pad2(d.day)
  }

  /** The numbers `parseInt` reads from the three fields of an 8-digit key. */
  function ParseKey(s: string): Date
    requires |s| == 8 && AllDigits(s)
  {
    Date(ParseDecimal(s[..4]), ParseDecimal(s[4..6]), ParseDecimal(s[6..8]))
  }

  /** A date in a four-digit year is written as 8 digits that read back as the same date. */
  lemma DateKeyRoundTrip(d: Date)
    requires ValidDate(d) && 1000 <= d.year <= 9999
    ensures |DateKey(d)| == 8
    ensures ParseKey(DateKey(d)) == d
  {
    var k := DateKey(d);
    DecimalLength(d.year);
    assert k[..4] == Decimal(d.year);
    assert k[4..6] == Pad2(d.month);
    assert k[6..8] == Pad2(d.day);
    ParseDecimalOfDecimal(d.year);
    Pad2RoundTrip(d.month);
    Pad2RoundTrip(d.day);
  }

  /** An 8-digit key without a leading zero is written back by `DateKey` unchanged. */
  lemma ParseKeyRoundTrip(s: string)
    requires |s| == 8 && AllDigits(s) && s[0] != '0'
    ensures DateKey(ParseKey(s)) == s
  {
    var d := ParseKey(s);
    assert AllDigits(s[..4]) && AllDigits(s[4..6]) && AllDigits(s[6..8]);
    DecimalOfParseDecimal(s[..4]);
    Pad2OfParse(s[4..6]);
    Pad2OfParse(s[6..8]);
    assert s == s[..4] + s[4..6] + s[6..8];
  }
}
