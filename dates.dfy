/** Calendar dates as `java.time.LocalDate` holds them, with `LocalDate.toString`
    and `LocalDate.parse` in the ISO `yyyy-MM-dd` form. The current date is never
    read from a clock: operations that use `LocalDate.now()` take it as a parameter. */
module Dates {
  import opened Wrappers
  import opened Strings
  import opened Numbers

  datatype Date = Date(year: int, month: int, day: int)

  /** The proleptic Gregorian leap-year rule of `IsoChronology.isLeapYear`. */
  predicate IsLeapYear(y: int)
  {
    y % 4 == 0 && (y % 100 != 0 || y % 400 == 0)
  }

  function DaysInMonth(y: int, m: int): int
  {
    if m == 2 then (if IsLeapYear(y) then 29 else 28)
    else if m == 4 || m == 6 || m == 9 || m == 11 then 30
    else 31
  }

  /** The dates a `LocalDate` can hold (month 1-12, a day that exists in that month). */
  predicate ValidDate(d: Date)
  {
    1 <= d.month <= 12 && 1 <= d.day <= DaysInMonth(d.year, d.month)
  }

  function Digits4(n: nat): (r: string)
    requires n < 10000
    ensures |r| == 4 && AllDigits(r)
  {
    Digits2(n / 100) + Digits2(n % 100)
  }

  function YearText(y: int): string
  {
    if -1000 < y < 1000 then (if y < 0 then "-" else "") + Digits4(if y < 0 then -y else y)
    else (if y > 9999 then "+" else "") + IntToString(y)
  }

  /** `LocalDate.toString`: a year below 1000 in magnitude is padded to four
      digits, a year above 9999 gets a `+`, and month and day get two digits. */
  function FormatDate(d: Date): (r: string)
    ensures 0 <= d.year <= 9999 && 1 <= d.month < 100 && 1 <= d.day < 100 ==>
      r == Digits4(d.year) + "-" + Digits2(d.month) + "-" + Digits2(d.day)
  {
    PaddedFields(d);
    YearText(d.year) + DateField(d.month) + DateField(d.day)
  }

  /** For a four-digit year the year, month and day are written zero-padded to
      four, two and two digits. */
  lemma PaddedFields(d: Date)
    ensures 0 <= d.year <= 9999 && 1 <= d.month < 100 && 1 <= d.day < 100 ==>
      YearText(d.year) + DateField(d.month) + DateField(d.day)
      == Digits4(d.year) + "-" + Digits2(d.month) + "-" + Digits2(d.day)
  {
    if 0 <= d.year <= 9999 && 1 <= d.month < 100 && 1 <= d.day < 100 {
      if d.year >= 1000 { FourDigitYear(d.year); }
      assert YearText(d.year) == Digits4(d.year);
      TwoDigitField(d.month);
      TwoDigitField(d.day);
    }
  }

  /** A month or day of the date text: a dash, then at least two digits. */
  function DateField(n: int): string
  {
    (if n < 10 then "-0" else "-") + IntToString(n)
  }

  /** `LocalDate.parse` with `ISO_LOCAL_DATE` for four-digit years: exactly
      `dddd-dd-dd`, and the strict resolver rejects dates that do not exist. */
  function ParseDate(s: string): (r: Option<Date>)
    ensures r.Some? ==> ValidDate(r.value)
  {
    if |s| != 10 || s[4] != '-' || s[7] != '-'
       || !AllDigits(s[..4]) || !AllDigits(s[5..7]) || !AllDigits(s[8..]) then None
    else
      var d := Date(DigitsValue(s[..4]), DigitsValue(s[5..7]), DigitsValue(s[8..]));
      if ValidDate(d) then Some(d) else None
  }

  lemma ShiftDigit(x: int, p: int, y: int, d: int)
    ensures (x * p + y) * 10 + d == x * (10 * p) + (y * 10 + d)
  {
    assert (x * p + y) * 10 == x * p * 10 + y * 10;
    assert x * p * 10 == x * (10 * p);
  }

  lemma {:induction false} DigitsValueAppend(a: string, b: string)
    requires AllDigits(a) && AllDigits(b)
    ensures AllDigits(a + b)
    ensures DigitsValue(a + b) == DigitsValue(a) * Pow10(|b|) + DigitsValue(b)
  {
    if |b| > 0 {
      var b' := b[..|b| - 1];
      assert (a + b)[..|a + b| - 1] == a + b';
      DigitsValueAppend(a, b');
      var va, vb', p', d := DigitsValue(a), DigitsValue(b'), Pow10(|b'|), DigitValue(b[|b| - 1]);
      assert DigitsValue(a + b) == DigitsValue(a + b') * 10 + d;
      assert DigitsValue(b) == vb' * 10 + d;
      assert Pow10(|b|) == 10 * p';
      ShiftDigit(va, p', vb', d);
    } else {
      assert a + b == a;
    }
  }

  lemma Digits4Value(n: nat)
    requires n < 10000
    ensures DigitsValue(Digits4(n)) == n
  {
    DigitsValueAppend(Digits2(n / 100), Digits2(n % 100));
    TwoDigitsValue(n / 100);
    TwoDigitsValue(n % 100);
    assert Pow10(2) == 100;
  }

  /** A month or day from 1 to 31 is written as two digits. */
  lemma TwoDigitField(n: int)
    requires 1 <= n < 100
    ensures DateField(n) == "-" + Digits2(n)
  {
    if n >= 10 {
      assert NatToString(n) == NatToString(n / 10) + [DigitChar(n % 10)];
    }
  }

  /** A year from 1000 to 9999 written by `toString` has four digits. */
  lemma FourDigitYear(y: int)
    requires 1000 <= y <= 9999
    ensures IntToString(y) == Digits4(y)
  {
    assert NatToString(y / 1000) == [DigitChar(y / 1000)];
    assert NatToString(y / 100) == NatToString(y / 1000) + [DigitChar(y / 100 % 10)];
    assert NatToString(y / 10) == NatToString(y / 100) + [DigitChar(y / 10 % 10)];
    assert NatToString(y) == NatToString(y / 10) + [DigitChar(y % 10)];
    assert y / 100 / 10 == y / 1000 && y / 10 / 10 == y / 100;
  }

  /** `LocalDate.parse` reads back what `toString` wrote, for years 0 to 9999. */
  lemma DateRoundTrip(d: Date)
    requires ValidDate(d) && 0 <= d.year <= 9999
    ensures ParseDate(FormatDate(d)) == Some(d)
  {
    var y, m, n := Digits4(d.year), Digits2(d.month), Digits2(d.day);
    Digits4Value(d.year);
    TwoDigitsValue(d.month);
    TwoDigitsValue(d.day);
    PaddedText(y, m, n);
  }

  /** The ten characters `yyyy-mm-dd` split back into their three digit groups. */
  lemma PaddedText(y: string, m: string, n: string)
    requires |y| == 4 && |m| == 2 && |n| == 2
    ensures var s := y + "-" + m + "-" + n;
      |s| == 10 && s[4] == '-' && s[7] == '-' && s[..4] == y && s[5..7] == m && s[8..] == n
  {
  }
}
