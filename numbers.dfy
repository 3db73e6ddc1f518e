/** Decimal text for numbers: `Integer.toString` / `%d`, `Integer.parseInt`,
    the plain-decimal part of `Double.parseDouble`, and `%.2f`. Integers are
    unbounded here, so the 32-bit range of `parseInt` is written out, and a
    GPA is an exact real, so `%.2f` rounds the exact value half-up. */
module Numbers {
  import opened Wrappers
  import opened Strings

  const Int32Min: int := -0x8000_0000
  const Int32Max: int := 0x7fff_ffff

  function DigitChar(d: nat): (c: char)
    requires d < 10
    ensures IsDigit(c) && c as int - '0' as int == d
  {
    ('0' as int + d) as char
  }

  function DigitValue(c: char): nat
    requires IsDigit(c)
  {
    c as int - '0' as int
  }

  /** Decimal digits of `n`, most significant first, without leading zeros. */
  function NatToString(n: nat): (r: string)
    ensures |r| > 0 && AllDigits(r)
    ensures r[0] != '-' && r[0] != '+'
  {
    if n < 10 then [DigitChar(n)] else NatToString(n / 10) + [DigitChar(n % 10)]
  }

  /** `Integer.toString(n)`, which string concatenation and `%d` also use. */
  function IntToString(n: int): (r: string)
    ensures |r| > 0
  {
    if n < 0 then "-" + NatToString(-n) else NatToString(n)
  }

  /** The value of a string of ASCII digits. */
  function DigitsValue(s: string): nat
    requires AllDigits(s)
  {
    if |s| == 0 then 0 else DigitsValue(s[..|s| - 1]) * 10 + DigitValue(s[|s| - 1])
  }

  lemma {:induction false} DigitsOfNat(n: nat)
    ensures DigitsValue(NatToString(n)) == n
  {
    if n >= 10 {
      var s := NatToString(n);
      assert s[..|s| - 1] == NatToString(n / 10);
      DigitsOfNat(n / 10);
    }
  }

  /** `Integer.parseInt(s)`: an optional sign, then at least one ASCII digit,
      and a value in the 32-bit range; anything else is a NumberFormatException. */
  function ParseInt(s: string): (r: Option<int>)
    ensures r.Some? ==> Int32Min <= r.value <= Int32Max
  {
    if |s| == 0 then None
    else
      var signed := s[0] == '-' || s[0] == '+';
      var digits := if signed then s[1..] else s;
      if |digits| == 0 || !AllDigits(digits) then None
      else
        var v: int := if s[0] == '-' then -(DigitsValue(digits) as int) else DigitsValue(digits);
        if Int32Min <= v <= Int32Max then Some(v) else None
  }

  /** `parseInt` reads back what `toString` wrote, for every 32-bit integer. */
  lemma IntRoundTrip(n: int)
    requires Int32Min <= n <= Int32Max
    ensures ParseInt(IntToString(n)) == Some(n)
  {
    if n < 0 {
      var m: nat := -n;
      var s := IntToString(n);
      assert s == "-" + NatToString(m);
      assert s[1..] == NatToString(m);
      DigitsOfNat(m);
      assert -(m as int) == n;
    } else {
      DigitsOfNat(n);
    }
  }

  function Pow10(k: nat): (r: nat)
    ensures r > 0
  {
    if k == 0 then 1 else 10 * Pow10(k - 1)
  }

  /** Index of the first `c` in `s`, or `|s|` when there is none. */
  function IndexOf(s: string, c: char): (k: nat)
    ensures k <= |s| && (k < |s| ==> s[k] == c)
    ensures forall i :: 0 <= i < k ==> s[i] != c
  {
    if |s| == 0 then 0 else if s[0] == c then 0 else 1 + IndexOf(s[1..], c)
  }

  /** The value of unsigned decimal text `digits[.digits]` with at least one digit. */
  function UnsignedDecimal(s: string): (r: Option<real>)
    ensures r.Some? ==> r.value >= 0.0
  {
    var k := IndexOf(s, '.');
    var whole := s[..k];
    var frac := if k < |s| then s[k + 1..] else "";
    if |whole| + |frac| == 0 || !AllDigits(whole) || !AllDigits(frac) then None
    else Some(DigitsValue(whole) as real + Fraction(frac))
  }

  /** The value of the digits after a decimal point. */
  function Fraction(frac: string): real
    requires AllDigits(frac)
  {
    DigitsValue(frac) as real / Pow10(|frac|) as real
  }

  /** `Double.parseDouble(s)` on plain decimal text: an optional sign, then
      digits with at most one decimal point. */
  function ParseDouble(s: string): (r: Option<real>)
    ensures r.Some? ==> |s| > 0 && (s[0] != '-' ==> r.value >= 0.0)
  {
    if |s| > 0 && (s[0] == '-' || s[0] == '+') then
      match UnsignedDecimal(s[1..])
      case Some(v) => Some(if s[0] == '-' then -v else v)
      case None => None
    else UnsignedDecimal(s)
  }

  /** `n` as exactly two digits, with a leading zero below 10. */
  function Digits2(n: nat): (r: string)
    requires n < 100
    ensures |r| == 2 && AllDigits(r)
  {
    [DigitChar(n / 10), DigitChar(n % 10)]
  }

  /** The text `w.dd` of the count `h` of hundredths. */
  function HundredthsText(h: nat): string
  {
    NatToString(h / 100) + "." + Digits2(h % 100)
  }

  /** `String.format("%.2f", x)` for `x >= 0`: rounded half-up to hundredths. */
  function Fixed2Unsigned(x: real): (r: string)
    requires x >= 0.0
    ensures |r| >= 4 && IsDigit(r[0]) && r[|r| - 3] == '.' && AllDigits(r[|r| - 2..])
  {
    HundredthsText((x * 100.0 + 0.5).Floor)
  }

  /** `String.format("%.2f", x)`; a negative value keeps its sign even when it rounds to zero. */
  function Fixed2(x: real): (r: string)
    ensures |r| >= 4 && r[|r| - 3] == '.' && AllDigits(r[|r| - 2..])
    ensures r[0] == '-' <==> x < 0.0
  {
    if x < 0.0 then "-" + Fixed2Unsigned(-x) else Fixed2Unsigned(x)
  }

  /** A value with at most two decimals, such as a GPA written as text with two decimals. */
  predicate IsHundredths(x: real)
  {
    (x * 100.0).Floor as real == x * 100.0
  }

  lemma HundredthsTextValue(h: nat)
    ensures UnsignedDecimal(HundredthsText(h)) == Some(h as real / 100.0)
  {
    var whole := NatToString(h / 100);
    var frac := Digits2(h % 100);
    assert HundredthsText(h) == whole + "." + frac;
    DecimalText(whole, frac);
    TwoDigitsValue(h % 100);
    DigitsOfNat(h / 100);
    assert Pow10(|frac|) == 100;
    assert Fraction(frac) == (h % 100) as real / 100.0;
    assert h == (h / 100) * 100 + h % 100;
  }

  /** Digits, a point, digits: the value is whole part plus fraction. */
  lemma DecimalText(whole: string, frac: string)
    requires AllDigits(whole) && AllDigits(frac) && |whole| > 0
    ensures UnsignedDecimal(whole + "." + frac)
         == Some(DigitsValue(whole) as real + Fraction(frac))
  {
    var s := whole + "." + frac;
    forall i | 0 <= i < |whole| ensures s[i] != '.' {
      assert s[i] == whole[i];
    }
    IndexOfFirst(s, '.', |whole|);
    var k := IndexOf(s, '.');
    assert k == |whole| && k < |s|;
    assert s[..k] == whole;
    assert s[k + 1..] == frac;
  }

  lemma TwoDigitsValue(d: nat)
    requires d < 100
    ensures DigitsValue(Digits2(d)) == 10 * (d / 10) + d % 10 == d
  {
    var frac := Digits2(d);
    assert frac[..1] == [DigitChar(d / 10)];
    assert frac[..1][..0] == [];
    assert DigitsValue(frac[..1]) == d / 10;
    assert DigitsValue(frac) == DigitsValue(frac[..1]) * 10 + DigitValue(frac[1]);
  }

  /** The unsigned text `%.2f` writes for non-negative hundredths reads back as the value. */
  lemma Fixed2UnsignedValue(x: real)
    requires x >= 0.0 && IsHundredths(x)
    ensures UnsignedDecimal(Fixed2Unsigned(x)) == Some(x)
  {
    var n := (x * 100.0).Floor;
    RoundedHundredths(x, n);
    assert Fixed2Unsigned(x) == HundredthsText(n);
    HundredthsTextValue(n);
  }

  /** Rounding half-up changes nothing for a value with at most two decimals. */
  lemma RoundedHundredths(x: real, n: int)
    requires x >= 0.0 && n as real == x * 100.0
    ensures n >= 0 && (x * 100.0 + 0.5).Floor == n && n as real / 100.0 == x
  {
  }

  /** `parseDouble` reads back what `%.2f` wrote, for every value with at most two decimals. */
  lemma Fixed2RoundTrip(x: real)
    requires IsHundredths(x)
    ensures ParseDouble(Fixed2(x)) == Some(x)
  {
    if x < 0.0 {
      NegatedHundredths(x);
      NegativeRoundTrip(x);
    } else {
      UnsignedRoundTrip(x);
    }
  }

  lemma UnsignedRoundTrip(x: real)
    requires x >= 0.0 && IsHundredths(x)
    ensures ParseDouble(Fixed2Unsigned(x)) == Some(x)
  {
    Fixed2UnsignedValue(x);
  }

  lemma NegativeRoundTrip(x: real)
    requires x < 0.0 && IsHundredths(-x)
    ensures ParseDouble(Fixed2(x)) == Some(x)
  {
    var v := -x;
    var t := Fixed2Unsigned(v);
    Fixed2UnsignedValue(v);
    NegativeText(t, v);
    NegativeFixed2(x);
    assert -v == x;
  }

  lemma NegativeFixed2(x: real)
    requires x < 0.0
    ensures Fixed2(x) == "-" + Fixed2Unsigned(-x)
  {
  }

  lemma NegatedHundredths(x: real)
    requires IsHundredths(x)
    ensures IsHundredths(-x)
  {
    var n := (x * 100.0).Floor;
    assert -x * 100.0 == (-n) as real;
  }

  /** A `-` before unsigned decimal text negates its value. */
  lemma NegativeText(t: string, v: real)
    requires UnsignedDecimal(t) == Some(v)
    ensures ParseDouble("-" + t) == Some(-v)
  {
    assert ("-" + t)[1..] == t;
  }

  lemma IndexOfFirst(s: string, c: char, k: nat)
    requires k < |s| && s[k] == c
    requires forall i :: 0 <= i < k ==> s[i] != c
    ensures IndexOf(s, c) == k
  {
  }
}
