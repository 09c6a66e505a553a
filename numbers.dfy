/**
 * Decimal text and its value. The script parses numbers twice: `astype(float)`
 * on stripped currency text (airbnb.py line 90) and `pd.to_numeric` on the
 * numeric columns (line 110). Both are modelled by one exact decimal parser
 * over `real`, so no rounding happens in the model.
 */
module Numbers {
  import opened Wrappers

  predicate IsDigit(c: char) {
    '0' <= c <= '9'
  }

  predicate AllDigits(s: string) {
    forall i :: 0 <= i < |s| ==> IsDigit(s[i])
  }

  function DigitValue(c: char): nat
    requires IsDigit(c)
  {
    c as int - '0' as int
  }

  function Digit(d: nat): (c: char)
    requires d < 10
    ensures IsDigit(c) && DigitValue(c) == d
  {
    (d + '0' as int) as char
  }

  function Pow10(n: nat): (p: nat)
    ensures p > 0
  {
    if n == 0 then 1 else 10 * Pow10(n - 1)
  }

  /** The value of a string of decimal digits, most significant first. */
  function DigitsValue(s: string): nat
    requires AllDigits(s)
    decreases |s|
  {
    if s == [] then 0 else DigitsValue(s[..|s| - 1]) * 10 + DigitValue(s[|s| - 1])
  }

  /** The position of the first `c` in `s`, or `|s|` when there is none. */
  function IndexOf(s: string, c: char): (k: nat)
    ensures k <= |s|
    ensures forall i :: 0 <= i < k ==> s[i] != c
    ensures k < |s| ==> s[k] == c
  {
    if s == [] then 0 else if s[0] == c then 0 else 1 + IndexOf(s[1..], c)
  }

  /** The value of the digits after a decimal point. */
  function Fraction(frac: string): real
    requires AllDigits(frac)
    decreases |frac|
  {
    if frac == [] then 0.0 else (DigitValue(frac[0]) as real + Fraction(frac[1..])) / 10.0
  }

  /**
   * An unsigned decimal: digits, optionally followed by a point and more
   * digits, with at least one digit in all (`12`, `12.`, `12.5`, `.5`).
   */
  function ParseUnsigned(s: string): Option<real> {
    var k := IndexOf(s, '.');
    ParseParts(s[..k], if k < |s| then s[k + 1..] else [])
  }

  /** The digits before and after the point, when both are digits and not both empty. */
  function ParseParts(whole: string, frac: string): Option<real> {
    if AllDigits(whole) && AllDigits(frac) && |whole| + |frac| > 0 then
      Some(DigitsValue(whole) as real + Fraction(frac))
    else
      None
  }

  /** A decimal with an optional sign; `None` when the text is not one. */
  function ParseDecimal(s: string): Option<real> {
    if |s| > 0 && s[0] == '-' then
      match ParseUnsigned(s[1..])
      case Some(v) => Some(-v)
      case None => None
    else if |s| > 0 && s[0] == '+' then
      ParseUnsigned(s[1..])
    else
      ParseUnsigned(s)
  }

  /** An unsigned parse succeeds only on digits and a point, with at least one digit. */
  lemma UnsignedCharacters(t: string)
    requires ParseUnsigned(t).Some?
    ensures forall i :: 0 <= i < |t| ==> IsDigit(t[i]) || t[i] == '.'
    ensures exists i :: 0 <= i < |t| && IsDigit(t[i])
  {
    var k := IndexOf(t, '.');
    var frac := if k < |t| then t[k + 1..] else [];
    assert AllDigits(t[..k]) && AllDigits(frac);
    forall i | 0 <= i < |t| ensures IsDigit(t[i]) || t[i] == '.' {
      if i < k {
        assert t[i] == t[..k][i];
      } else if i > k {
        assert t[i] == frac[i - k - 1];
      }
    }
    if k > 0 {
      assert IsDigit(t[..k][0]);
    } else {
      assert IsDigit(frac[0]) && frac[0] == t[k + 1];
    }
  }

  /** A parse succeeds only on text made of digits, a point and a leading sign. */
  lemma ParsedCharacters(s: string)
    requires ParseDecimal(s).Some?
    ensures forall i :: 0 <= i < |s| ==> IsDigit(s[i]) || s[i] == '.' || (i == 0 && (s[i] == '-' || s[i] == '+'))
    ensures exists i :: 0 <= i < |s| && IsDigit(s[i])
  {
    if |s| > 0 && (s[0] == '-' || s[0] == '+') {
      var t := s[1..];
      UnsignedCharacters(t);
      assert forall i :: 0 <= i < |t| ==> t[i] == s[i + 1];
      var j :| 0 <= j < |t| && IsDigit(t[j]);
      assert IsDigit(s[j + 1]);
    } else {
      UnsignedCharacters(s);
    }
  }

  /** The decimal digits of `n`, without leading zeros. */
  function NatToDigits(n: nat): (r: string)
    ensures AllDigits(r) && |r| > 0
    decreases n
  {
    if n < 10 then [Digit(n)] else NatToDigits(n / 10) + [Digit(n % 10)]
  }

  /** The last `width` decimal digits of `n`, zero-padded. */
  function PaddedDigits(n: nat, width: nat): (r: string)
    ensures AllDigits(r) && |r| == width
  {
    if width == 0 then [] else PaddedDigits(n / 10, width - 1) + [Digit(n % 10)]
  }

  /** Reading digits back gives the number they render. */
  lemma {:induction false} NatToDigitsValue(n: nat)
    ensures DigitsValue(NatToDigits(n)) == n
    decreases n
  {
    if n >= 10 {
      var r := NatToDigits(n);
      NatToDigitsValue(n / 10);
      assert r[..|r| - 1] == NatToDigits(n / 10);
    }
  }

  /** Zero-padded digits read back as the number, below the width's power of ten. */
  lemma {:induction false} PaddedDigitsValue(n: nat, width: nat)
    requires n < Pow10(width)
    ensures DigitsValue(PaddedDigits(n, width)) == n
  {
    if width > 0 {
      var r := PaddedDigits(n, width);
      DivTenBound(n, Pow10(width - 1));
      PaddedDigitsValue(n / 10, width - 1);
      assert r[..|r| - 1] == PaddedDigits(n / 10, width - 1);
      assert DigitsValue(r) == (n / 10) * 10 + n % 10;
    }
  }

  /** Dropping the last digit divides the bound by ten. */
  lemma DivTenBound(n: nat, p: nat)
    requires n < 10 * p
    ensures n / 10 < p
  {
  }

  /** Appending a digit to both sides of `a * p + b` multiplies the first part's weight by ten. */
  lemma ShiftDigit(a: int, p: int, b: int, d: int)
    ensures (a * p + b) * 10 + d == a * (10 * p) + (b * 10 + d)
  {
    assert (a * p + b) * 10 == a * p * 10 + b * 10;
    assert a * p * 10 == a * (10 * p);
  }

  /** Digits written one after another: the first part is shifted by the length of the second. */
  lemma {:induction false} DigitsValueConcat(x: string, y: string)
    requires AllDigits(x) && AllDigits(y)
    ensures AllDigits(x + y)
    ensures DigitsValue(x + y) == DigitsValue(x) * Pow10(|y|) + DigitsValue(y)
    decreases |y|
  {
    assert AllDigits(x + y) by {
      forall i | 0 <= i < |x + y| ensures IsDigit((x + y)[i]) {
        if i >= |x| { assert (x + y)[i] == y[i - |x|]; }
      }
    }
    if y != [] {
      var y' := y[..|y| - 1];
      assert (x + y)[..|x + y| - 1] == x + y';
      DigitsValueConcat(x, y');
      var last := DigitValue(y[|y| - 1]);
      assert DigitsValue(x + y) == DigitsValue(x + y') * 10 + last;
      assert DigitsValue(y) == DigitsValue(y') * 10 + last;
      assert Pow10(|y|) == 10 * Pow10(|y'|);
      ShiftDigit(DigitsValue(x), Pow10(|y'|), DigitsValue(y'), last);
    } else {
      assert x + y == x;
    }
  }

  /** The first `c` of `a + [c] + b` is just after `a` when `a` has none. */
  lemma IndexOfAfter(a: string, c: char, b: string)
    requires forall i :: 0 <= i < |a| ==> a[i] != c
    ensures IndexOf(a + [c] + b, c) == |a|
  {
    var s := a + [c] + b;
    assert s[|a|] == c;
    assert forall i :: 0 <= i < |a| ==> s[i] == a[i];
  }

  /** Text that starts with a digit carries no sign. */
  lemma UnsignedText(s: string)
    requires |s| > 0 && IsDigit(s[0])
    ensures ParseDecimal(s) == ParseUnsigned(s)
  {
  }

  /** Digits, a point and digits parse to the whole part plus the fraction. */
  lemma ParseUnsignedPoint(whole: string, frac: string)
    requires AllDigits(whole) && AllDigits(frac) && |whole| + |frac| > 0
    ensures ParseUnsigned(whole + "." + frac) == Some(DigitsValue(whole) as real + Fraction(frac))
  {
    PointSplit(whole, frac);
    ParsePartsValue(whole, frac);
  }

  /** Well-formed parts parse to the whole part plus the fraction. */
  lemma ParsePartsValue(whole: string, frac: string)
    requires AllDigits(whole) && AllDigits(frac) && |whole| + |frac| > 0
    ensures ParseParts(whole, frac) == Some(DigitsValue(whole) as real + Fraction(frac))
  {
  }

  /** Splitting `whole + "." + frac` at its first point gives back the two parts. */
  lemma PointSplit(whole: string, frac: string)
    requires AllDigits(whole)
    ensures ParseUnsigned(whole + "." + frac) == ParseParts(whole, frac)
  {
    var s := whole + "." + frac;
    assert forall i :: 0 <= i < |whole| ==> whole[i] != '.';
    IndexOfAfter(whole, '.', frac);
    assert s[..|whole|] == whole;
    assert s[|whole| + 1..] == frac;
  }

  /** Digits alone parse to their value. */
  lemma ParseUnsignedWhole(whole: string)
    requires AllDigits(whole) && |whole| > 0
    ensures ParseUnsigned(whole) == Some(DigitsValue(whole) as real)
  {
    var k := IndexOf(whole, '.');
    if k < |whole| {
      assert false;
    }
    assert whole[..k] == whole;
    assert ParseUnsigned(whole) == ParseParts(whole, []);
  }

  /** Whole digits alone parse to their value. */
  lemma ParseWhole(whole: string)
    requires AllDigits(whole) && |whole| > 0
    ensures ParseDecimal(whole) == Some(DigitsValue(whole) as real)
  {
    UnsignedText(whole);
    ParseUnsignedWhole(whole);
  }
}
