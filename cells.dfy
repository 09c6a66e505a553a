/**
 * One table cell and the per-cell transformations of the cleaning script:
 * currency stripping and parsing (airbnb.py lines 86-91), `pd.to_numeric`
 * with `errors="coerce"` (line 110), `365 - availability_365` (line 121) and
 * the two host-label lambdas (lines 126 and 265).
 */
module Cells {
  import opened Wrappers
  import opened Text
  import opened Numbers

  /** A cell as pandas holds it: a string, a number, or a missing value (NaN). */
  datatype Cell = Text(s: string) | Number(v: real) | Missing

  /** Python's `str()` of a missing value. */
  const MISSING_TEXT := "nan"

  // ---------------------------------------------------------------- currency

  predicate IsCurrencyMark(c: char) {
    c == '$' || c == ','
  }

  /** `.replace(r"[\$,]", "", regex=True)` on one string: every `$` and `,` is deleted. */
  function StripCurrency(s: string): (r: string)
    ensures |r| <= |s|
    ensures forall i :: 0 <= i < |r| ==> !IsCurrencyMark(r[i])
    ensures forall c :: c in r <==> c in s && !IsCurrencyMark(c)
  {
    if s == [] then []
    else if IsCurrencyMark(s[0]) then StripCurrency(s[1..])
    else [s[0]] + StripCurrency(s[1..])
  }

  /** Stripping works piece by piece, so the kept characters stay in their order. */
  lemma {:induction false} StripCurrencyConcat(a: string, b: string)
    ensures StripCurrency(a + b) == StripCurrency(a) + StripCurrency(b)
    decreases |a|
  {
    if a != [] {
      assert (a + b)[1..] == a[1..] + b;
      StripCurrencyConcat(a[1..], b);
    } else {
      assert a + b == b;
    }
  }

  /** Text without `$` or `,` is left alone. */
  lemma {:induction false} StripCurrencyNoOp(s: string)
    requires forall i :: 0 <= i < |s| ==> !IsCurrencyMark(s[i])
    ensures StripCurrency(s) == s
    decreases |s|
  {
    if s != [] {
      StripCurrencyNoOp(s[1..]);
    }
  }

  /** Stripping twice is stripping once. */
  lemma StripCurrencyIdempotent(s: string)
    ensures StripCurrency(StripCurrency(s)) == StripCurrency(s)
  {
    StripCurrencyNoOp(StripCurrency(s));
  }

  /**
   * The number `astype(float)` (Python's `float()`) and `pd.to_numeric` read
   * from a string: surrounding ASCII whitespace is ignored and the rest must
   * be a decimal.
   */
  function FloatValue(s: string): Option<real> {
    ParseDecimal(Trim(s, IsAsciiSpace))
  }

  /** The value `astype(float)` reads from a stripped currency string. */
  function CurrencyValue(s: string): Option<real> {
    FloatValue(StripCurrency(s))
  }

  /**
   * `clean_currency_column` on one cell: strings are stripped and parsed as a
   * float, and a string that then does not parse is an error (`astype(float)`
   * raises). Numbers and missing values pass through.
   */
  function CleanCurrencyCell(c: Cell): (r: Option<Cell>)
    ensures r.None? <==> c.Text? && CurrencyValue(c.s).None?
    ensures r.Some? ==> !r.value.Text?
  {
    match c
    case Text(s) =>
      (match CurrencyValue(s)
       case Some(v) => Some(Number(v))
       case None => None)
    case Number(_) => Some(c)
    case Missing => Some(c)
  }

  /** A dollar amount with thousands separators, as in `$12,345`. */
  function Grouped(n: nat): (r: string)
    decreases n
  {
    if n < 1000 then NatToDigits(n) else Grouped(n / 1000) + "," + PaddedDigits(n % 1000, 3)
  }

  /** A price as the listings file writes it: `$`, grouped dollars, a point and the decimals. */
  function PriceText(dollars: nat, decimals: string): string {
    "$" + Grouped(dollars) + "." + decimals
  }

  /** The amount such a price stands for. */
  function PriceValue(dollars: nat, decimals: string): real
    requires AllDigits(decimals)
  {
    dollars as real + Fraction(decimals)
  }

  /** Stripping `high,low` where `low` is plain digits removes just the comma. */
  lemma StripAroundComma(high: string, low: string)
    requires AllDigits(low)
    ensures StripCurrency(high + "," + low) == StripCurrency(high) + low
  {
    var a := high + ",";
    StripCurrencyConcat(a, low);
    StripCurrencyConcat(high, ",");
    assert StripCurrency(",") == [];
    assert StripCurrency(a) == StripCurrency(high);
    forall i | 0 <= i < |low| ensures !IsCurrencyMark(low[i]) {
      assert IsDigit(low[i]);
    }
    StripCurrencyNoOp(low);
  }

  /** Stripping the separators from a grouped amount leaves its plain digits. */
  lemma {:induction false} GroupedStripped(n: nat)
    ensures AllDigits(StripCurrency(Grouped(n))) && |StripCurrency(Grouped(n))| > 0
    ensures DigitsValue(StripCurrency(Grouped(n))) == n
    decreases n
  {
    if n < 1000 {
      StripCurrencyNoOp(NatToDigits(n));
      NatToDigitsValue(n);
    } else {
      var high := Grouped(n / 1000);
      var low := PaddedDigits(n % 1000, 3);
      GroupedStripped(n / 1000);
      StripAroundComma(high, low);
      var digits := StripCurrency(high);
      DigitsValueConcat(digits, low);
      PaddedDigitsValue(n % 1000, 3);
      assert Pow10(3) == 1000;
    }
  }

  /** A whole-dollar price such as `$1,234` cleans to its amount. */
  lemma WholeDollarsClean(n: nat)
    ensures CleanCurrencyCell(Text("$" + Grouped(n))) == Some(Number(n as real))
  {
    StripCurrencyConcat("$", Grouped(n));
    assert StripCurrency("$") == [];
    GroupedStripped(n);
    var t := StripCurrency(Grouped(n));
    assert IsDigit(t[0]) && IsDigit(t[|t| - 1]);
    TrimNoOp(t, IsAsciiSpace);
    ParseWhole(t);
  }

  /** A point followed by digits has nothing to strip. */
  lemma PointDecimalsKept(decimals: string)
    requires AllDigits(decimals)
    ensures StripCurrency("." + decimals) == "." + decimals
  {
    var tail := "." + decimals;
    forall i | 0 <= i < |tail| ensures !IsCurrencyMark(tail[i]) {
      if i > 0 {
        assert tail[i] == decimals[i - 1];
      }
    }
    StripCurrencyNoOp(tail);
  }

  /** A whole-dollar price written with a trailing space, as in `$966 `, cleans to its amount too. */
  lemma WholeDollarsTrailingSpace(n: nat)
    ensures CleanCurrencyCell(Text("$" + Grouped(n) + " ")) == Some(Number(n as real))
  {
    var g := Grouped(n);
    assert "$" + g + " " == "$" + (g + " ");
    StripCurrencyConcat("$", g + " ");
    assert StripCurrency("$") == [];
    StripCurrencyConcat(g, " ");
    assert StripCurrency(" ") == " ";
    GroupedStripped(n);
    var t := StripCurrency(g);
    assert IsDigit(t[0]) && IsDigit(t[|t| - 1]);
    TrimSpaceAfter(t, IsAsciiSpace);
    ParseWhole(t);
  }

  /** Stripping a price with decimals leaves the plain dollar digits, the point and the decimals. */
  lemma PriceStripped(n: nat, decimals: string)
    requires AllDigits(decimals)
    ensures StripCurrency(PriceText(n, decimals)) == StripCurrency(Grouped(n)) + "." + decimals
  {
    var g := Grouped(n);
    var digits := StripCurrency(g);
    var tail := "." + decimals;
    assert digits + "." + decimals == digits + tail;
    assert PriceText(n, decimals) == "$" + (g + tail);
    assert StripCurrency("$") == [];
    StripCurrencyConcat("$", g + tail);
    PointDecimalsKept(decimals);
    StripCurrencyConcat(g, tail);
  }

  /** The stripped digits of a price with decimals parse to its amount. */
  lemma PriceDigitsParse(n: nat, decimals: string)
    requires AllDigits(decimals)
    ensures ParseDecimal(StripCurrency(Grouped(n)) + "." + decimals) == Some(PriceValue(n, decimals))
  {
    var digits := StripCurrency(Grouped(n));
    GroupedStripped(n);
    assert (digits + "." + decimals)[0] == digits[0];
    UnsignedText(digits + "." + decimals);
    ParseUnsignedPoint(digits, decimals);
  }

  /** The stripped form of a price with decimals parses to its amount. */
  lemma PriceParse(n: nat, decimals: string)
    requires AllDigits(decimals)
    ensures CurrencyValue(PriceText(n, decimals)) == Some(PriceValue(n, decimals))
  {
    var t := StripCurrency(Grouped(n)) + "." + decimals;
    PriceStripped(n, decimals);
    GroupedStripped(n);
    assert IsDigit(t[0]);
    assert IsDigit(t[|t| - 1]) || t[|t| - 1] == '.';
    TrimNoOp(t, IsAsciiSpace);
    PriceDigitsParse(n, decimals);
  }

  /** A price with decimals such as `$1,234.50` cleans to its amount. */
  lemma PriceClean(n: nat, decimals: string)
    requires AllDigits(decimals)
    ensures CleanCurrencyCell(Text(PriceText(n, decimals))) == Some(Number(PriceValue(n, decimals)))
  {
    PriceParse(n, decimals);
  }

  /** `1234` is written `1,234`. */
  lemma GroupedThousands()
    ensures Grouped(1234) == "1,234"
  {
    assert Grouped(1) == NatToDigits(1) == "1";
    assert PaddedDigits(2, 1) == PaddedDigits(0, 0) + "2" == "2";
    assert PaddedDigits(23, 2) == "2" + "3";
    assert PaddedDigits(234, 3) == "23" + "4";
    assert Grouped(1234) == Grouped(1) + "," + PaddedDigits(234, 3);
  }

  /** The listings file's `$1,234.50` becomes the number 1234.5. */
  lemma ListingPrice()
    ensures CleanCurrencyCell(Text("$1,234.50")) == Some(Number(1234.5))
  {
    GroupedThousands();
    assert PriceText(1234, "50") == "$1,234.50";
    assert Fraction("50") == 0.5;
    PriceClean(1234, "50");
  }

  /** A character no decimal contains: not a digit, a point, a sign or ASCII whitespace. */
  predicate NotNumeric(c: char) {
    !IsDigit(c) && c != '.' && c != '+' && c != '-' && !IsAsciiSpace(c)
  }

  /** Text holding a character that is not numeric is no decimal. */
  lemma NotNumericUnparsed(u: string, m: nat)
    requires m < |u| && NotNumeric(u[m])
    ensures ParseDecimal(u).None?
  {
    if ParseDecimal(u).Some? {
      ParsedCharacters(u);
      assert false;
    }
  }

  /**
   * A character that is not numeric and not `$` or `,` makes the currency
   * step fail (`astype(float)` raises), so the run stops.
   */
  lemma NotNumericFails(s: string, i: nat)
    requires i < |s| && NotNumeric(s[i]) && !IsCurrencyMark(s[i])
    ensures CleanCurrencyCell(Text(s)) == None
  {
    var t := StripCurrency(s);
    assert s[i] in t;
    var j :| 0 <= j < |t| && t[j] == s[i];
    var u := Trim(t, IsAsciiSpace);
    TrimKeeps(t, j, IsAsciiSpace);
    var m :| 0 <= m < |u| && u[m] == s[i];
    NotNumericUnparsed(u, m);
  }

  /**
   * `float()` does not skip the information separators that `str.strip()`
   * removes, so a price that starts with 0x1C makes the step fail.
   */
  lemma SeparatorFails()
    ensures CleanCurrencyCell(Text([28 as char, '5'])) == None
  {
    NotNumericFails([28 as char, '5'], 0);
  }

  // ------------------------------------------------------ numeric coercion

  /**
   * `pd.to_numeric(..., errors="coerce")` on one cell: a string that parses
   * becomes that number, one that does not becomes missing; numbers and
   * missing values are kept.
   */
  function CoerceCell(c: Cell): (r: Cell)
    ensures !r.Text?
    ensures c.Text? ==> (r.Number? <==> FloatValue(c.s).Some?)
    ensures c.Text? && FloatValue(c.s).Some? ==> r == Number(FloatValue(c.s).value)
    ensures !c.Text? ==> r == c
  {
    match c
    case Text(s) =>
      (match FloatValue(s)
       case Some(v) => Number(v)
       case None => Missing)
    case _ => c
  }

  /** Coercion never fails, and coercing again changes nothing. */
  lemma CoerceIdempotent(c: Cell)
    ensures CoerceCell(CoerceCell(c)) == CoerceCell(c)
  {
  }

  // ----------------------------------------------------------- days_booked

  const DAYS_IN_YEAR: real := 365.0

  /**
   * `365 - availability_365` on one cell: a number gives the booked days, a
   * missing value stays missing, and a string is a type error.
   */
  function DaysBookedCell(c: Cell): (r: Option<Cell>)
    ensures r.None? <==> c.Text?
    ensures c.Missing? ==> r == Some(Missing)
    ensures c.Number? ==> r.Some? && r.value.Number? && r.value.v + c.v == DAYS_IN_YEAR
    ensures c.Number? && 0.0 <= c.v <= DAYS_IN_YEAR ==> 0.0 <= r.value.v <= DAYS_IN_YEAR
  {
    match c
    case Number(a) => Some(Number(DAYS_IN_YEAR - a))
    case Missing => Some(Missing)
    case Text(_) => None
  }

  // ---------------------------------------------------------- host labels

  /** `str(x).lower() == "t"`: the string form of every number has a digit or is `nan`/`inf`, never `t`. */
  predicate IsTrueFlag(c: Cell) {
    match c
    case Text(s) => Lower(s) == "t"
    case Number(_) => false
    case Missing => Lower(MISSING_TEXT) == "t"
  }

  /** Exactly the cells `t` and `T` are true flags; missing values are not. */
  lemma TrueFlagCells(c: Cell)
    ensures IsTrueFlag(c) <==> c == Text("t") || c == Text("T")
  {
    if c.Text? && Lower(c.s) == "t" {
      assert LowerChar(c.s[0]) == 't';
      assert c.s == [c.s[0]];
    }
    if c.Missing? {
      assert Lower(MISSING_TEXT)[0] == 'n';
    }
  }

  /** The label of airbnb.py line 126. */
  function SuperhostLabel(c: Cell): (r: Cell)
    ensures r == Text("Superhost") || r == Text("Regular Host")
    ensures r == Text("Superhost") <==> IsTrueFlag(c)
  {
    Text(if IsTrueFlag(c) then "Superhost" else "Regular Host")
  }

  /** The label of airbnb.py line 265, which later overwrites the first one. */
  function VerifiedLabel(c: Cell): (r: Cell)
    ensures r == Text("Verified Host") || r == Text("Non-Verified Host")
    ensures r == Text("Verified Host") <==> IsTrueFlag(c)
  {
    Text(if IsTrueFlag(c) then "Verified Host" else "Non-Verified Host")
  }
}
