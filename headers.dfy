/**
 * Column-name clean-up (airbnb.py lines 42-48): each header is lower-cased,
 * stripped, has its spaces turned into underscores, and has the British
 * spelling `neighbourhood` folded onto `neighborhood`.
 */
module Headers {
  import opened Text

  const MISSPELT := "neighbourhood"
  const CANONICAL := "neighborhood"

  /** The first three steps: lower-case, strip, and spaces turned into underscores. */
  function Prepared(name: string): string {
    ReplaceChar(Strip(Lower(name)), ' ', '_')
  }

  /** The four-step normalisation of one column name, in the order the script applies it. */
  function NormalizeName(name: string): string {
    ReplaceAll(Prepared(name), MISSPELT, CANONICAL)
  }

  /** `df.columns = df.columns.str...`: every name is normalised, and the order is kept. */
  function NormalizeHeaders(columns: seq<string>): (r: seq<string>)
    ensures |r| == |columns|
    ensures forall j :: 0 <= j < |columns| ==> r[j] == NormalizeName(columns[j])
  {
    seq(|columns|, j requires 0 <= j < |columns| => NormalizeName(columns[j]))
  }

  /** What every normalised name satisfies. */
  predicate IsNormalized(name: string) {
    && (forall i :: 0 <= i < |name| ==> !IsUpper(name[i]) && name[i] != ' ')
    && (name == [] || (!IsSpace(name[0]) && !IsSpace(name[|name| - 1])))
    && Absent(name, MISSPELT)
  }

  /**
   * The last replacement cannot create a new `neighbourhood`: no occurrence
   * can start inside an inserted `neighborhood`, and one starting in copied
   * text would have been replaced by the left-to-right scan.
   */
  lemma {:induction false} NoMisspellingLeft(s: string)
    ensures Absent(ReplaceAll(s, MISSPELT, CANONICAL), MISSPELT)
    decreases |s|
  {
    var r := ReplaceAll(s, MISSPELT, CANONICAL);
    if |s| < |MISSPELT| {
    } else if MatchesAt(s, MISSPELT, 0) {
      var t := ReplaceAll(s[|MISSPELT|..], MISSPELT, CANONICAL);
      NoMisspellingLeft(s[|MISSPELT|..]);
      assert r == CANONICAL + t;
      forall p | 0 <= p <= |r| - |MISSPELT| ensures !MatchesAt(r, MISSPELT, p) {
        if p >= |CANONICAL| {
          assert r[p..p + |MISSPELT|] == t[p - |CANONICAL|..p - |CANONICAL| + |MISSPELT|];
          assert !MatchesAt(t, MISSPELT, p - |CANONICAL|);
        } else if p == 0 {
          assert r[7] == 'r' && MISSPELT[7] == 'u';
          assert r[p..p + |MISSPELT|][7] == r[7];
        } else {
          assert r[p] == CANONICAL[p] != 'n';
          assert r[p..p + |MISSPELT|][0] == r[p];
        }
      }
    } else {
      var t := ReplaceAll(s[1..], MISSPELT, CANONICAL);
      NoMisspellingLeft(s[1..]);
      assert r == [s[0]] + t;
      forall p | 0 <= p <= |r| - |MISSPELT| ensures !MatchesAt(r, MISSPELT, p) {
        if p >= 1 {
          assert r[p..p + |MISSPELT|] == t[p - 1..p - 1 + |MISSPELT|];
          assert !MatchesAt(t, MISSPELT, p - 1);
        } else if MatchesAt(r, MISSPELT, 0) {
          var w := MISSPELT[1..];
          assert t[..|w|] == r[1..|MISSPELT|] == w;
          CopiedPrefix(s[1..], MISSPELT, CANONICAL, w);
          assert false;
        }
      }
    }
  }

  /** The name before the last replacement has no upper-case letter and no space. */
  lemma PreparedChars(name: string)
    ensures var c := Prepared(name); forall i :: 0 <= i < |c| ==> LowerNoSpace(c[i])
  {
    var l := Lower(name);
    var t := Strip(l);
    TrimNoUpper(l, IsSpace);
    var c := ReplaceChar(t, ' ', '_');
    assert c == Prepared(name);
    forall i | 0 <= i < |c| ensures LowerNoSpace(c[i]) {
      assert !IsUpper(t[i]);
    }
  }

  /** The name before the last replacement has no whitespace at either end. */
  lemma PreparedEnds(name: string)
    ensures var c := Prepared(name); c == [] || (!IsSpace(c[0]) && !IsSpace(c[|c| - 1]))
  {
    var l := Lower(name);
    TrimEnds(l, IsSpace);
  }

  /** The name before the last replacement has no upper-case letter, no space and no surrounding whitespace. */
  lemma PreparedProperties(name: string)
    ensures var c := Prepared(name);
      && (forall i :: 0 <= i < |c| ==> LowerNoSpace(c[i]))
      && (c == [] || (!IsSpace(c[0]) && !IsSpace(c[|c| - 1])))
  {
    PreparedChars(name);
    PreparedEnds(name);
  }

  /** Neither an upper-case letter nor a space. */
  predicate LowerNoSpace(ch: char) {
    !IsUpper(ch) && ch != ' '
  }

  /** The replacement `neighborhood` has no upper-case letter and no space. */
  lemma CanonicalChars()
    ensures forall k :: 0 <= k < |CANONICAL| ==> LowerNoSpace(CANONICAL[k])
  {
    assert CANONICAL == ['n', 'e', 'i', 'g', 'h', 'b', 'o', 'r', 'h', 'o', 'o', 'd'];
  }

  /** Folding keeps the letters lower-case and the spaces out. */
  lemma NormalizedChars(name: string)
    ensures var r := NormalizeName(name); forall i :: 0 <= i < |r| ==> !IsUpper(r[i]) && r[i] != ' '
  {
    var c := Prepared(name);
    PreparedProperties(name);
    CanonicalChars();
    ReplaceAllKeeps(c, MISSPELT, CANONICAL, LowerNoSpace);
    assert NormalizeName(name) == ReplaceAll(c, MISSPELT, CANONICAL);
  }

  /** Folding puts no whitespace at either end. */
  lemma NormalizedEnds(name: string)
    ensures var r := NormalizeName(name); r == [] || (!IsSpace(r[0]) && !IsSpace(r[|r| - 1]))
  {
    var c := Prepared(name);
    PreparedProperties(name);
    if |c| > 0 {
      ReplaceAllEnds(c, MISSPELT, CANONICAL);
    } else {
      assert ReplaceAll(c, MISSPELT, CANONICAL) == [];
    }
  }

  /** Every normalised name has no upper-case letter, no space, no surrounding whitespace and no `neighbourhood`. */
  lemma NormalizedNameProperties(name: string)
    ensures IsNormalized(NormalizeName(name))
  {
    NormalizedChars(name);
    NormalizedEnds(name);
    NoMisspellingLeft(Prepared(name));
  }

  /** Every name of normalised headers is in normalised form. */
  lemma NormalizedHeadersProperties(columns: seq<string>)
    ensures forall n :: n in NormalizeHeaders(columns) ==> IsNormalized(n)
  {
    var r := NormalizeHeaders(columns);
    forall j | 0 <= j < |r| ensures IsNormalized(r[j]) {
      NormalizedNameProperties(columns[j]);
    }
  }

  /** Normalising an already normalised name changes nothing. */
  lemma NormalizedNameFixed(name: string)
    requires IsNormalized(name)
    ensures NormalizeName(name) == name
  {
    LowerNoOp(name);
    TrimNoOp(name, IsSpace);
    assert ReplaceChar(name, ' ', '_') == name;
    ReplaceAllNoOp(name, MISSPELT, CANONICAL);
  }

  /** Header normalisation is idempotent. */
  lemma NormalizeHeadersIdempotent(columns: seq<string>)
    ensures NormalizeHeaders(NormalizeHeaders(columns)) == NormalizeHeaders(columns)
  {
    forall j | 0 <= j < |columns| ensures NormalizeName(NormalizeName(columns[j])) == NormalizeName(columns[j]) {
      NormalizedNameProperties(columns[j]);
      NormalizedNameFixed(NormalizeName(columns[j]));
    }
  }

  /** Headers that are all in normalised form are left as they are. */
  lemma NormalizedHeadersFixed(columns: seq<string>)
    requires forall n :: n in columns ==> IsNormalized(n)
    ensures NormalizeHeaders(columns) == columns
  {
    forall j | 0 <= j < |columns| ensures NormalizeName(columns[j]) == columns[j] {
      NormalizedNameFixed(columns[j]);
    }
  }
}
