/**
 * ASCII string operations behind the pandas `.str` accessor calls of the
 * header clean-up: `lower`, `strip`, and literal (non-regex) `replace`.
 */
module Text {

  /** An ASCII upper-case letter. */
  predicate IsUpper(c: char) {
    'A' <= c <= 'Z'
  }

  /**
   * The characters Python's `str.strip()` removes, restricted to ASCII:
   * tab, line feed, vertical tab, form feed, carriage return, the four
   * information separators 0x1C..0x1F, and space.
   */
  predicate IsSpace(c: char) {
    9 <= c as int <= 13 || 28 <= c as int <= 32
  }

  function LowerChar(c: char): (r: char)
    ensures !IsUpper(r)
    ensures IsUpper(c) ==> r as int == c as int + 32
    ensures !IsUpper(c) ==> r == c
  {
    if IsUpper(c) then (c as int + 32) as char else c
  }

  /** `str.lower()` on ASCII text: every upper-case letter becomes its lower-case form. */
  function Lower(s: string): (r: string)
    ensures |r| == |s|
    ensures forall i :: 0 <= i < |s| ==> r[i] == LowerChar(s[i])
  {
    seq(|s|, i requires 0 <= i < |s| => LowerChar(s[i]))
  }

  /**
   * The whitespace of C's `isspace`: tab, line feed, vertical tab, form feed,
   * carriage return and space. Python's `float()` and pandas' number parser
   * skip only these around a number.
   */
  predicate IsAsciiSpace(c: char) {
    9 <= c as int <= 13 || c == ' '
  }

  /** Leading characters satisfying `blank` removed. */
  function TrimLeft(s: string, blank: char -> bool): (r: string)
    ensures |r| <= |s| && r == s[|s| - |r|..]
    ensures forall k :: 0 <= k < |s| - |r| ==> blank(s[k])
    ensures r == [] || !blank(r[0])
  {
    if |s| > 0 && blank(s[0]) then TrimLeft(s[1..], blank) else s
  }

  /** Trailing characters satisfying `blank` removed. */
  function TrimRight(s: string, blank: char -> bool): (r: string)
    ensures |r| <= |s| && r == s[..|r|]
    ensures forall k :: |r| <= k < |s| ==> blank(s[k])
    ensures r == [] || !blank(r[|r| - 1])
  {
    if |s| > 0 && blank(s[|s| - 1]) then TrimRight(s[..|s| - 1], blank) else s
  }

  /** Characters satisfying `blank` removed from both ends. */
  function Trim(s: string, blank: char -> bool): string {
    TrimRight(TrimLeft(s, blank), blank)
  }

  /** `str.strip()`: whitespace removed from both ends. */
  function Strip(s: string): string {
    Trim(s, IsSpace)
  }

  /** The result of `Trim` neither starts nor ends with a blank. */
  lemma TrimEnds(s: string, blank: char -> bool)
    ensures var r := Trim(s, blank); r == [] || (!blank(r[0]) && !blank(r[|r| - 1]))
  {
    var l := TrimLeft(s, blank);
    var r := TrimRight(l, blank);
    if r != [] {
      assert r[0] == l[0];
    }
  }

  /** One trailing space is trimmed from text that has no blank at either end. */
  lemma TrimSpaceAfter(t: string, blank: char -> bool)
    requires blank(' ')
    requires t != [] && !blank(t[0]) && !blank(t[|t| - 1])
    ensures Trim(t + " ", blank) == t
  {
    var s := t + " ";
    assert TrimLeft(s, blank) == s;
    assert s[..|s| - 1] == t;
    assert TrimRight(s, blank) == TrimRight(t, blank) == t;
  }

  /** A character that is not blank survives `Trim`. */
  lemma TrimKeeps(s: string, i: nat, blank: char -> bool)
    requires i < |s| && !blank(s[i])
    ensures s[i] in Trim(s, blank)
  {
    var l := TrimLeft(s, blank);
    var j := i - (|s| - |l|);
    assert 0 <= j < |l| && l[j] == s[i];
    var r := TrimRight(l, blank);
    assert j < |r| && r[j] == l[j];
  }

  /** Trimming text that has no upper-case letter leaves none. */
  lemma TrimNoUpper(s: string, blank: char -> bool)
    requires forall i :: 0 <= i < |s| ==> !IsUpper(s[i])
    ensures forall i :: 0 <= i < |Trim(s, blank)| ==> !IsUpper(Trim(s, blank)[i])
  {
    var l := TrimLeft(s, blank);
    assert forall i :: 0 <= i < |l| ==> !IsUpper(l[i]);
    var b := TrimRight(l, blank);
    assert forall i :: 0 <= i < |b| ==> !IsUpper(b[i]);
  }

  /** Text that has no blank at either end is left alone by `Trim`. */
  lemma TrimNoOp(s: string, blank: char -> bool)
    requires s == [] || (!blank(s[0]) && !blank(s[|s| - 1]))
    ensures Trim(s, blank) == s
  {
  }

  /** `Lower` leaves text with no upper-case letter unchanged. */
  lemma LowerNoOp(s: string)
    requires forall i :: 0 <= i < |s| ==> !IsUpper(s[i])
    ensures Lower(s) == s
  {
  }

  /** `str.replace(from, to)` for a one-character pattern: every `from` becomes `to`. */
  function ReplaceChar(s: string, from: char, to: char): (r: string)
    ensures |r| == |s|
    ensures forall i :: 0 <= i < |s| ==> r[i] == if s[i] == from then to else s[i]
  {
    seq(|s|, i requires 0 <= i < |s| => if s[i] == from then to else s[i])
  }

  /** `pat` occurs in `s` starting at position `p`. */
  predicate MatchesAt(s: string, pat: string, p: int) {
    0 <= p && p + |pat| <= |s| && s[p..p + |pat|] == pat
  }

  /** `pat` occurs nowhere in `s`. */
  predicate Absent(s: string, pat: string) {
    forall p :: 0 <= p <= |s| - |pat| ==> !MatchesAt(s, pat, p)
  }

  /**
   * `str.replace(pat, rep)`: scanning left to right, every occurrence of
   * `pat` that does not overlap an earlier replaced one becomes `rep`.
   */
  function ReplaceAll(s: string, pat: string, rep: string): string
    requires |pat| > 0
    decreases |s|
  {
    if |s| < |pat| then s
    else if MatchesAt(s, pat, 0) then rep + ReplaceAll(s[|pat|..], pat, rep)
    else [s[0]] + ReplaceAll(s[1..], pat, rep)
  }

  /** A property every character of the text and of `rep` has, every character of the replaced text has. */
  lemma {:induction false} ReplaceAllKeeps(s: string, pat: string, rep: string, ok: char -> bool)
    requires |pat| > 0
    requires forall k :: 0 <= k < |s| ==> ok(s[k])
    requires forall k :: 0 <= k < |rep| ==> ok(rep[k])
    ensures forall k :: 0 <= k < |ReplaceAll(s, pat, rep)| ==> ok(ReplaceAll(s, pat, rep)[k])
    decreases |s|
  {
    if |s| < |pat| {
    } else if MatchesAt(s, pat, 0) {
      var t := ReplaceAll(s[|pat|..], pat, rep);
      ReplaceAllKeeps(s[|pat|..], pat, rep, ok);
      assert ReplaceAll(s, pat, rep) == rep + t;
    } else {
      var t := ReplaceAll(s[1..], pat, rep);
      ReplaceAllKeeps(s[1..], pat, rep, ok);
      assert ReplaceAll(s, pat, rep) == [s[0]] + t;
    }
  }

  /**
   * The replaced text is empty exactly when the original is, and its first and
   * last characters are those of the original or of `rep`.
   */
  lemma {:induction false} ReplaceAllEnds(s: string, pat: string, rep: string)
    requires |pat| > 0 && |rep| > 0 && |s| > 0
    ensures var r := ReplaceAll(s, pat, rep);
      |r| > 0 && (r[0] == s[0] || r[0] == rep[0])
      && (r[|r| - 1] == s[|s| - 1] || r[|r| - 1] == rep[|rep| - 1])
    decreases |s|
  {
    if |s| < |pat| {
    } else if MatchesAt(s, pat, 0) {
      var rest := s[|pat|..];
      if |rest| > 0 {
        ReplaceAllEnds(rest, pat, rep);
      } else {
        assert ReplaceAll(rest, pat, rep) == [];
      }
    } else if |s| > 1 {
      ReplaceAllEnds(s[1..], pat, rep);
    } else {
      assert ReplaceAll(s[1..], pat, rep) == [];
    }
  }

  /** Text in which `pat` does not occur is left alone by `ReplaceAll`. */
  lemma {:induction false} ReplaceAllNoOp(s: string, pat: string, rep: string)
    requires |pat| > 0 && Absent(s, pat)
    ensures ReplaceAll(s, pat, rep) == s
    decreases |s|
  {
    if |s| < |pat| {
    } else {
      assert !MatchesAt(s, pat, 0);
      forall p | 0 <= p <= |s[1..]| - |pat| ensures !MatchesAt(s[1..], pat, p) {
        if MatchesAt(s[1..], pat, p) {
          assert s[1..][p..p + |pat|] == s[p + 1..p + 1 + |pat|];
          assert MatchesAt(s, pat, p + 1);
        }
      }
      ReplaceAllNoOp(s[1..], pat, rep);
    }
  }

  /** Text that starts with `pat` is replaced into text that starts with `rep`. */
  lemma ReplacementFirst(x: string, pat: string, rep: string)
    requires |pat| > 0 && |rep| > 0 && MatchesAt(x, pat, 0)
    ensures |ReplaceAll(x, pat, rep)| > 0 && ReplaceAll(x, pat, rep)[0] == rep[0]
  {
  }

  /**
   * When the replaced text begins with `w` and no character of `w` can start
   * a replacement, the original text begins with `w` as well: those characters
   * were copied, not produced by `rep`.
   */
  lemma {:induction false} CopiedPrefix(x: string, pat: string, rep: string, w: string)
    requires |pat| > 0 && |rep| > 0
    requires forall k :: 0 <= k < |w| ==> w[k] != rep[0]
    requires |w| <= |ReplaceAll(x, pat, rep)| && ReplaceAll(x, pat, rep)[..|w|] == w
    ensures |w| <= |x| && x[..|w|] == w
    decreases |w|
  {
    if |w| == 0 || |x| < |pat| {
    } else if MatchesAt(x, pat, 0) {
      ReplacementFirst(x, pat, rep);
      assert false;
    } else {
      var t := ReplaceAll(x[1..], pat, rep);
      assert ReplaceAll(x, pat, rep) == [x[0]] + t;
      assert t[..|w| - 1] == w[1..];
      CopiedPrefix(x[1..], pat, rep, w[1..]);
      assert x[..|w|] == [x[0]] + x[1..][..|w| - 1];
    }
  }
}
