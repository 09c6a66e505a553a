/**
 * Duplicate-row removal (airbnb.py line 76): `DataFrame.drop_duplicates()`
 * with its default `keep="first"` compares whole rows and keeps the first
 * row of every group of equal rows, in the original order. Two missing
 * cells compare equal there, as `Missing == Missing` does here.
 */
module Dedup {

  /** Keep-first de-duplication, built by appending each row that has not been seen before. */
  function DropDuplicates<T(==)>(s: seq<T>): (r: seq<T>)
    ensures |r| <= |s|
    ensures forall i :: 0 <= i < |r| ==> r[i] in s
    ensures forall i :: 0 <= i < |s| ==> s[i] in r
    decreases |s|
  {
    if s == [] then []
    else
      var d := DropDuplicates(s[..|s| - 1]);
      if s[|s| - 1] in d then d else d + [s[|s| - 1]]
  }

  /** No two entries are equal. */
  predicate NoDuplicates<T(==)>(s: seq<T>) {
    forall i, j :: 0 <= i < j < |s| ==> s[i] != s[j]
  }

  /** The position of the first occurrence of `x`. */
  function FirstIndex<T(==)>(s: seq<T>, x: T): (k: nat)
    requires x in s
    ensures k < |s| && s[k] == x
    ensures forall j :: 0 <= j < k ==> s[j] != x
  {
    if s[0] == x then 0 else 1 + FirstIndex(s[1..], x)
  }

  /**
   * The scan pandas performs: walk the rows front to back with the set of
   * rows already seen, and keep a row only when it is not in that set.
   */
  function Scan<T(==)>(s: seq<T>, seen: set<T>): (r: seq<T>)
    ensures |r| <= |s|
    ensures forall i :: 0 <= i < |r| ==> r[i] !in seen
    decreases |s|
  {
    if s == [] then []
    else if s[0] in seen then Scan(s[1..], seen)
    else [s[0]] + Scan(s[1..], seen + {s[0]})
  }

  /** Scanning one more row appends it exactly when it is new. */
  lemma {:induction false} ScanAppend<T>(s: seq<T>, x: T, seen: set<T>)
    ensures Scan(s + [x], seen) == Scan(s, seen) + (if x in seen || x in s then [] else [x])
    decreases |s|
  {
    if s == [] {
      assert s + [x] == [x];
    } else {
      assert (s + [x])[1..] == s[1..] + [x];
      if s[0] in seen {
        ScanAppend(s[1..], x, seen);
      } else {
        ScanAppend(s[1..], x, seen + {s[0]});
      }
    }
  }

  /** The appending definition agrees with the front-to-back scan. */
  lemma {:induction false} DropDuplicatesIsScan<T>(s: seq<T>)
    ensures DropDuplicates(s) == Scan(s, {})
    decreases |s|
  {
    if s != [] {
      var init, x := s[..|s| - 1], s[|s| - 1];
      assert s == init + [x];
      DropDuplicatesIsScan(init);
      ScanAppend(init, x, {});
    }
  }

  /** The result holds no two equal rows. */
  lemma {:induction false} DropDuplicatesDistinct<T>(s: seq<T>)
    ensures NoDuplicates(DropDuplicates(s))
    decreases |s|
  {
    if s != [] {
      DropDuplicatesDistinct(s[..|s| - 1]);
    }
  }

  /** A sequence without duplicates is left alone. */
  lemma {:induction false} DropDuplicatesNoOp<T>(s: seq<T>)
    requires NoDuplicates(s)
    ensures DropDuplicates(s) == s
    decreases |s|
  {
    if s != [] {
      var init := s[..|s| - 1];
      assert NoDuplicates(init);
      DropDuplicatesNoOp(init);
      assert s[|s| - 1] !in init;
      assert s == init + [s[|s| - 1]];
    }
  }

  /** Removing duplicates a second time changes nothing. */
  lemma DropDuplicatesIdempotent<T>(s: seq<T>)
    ensures DropDuplicates(DropDuplicates(s)) == DropDuplicates(s)
  {
    DropDuplicatesDistinct(s);
    DropDuplicatesNoOp(DropDuplicates(s));
  }

  /** Appending a row does not move the first occurrence of an earlier value. */
  lemma FirstIndexAppend<T>(s: seq<T>, x: T, y: T)
    requires y in s
    ensures FirstIndex(s + [x], y) == FirstIndex(s, y)
  {
    var k := FirstIndex(s, y);
    var k' := FirstIndex(s + [x], y);
    assert (s + [x])[k] == y;
    assert k' < |s| ==> s[k'] == y;
  }

  /**
   * The kept rows are the first occurrences, in the order in which they
   * first occur: of any two kept rows, the earlier one first appears earlier.
   */
  lemma {:induction false} DropDuplicatesOrder<T>(s: seq<T>)
    ensures forall i, j :: 0 <= i < j < |DropDuplicates(s)| ==>
      FirstIndex(s, DropDuplicates(s)[i]) < FirstIndex(s, DropDuplicates(s)[j])
    decreases |s|
  {
    if s != [] {
      var init, x := s[..|s| - 1], s[|s| - 1];
      var d := DropDuplicates(init);
      assert s == init + [x];
      DropDuplicatesOrder(init);
      var r := DropDuplicates(s);
      forall i, j | 0 <= i < j < |r| ensures FirstIndex(s, r[i]) < FirstIndex(s, r[j]) {
        assert r[i] == d[i] && r[i] in init;
        FirstIndexAppend(init, x, r[i]);
        if j < |d| {
          assert r[j] == d[j] && r[j] in init;
          FirstIndexAppend(init, x, r[j]);
          assert FirstIndex(init, d[i]) < FirstIndex(init, d[j]);
        } else {
          assert r[j] == x && x !in init;
          assert FirstIndex(s, x) == |init|;
        }
      }
    }
  }
}
