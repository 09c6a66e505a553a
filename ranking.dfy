/**
 * Top-10 and bottom-10 neighbourhoods by mean price (airbnb.py lines
 * 165-166): `nlargest(10, "price")` and `nsmallest(10, "price")` on the
 * table of per-neighbourhood means. The mean itself is abstracted to an
 * integer key; a neighbourhood without any price has a missing mean. Such
 * rows rank after every present mean, so they are left out here; pandas
 * would return them only to fill places when fewer than `n` means are present.
 */
module Ranking {
  import opened Wrappers

  /** One row of the grouped table: a neighbourhood and its mean price. */
  datatype Group = Group(name: string, mean: Option<int>)

  /** A group whose mean is present. */
  datatype Ranked = Ranked(name: string, key: int)

  /** The direction of a selection: `nlargest` or `nsmallest`. */
  datatype Order = Largest | Smallest

  /** Key `a` ranks strictly ahead of key `b`. */
  predicate Ahead(a: int, b: int, o: Order) {
    match o
    case Largest => a > b
    case Smallest => a < b
  }

  /** The groups with a present mean, in their original order. */
  function Present(gs: seq<Group>): (r: seq<Ranked>)
    ensures |r| <= |gs|
  {
    if gs == [] then []
    else
      (match gs[0].mean
       case Some(k) => [Ranked(gs[0].name, k)]
       case None => [])
      + Present(gs[1..])
  }

  /** A ranked entry comes exactly from a group with that name and a present mean. */
  lemma {:induction false} PresentMembers(gs: seq<Group>, name: string, key: int)
    ensures Ranked(name, key) in Present(gs) <==> Group(name, Some(key)) in gs
    decreases |gs|
  {
    if gs != [] {
      PresentMembers(gs[1..], name, key);
      assert gs == [gs[0]] + gs[1..];
    }
  }

  /** The position of the first best key, found by a scan that moves only to a strictly better key. */
  function BestIndex(s: seq<Ranked>, o: Order): (m: nat)
    requires |s| > 0
    ensures m < |s|
    decreases |s|
  {
    if |s| == 1 then 0
    else
      var m := BestIndex(s[..|s| - 1], o);
      if Ahead(s[|s| - 1].key, s[m].key, o) then |s| - 1 else m
  }

  /** Nothing ranks ahead of the entry at `BestIndex`, and it ranks ahead of everything before it. */
  lemma {:induction false} BestIndexBest(s: seq<Ranked>, o: Order)
    requires |s| > 0
    ensures forall j :: 0 <= j < |s| ==> !Ahead(s[j].key, s[BestIndex(s, o)].key, o)
    ensures forall j :: 0 <= j < BestIndex(s, o) ==> Ahead(s[BestIndex(s, o)].key, s[j].key, o)
    decreases |s|
  {
    if |s| > 1 {
      var init := s[..|s| - 1];
      BestIndexBest(init, o);
      assert forall j :: 0 <= j < |init| ==> init[j] == s[j];
    }
  }

  /** The sequence without its element at `m`. */
  function RemoveAt(s: seq<Ranked>, m: nat): (r: seq<Ranked>)
    requires m < |s|
    ensures |r| == |s| - 1
    decreases m
  {
    if m == 0 then s[1..] else [s[0]] + RemoveAt(s[1..], m - 1)
  }

  /**
   * The first `k` groups in rank order: repeatedly take the first best
   * group. Among equal keys the earlier group goes first (`keep="first"`).
   */
  function Select(s: seq<Ranked>, k: nat, o: Order): seq<Ranked>
    decreases k
  {
    if k == 0 || s == [] then []
    else
      var m := BestIndex(s, o);
      [s[m]] + Select(RemoveAt(s, m), k - 1, o)
  }

  /** The groups `Select` leaves out, in their original order. */
  function Rest(s: seq<Ranked>, k: nat, o: Order): seq<Ranked>
    decreases k
  {
    if k == 0 || s == [] then s
    else Rest(RemoveAt(s, BestIndex(s, o)), k - 1, o)
  }

  /** `nlargest(n, "price")`. */
  function NLargest(gs: seq<Group>, n: nat): (r: seq<Ranked>)
    ensures |r| == Min(n, |Present(gs)|)
  {
    SelectLength(Present(gs), n, Largest);
    Select(Present(gs), n, Largest)
  }

  /** `nsmallest(n, "price")`. */
  function NSmallest(gs: seq<Group>, n: nat): (r: seq<Ranked>)
    ensures |r| == Min(n, |Present(gs)|)
  {
    SelectLength(Present(gs), n, Smallest);
    Select(Present(gs), n, Smallest)
  }

  function Min(a: nat, b: nat): nat {
    if a <= b then a else b
  }

  /** A selection holds `min(k, n)` groups. */
  lemma {:induction false} SelectLength(s: seq<Ranked>, k: nat, o: Order)
    ensures |Select(s, k, o)| == Min(k, |s|)
    decreases k
  {
    if k > 0 && s != [] {
      var m := BestIndex(s, o);
      var s' := RemoveAt(s, m);
      SelectLength(s', k - 1, o);
      assert Select(s, k, o) == [s[m]] + Select(s', k - 1, o);
    }
  }

  /** How often `x` occurs in `s`. */
  function Occurrences(s: seq<Ranked>, x: Ranked): nat {
    if s == [] then 0 else (if s[0] == x then 1 else 0) + Occurrences(s[1..], x)
  }

  /** `Occurrences` is the multiplicity in the multiset of the sequence. */
  lemma {:induction false} OccurrencesMultiset(s: seq<Ranked>, x: Ranked)
    ensures Occurrences(s, x) == multiset(s)[x]
    decreases |s|
  {
    if s != [] {
      OccurrencesMultiset(s[1..], x);
      assert s == [s[0]] + s[1..];
    }
  }

  /** Removing an element takes exactly one copy of it out. */
  lemma {:induction false} RemoveAtOccurrences(s: seq<Ranked>, m: nat, x: Ranked)
    requires m < |s|
    ensures Occurrences(s, x) == Occurrences(RemoveAt(s, m), x) + (if s[m] == x then 1 else 0)
    decreases m
  {
    if m > 0 {
      RemoveAtOccurrences(s[1..], m - 1, x);
      assert ([s[0]] + RemoveAt(s[1..], m - 1))[1..] == RemoveAt(s[1..], m - 1);
    }
  }

  lemma OccurrencesCons(a: Ranked, t: seq<Ranked>, x: Ranked)
    ensures Occurrences([a] + t, x) == (if a == x then 1 else 0) + Occurrences(t, x)
  {
    assert ([a] + t)[1..] == t;
  }

  /** Every group is either selected or left out, as often as it occurs in the input. */
  lemma {:induction false} SelectOccurrences(s: seq<Ranked>, k: nat, o: Order, x: Ranked)
    ensures Occurrences(Select(s, k, o), x) + Occurrences(Rest(s, k, o), x) == Occurrences(s, x)
    decreases k
  {
    if k > 0 && s != [] {
      var m := BestIndex(s, o);
      var s' := RemoveAt(s, m);
      var picked := Select(s', k - 1, o);
      assert Select(s, k, o) == [s[m]] + picked;
      assert Rest(s, k, o) == Rest(s', k - 1, o);
      OccurrencesCons(s[m], picked, x);
      SelectOccurrences(s', k - 1, o, x);
      RemoveAtOccurrences(s, m, x);
    }
  }

  /** Together with the rest, a selection is a rearrangement of its input. */
  lemma SelectSplit(s: seq<Ranked>, k: nat, o: Order)
    ensures multiset(Select(s, k, o)) + multiset(Rest(s, k, o)) == multiset(s)
  {
    var picked, left := Select(s, k, o), Rest(s, k, o);
    forall x ensures (multiset(picked) + multiset(left))[x] == multiset(s)[x] {
      SelectOccurrences(s, k, o, x);
      OccurrencesMultiset(picked, x);
      OccurrencesMultiset(left, x);
      OccurrencesMultiset(s, x);
    }
  }

  /** What is left after a removal came from the original sequence. */
  lemma {:induction false} RemoveAtMember(s: seq<Ranked>, m: nat, y: Ranked)
    requires m < |s| && y in RemoveAt(s, m)
    ensures y in s
    decreases m
  {
    if m > 0 && y != s[0] {
      RemoveAtMember(s[1..], m - 1, y);
    }
  }

  /** Selected groups come from the input. */
  lemma {:induction false} SelectedMember(s: seq<Ranked>, k: nat, o: Order, x: Ranked)
    requires x in Select(s, k, o)
    ensures x in s
    decreases k
  {
    var m := BestIndex(s, o);
    var s' := RemoveAt(s, m);
    if x != s[m] {
      assert x in Select(s', k - 1, o);
      SelectedMember(s', k - 1, o, x);
      RemoveAtMember(s, m, x);
    }
  }

  /** Groups left out come from the input. */
  lemma {:induction false} RestMember(s: seq<Ranked>, k: nat, o: Order, y: Ranked)
    requires y in Rest(s, k, o)
    ensures y in s
    decreases k
  {
    if k > 0 && s != [] {
      var m := BestIndex(s, o);
      var s' := RemoveAt(s, m);
      RestMember(s', k - 1, o, y);
      RemoveAtMember(s, m, y);
    }
  }

  /** Nothing in the sequence ranks ahead of the group at `BestIndex`. */
  lemma BestBeats(s: seq<Ranked>, o: Order, y: Ranked)
    requires |s| > 0 && y in s
    ensures !Ahead(y.key, s[BestIndex(s, o)].key, o)
  {
    var q :| 0 <= q < |s| && s[q] == y;
    BestIndexBest(s, o);
  }

  /** The selection is in rank order: no later group ranks ahead of an earlier one. */
  lemma {:induction false} SelectSorted(s: seq<Ranked>, k: nat, o: Order)
    ensures forall i, j :: 0 <= i < j < |Select(s, k, o)| ==> !Ahead(Select(s, k, o)[j].key, Select(s, k, o)[i].key, o)
    decreases k
  {
    if k > 0 && s != [] {
      var m := BestIndex(s, o);
      var s' := RemoveAt(s, m);
      var r := Select(s, k, o);
      var r' := Select(s', k - 1, o);
      assert r == [s[m]] + r';
      SelectSorted(s', k - 1, o);
      forall i, j | 0 <= i < j < |r| ensures !Ahead(r[j].key, r[i].key, o) {
        assert r[j] == r'[j - 1];
        if i == 0 {
          SelectedMember(s', k - 1, o, r[j]);
          RemoveAtMember(s, m, r[j]);
          BestBeats(s, o, r[j]);
        } else {
          assert r[i] == r'[i - 1];
        }
      }
    }
  }

  /** No group left out ranks strictly ahead of a selected one. */
  lemma {:induction false} SelectBeatsRest(s: seq<Ranked>, k: nat, o: Order)
    ensures forall x, y :: x in Select(s, k, o) && y in Rest(s, k, o) ==> !Ahead(y.key, x.key, o)
    decreases k
  {
    if k > 0 && s != [] {
      var m := BestIndex(s, o);
      var s' := RemoveAt(s, m);
      assert Select(s, k, o) == [s[m]] + Select(s', k - 1, o);
      assert Rest(s, k, o) == Rest(s', k - 1, o);
      SelectBeatsRest(s', k - 1, o);
      forall x, y | x in Select(s, k, o) && y in Rest(s, k, o) ensures !Ahead(y.key, x.key, o) {
        if x == s[m] {
          RestMember(s', k - 1, o, y);
          RemoveAtMember(s, m, y);
          BestBeats(s, o, y);
        }
      }
    }
  }

  // ----------------------------------------------------------- disjointness

  /** The number of groups whose key ranks strictly ahead of `v`. */
  function CountAhead(s: seq<Ranked>, v: int, o: Order): nat {
    if s == [] then 0 else (if Ahead(s[0].key, v, o) then 1 else 0) + CountAhead(s[1..], v, o)
  }

  /** The mean prices that occur among the groups. */
  function Keys(s: seq<Ranked>): set<int> {
    if s == [] then {} else {s[0].key} + Keys(s[1..])
  }

  /** The mean prices of the groups ranked strictly ahead of `v`. */
  function KeysAhead(s: seq<Ranked>, v: int, o: Order): set<int> {
    if s == [] then {} else (if Ahead(s[0].key, v, o) then {s[0].key} else {}) + KeysAhead(s[1..], v, o)
  }

  /** There are no more distinct keys ahead of `v` than groups ahead of it. */
  lemma {:induction false} KeysAheadBound(s: seq<Ranked>, v: int, o: Order)
    ensures |KeysAhead(s, v, o)| <= CountAhead(s, v, o)
    decreases |s|
  {
    if s != [] {
      KeysAheadBound(s[1..], v, o);
    }
  }

  /** Every key is ahead of `v` in one direction or the other, or is `v` itself. */
  lemma {:induction false} KeysSplit(s: seq<Ranked>, v: int)
    ensures Keys(s) <= KeysAhead(s, v, Largest) + KeysAhead(s, v, Smallest) + {v}
    decreases |s|
  {
    if s != [] {
      KeysSplit(s[1..], v);
    }
  }

  /** A subset is no larger than its superset. */
  lemma SubsetSize(a: set<int>, b: set<int>)
    requires a <= b
    ensures |a| <= |b|
  {
    assert b == a + (b - a);
    assert a * (b - a) == {};
  }

  /** A selected group has fewer than `k` groups ranked strictly ahead of it. */
  lemma {:induction false} SelectedRank(s: seq<Ranked>, k: nat, o: Order, x: Ranked)
    requires x in Select(s, k, o)
    ensures CountAhead(s, x.key, o) < k
    decreases k
  {
    var m := BestIndex(s, o);
    var s' := RemoveAt(s, m);
    if x == s[m] {
      BestIndexBest(s, o);
      CountAheadNone(s, x.key, o);
    } else {
      SelectedRank(s', k - 1, o, x);
      RemoveAtCount(s, m, x.key, o);
    }
  }

  /** Removing one group lowers the count of groups ahead of `v` by at most one. */
  lemma {:induction false} RemoveAtCount(s: seq<Ranked>, m: nat, v: int, o: Order)
    requires m < |s|
    ensures CountAhead(s, v, o) <= CountAhead(RemoveAt(s, m), v, o) + 1
    decreases m
  {
    if m > 0 {
      RemoveAtCount(s[1..], m - 1, v, o);
      assert ([s[0]] + RemoveAt(s[1..], m - 1))[1..] == RemoveAt(s[1..], m - 1);
    }
  }

  /** Nothing ranks strictly ahead of the best key. */
  lemma {:induction false} CountAheadNone(s: seq<Ranked>, v: int, o: Order)
    requires forall j :: 0 <= j < |s| ==> !Ahead(s[j].key, v, o)
    ensures CountAhead(s, v, o) == 0
    decreases |s|
  {
    if s != [] {
      CountAheadNone(s[1..], v, o);
    }
  }

  /**
   * A group that is both among the `k` best in one direction and among the
   * `k` best in the other leaves fewer than `2k` distinct keys: at most
   * `k - 1` lie above its key, at most `k - 1` below, and one is its own.
   */
  lemma SelectedBothWays(s: seq<Ranked>, k: nat, x: Ranked)
    requires x in Select(s, k, Largest) && x in Select(s, k, Smallest)
    ensures |Keys(s)| < 2 * k
  {
    SelectedRank(s, k, Largest, x);
    SelectedRank(s, k, Smallest, x);
    KeysAheadBound(s, x.key, Largest);
    KeysAheadBound(s, x.key, Smallest);
    KeysSplit(s, x.key);
    SubsetSize(Keys(s), KeysAhead(s, x.key, Largest) + KeysAhead(s, x.key, Smallest) + {x.key});
  }

  /**
   * With at least 20 distinct mean prices, the ten most expensive and the
   * ten cheapest neighbourhoods have none in common.
   */
  lemma TopAndBottomDisjoint(gs: seq<Group>)
    requires |Keys(Present(gs))| >= 20
    ensures forall x :: x in NLargest(gs, 10) ==> x !in NSmallest(gs, 10)
  {
    forall x | x in NLargest(gs, 10) && x in NSmallest(gs, 10) ensures false {
      SelectedBothWays(Present(gs), 10, x);
    }
  }
}
