/**
 * Stable comparison sorting, the contract of JavaScript's Array.prototype.sort
 * (stable since ECMAScript 2019) and of Python's sorted()/list.sort().
 */
module Sorting {

  /**
   * A comparator the sort can rely on: the sign flips when the arguments are
   * swapped, and "not after" is transitive.  Every comparator of the model is
   * proved to be one.  The triggers only fire on comparisons a proof already
   * mentions, which keeps the solver from chaining comparisons without end.
   */
  ghost predicate Consistent<T(!new)>(cmp: (T, T) -> int) {
    && (forall a, b {:trigger cmp(a, b), cmp(b, a)} :: cmp(a, b) < 0 <==> cmp(b, a) > 0)
    && (forall a, b, c {:trigger cmp(a, b), cmp(b, c), cmp(a, c)} ::
          cmp(a, b) <= 0 && cmp(b, c) <= 0 ==> cmp(a, c) <= 0)
  }

  predicate SortedBy<T(!new)>(s: seq<T>, cmp: (T, T) -> int) {
    forall i, j :: 0 <= i < j < |s| ==> cmp(s[i], s[j]) <= 0
  }

  /** The elements of `s` that satisfy `p`, in their order in `s`. */
  function Filter<T(!new)>(s: seq<T>, p: T -> bool): (r: seq<T>)
    ensures |r| <= |s|
    ensures forall k :: 0 <= k < |r| ==> p(r[k])
  {
    if s == [] then [] else (if p(s[0]) then [s[0]] else []) + Filter(s[1..], p)
  }

  lemma {:induction false} FilterMultiset<T(!new)>(s: seq<T>, p: T -> bool)
    ensures forall x :: multiset(Filter(s, p))[x] == if p(x) then multiset(s)[x] else 0
  {
    if s != [] {
      FilterMultiset(s[1..], p);
      assert s == [s[0]] + s[1..];
    }
  }

  /** Filtering by a predicate that holds everywhere in `s` keeps `s`. */
  lemma {:induction false} FilterAll<T(!new)>(s: seq<T>, p: T -> bool)
    requires forall k :: 0 <= k < |s| ==> p(s[k])
    ensures Filter(s, p) == s
  {
    if s != [] {
      FilterAll(s[1..], p);
      assert [s[0]] + s[1..] == s;
    }
  }

  /** The filter keeps exactly the elements of `s` that satisfy `p`. */
  lemma {:induction false} FilterMembers<T(!new)>(s: seq<T>, p: T -> bool)
    ensures forall x :: x in Filter(s, p) <==> x in s && p(x)
  {
    if s != [] {
      FilterMembers(s[1..], p);
      assert s == [s[0]] + s[1..];
    }
  }

  /** `s.findIndex(p)`: the first index whose element satisfies `p`, or -1 when none does. */
  function FindIndex<T>(s: seq<T>, p: T -> bool): (r: int)
    ensures -1 <= r < |s|
    ensures r >= 0 ==> p(s[r]) && forall j :: 0 <= j < r ==> !p(s[j])
    ensures r == -1 ==> forall j :: 0 <= j < |s| ==> !p(s[j])
  {
    if s == [] then -1
    else if p(s[0]) then 0
    else
      var r := FindIndex(s[1..], p);
      if r < 0 then -1 else r + 1
  }

  /** Place `x` before the first element it does not sort after. */
  function Insert<T(!new)>(x: T, s: seq<T>, cmp: (T, T) -> int): (r: seq<T>)
    ensures |r| == |s| + 1
  {
    if s == [] || cmp(x, s[0]) <= 0 then [x] + s
    else [s[0]] + Insert(x, s[1..], cmp)
  }

  /** Inserting adds exactly `x`. */
  lemma {:induction false} InsertMultiset<T(!new)>(x: T, s: seq<T>, cmp: (T, T) -> int)
    ensures multiset(Insert(x, s, cmp)) == multiset(s) + multiset{x}
  {
    if s != [] && cmp(x, s[0]) > 0 {
      InsertMultiset(x, s[1..], cmp);
      assert s == [s[0]] + s[1..];
    }
  }

  /** Stable insertion sort: the result order of `[...s].sort(cmp)`. */
  function SortBy<T(!new)>(s: seq<T>, cmp: (T, T) -> int): (r: seq<T>)
    ensures multiset(r) == multiset(s)
  {
    if s == [] then []
    else
      assert s == [s[0]] + s[1..];
      InsertMultiset(s[0], SortBy(s[1..], cmp), cmp);
      Insert(s[0], SortBy(s[1..], cmp), cmp)
  }

  lemma {:induction false} SortLength<T(!new)>(s: seq<T>, cmp: (T, T) -> int)
    ensures |SortBy(s, cmp)| == |s|
  {
    assert |multiset(SortBy(s, cmp))| == |multiset(s)|;
  }

  /** Every element of `Insert(x, s)` is `x` or an element of `s`. */
  lemma {:induction false} InsertElements<T(!new)>(x: T, s: seq<T>, cmp: (T, T) -> int)
    ensures forall j :: 0 <= j < |Insert(x, s, cmp)| ==> Insert(x, s, cmp)[j] == x || Insert(x, s, cmp)[j] in s
  {
    if s != [] && cmp(x, s[0]) > 0 {
      InsertElements(x, s[1..], cmp);
    }
  }

  lemma {:induction false} InsertSorted<T(!new)>(x: T, s: seq<T>, cmp: (T, T) -> int)
    requires Consistent(cmp)
    requires SortedBy(s, cmp)
    ensures SortedBy(Insert(x, s, cmp), cmp)
  {
    if s != [] && cmp(x, s[0]) > 0 {
      var h, tail := s[0], s[1..];
      InsertSorted(x, tail, cmp);
      assert cmp(h, x) < 0;
      assert forall k :: 0 <= k < |tail| ==> cmp(h, tail[k]) <= 0 by {
        forall k | 0 <= k < |tail| ensures cmp(h, tail[k]) <= 0 {
          assert tail[k] == s[k + 1];
        }
      }
      InsertBounded(h, x, tail, cmp);
      ConsSorted(h, Insert(x, tail, cmp), cmp);
    }
  }

  /** A lower bound of `x` and of every element of `t` is a lower bound of `Insert(x, t)`. */
  lemma {:induction false} InsertBounded<T(!new)>(h: T, x: T, t: seq<T>, cmp: (T, T) -> int)
    requires cmp(h, x) <= 0
    requires forall k :: 0 <= k < |t| ==> cmp(h, t[k]) <= 0
    ensures forall j :: 0 <= j < |Insert(x, t, cmp)| ==> cmp(h, Insert(x, t, cmp)[j]) <= 0
  {
    var r := Insert(x, t, cmp);
    InsertElements(x, t, cmp);
    forall j | 0 <= j < |r|
      ensures cmp(h, r[j]) <= 0
    {
      if r[j] != x {
        var k :| 0 <= k < |t| && t[k] == r[j];
      }
    }
  }

  /** A sorted sequence stays sorted under a new head that sorts before all of it. */
  lemma {:induction false} ConsSorted<T(!new)>(h: T, r: seq<T>, cmp: (T, T) -> int)
    requires SortedBy(r, cmp)
    requires forall j :: 0 <= j < |r| ==> cmp(h, r[j]) <= 0
    ensures SortedBy([h] + r, cmp)
  {
    var full := [h] + r;
    forall i, j | 0 <= i < j < |full|
      ensures cmp(full[i], full[j]) <= 0
    {
      assert full[j] == r[j - 1];
      if i > 0 {
        assert full[i] == r[i - 1];
      }
    }
  }

  /** The sort's output is ordered by the comparator. */
  lemma {:induction false} SortSorted<T(!new)>(s: seq<T>, cmp: (T, T) -> int)
    requires Consistent(cmp)
    ensures SortedBy(SortBy(s, cmp), cmp)
  {
    if s != [] {
      SortSorted(s[1..], cmp);
      InsertSorted(s[0], SortBy(s[1..], cmp), cmp);
    }
  }

  /** The elements of `s` the comparator cannot tell apart from `k`, in order. */
  function Peers<T(!new)>(s: seq<T>, k: T, cmp: (T, T) -> int): seq<T> {
    if s == [] then []
    else (if cmp(s[0], k) == 0 then [s[0]] else []) + Peers(s[1..], k, cmp)
  }

  lemma {:induction false} InsertPeers<T(!new)>(x: T, s: seq<T>, k: T, cmp: (T, T) -> int)
    requires Consistent(cmp)
    ensures Peers(Insert(x, s, cmp), k, cmp)
            == (if cmp(x, k) == 0 then [x] else []) + Peers(s, k, cmp)
  {
    if s == [] || cmp(x, s[0]) <= 0 {
      PeersCons(x, s, k, cmp);
    } else {
      InsertPeers(x, s[1..], k, cmp);
      if cmp(x, k) == 0 {
        PeersApart(x, s[0], k, cmp);
      }
      InsertPeersStep(x, s, k, cmp);
    }
  }

  /** The step of InsertPeers where `x` goes past the head of `s`, which is then no peer of `k` if `x` is. */
  lemma {:induction false} InsertPeersStep<T(!new)>(x: T, s: seq<T>, k: T, cmp: (T, T) -> int)
    requires s != [] && cmp(x, s[0]) > 0
    requires cmp(x, k) == 0 ==> cmp(s[0], k) != 0
    requires Peers(Insert(x, s[1..], cmp), k, cmp) == (if cmp(x, k) == 0 then [x] else []) + Peers(s[1..], k, cmp)
    ensures Peers(Insert(x, s, cmp), k, cmp) == (if cmp(x, k) == 0 then [x] else []) + Peers(s, k, cmp)
  {
    var head := if cmp(s[0], k) == 0 then [s[0]] else [];
    var mine := if cmp(x, k) == 0 then [x] else [];
    assert Insert(x, s, cmp) == [s[0]] + Insert(x, s[1..], cmp);
    PeersCons(s[0], Insert(x, s[1..], cmp), k, cmp);
    assert Peers(s, k, cmp) == head + Peers(s[1..], k, cmp);
    assert head == [] || mine == [];
  }

  lemma {:induction false} PeersCons<T(!new)>(h: T, t: seq<T>, k: T, cmp: (T, T) -> int)
    ensures Peers([h] + t, k, cmp) == (if cmp(h, k) == 0 then [h] else []) + Peers(t, k, cmp)
  {
    assert ([h] + t)[1..] == t;
  }

  /** An element that sorts strictly after `y` is not a peer of `y`'s peers. */
  lemma {:induction false} PeersApart<T(!new)>(x: T, y: T, k: T, cmp: (T, T) -> int)
    requires Consistent(cmp)
    requires cmp(x, y) > 0 && cmp(x, k) == 0
    ensures cmp(y, k) != 0
  {
    var backwards := cmp(k, y);  // the comparison the transitivity trigger needs
  }

  /**
   * Stability: elements the comparator ranks equal to `k` keep their relative
   * order from the input.
   */
  lemma {:induction false} SortStable<T(!new)>(s: seq<T>, k: T, cmp: (T, T) -> int)
    requires Consistent(cmp)
    ensures Peers(SortBy(s, cmp), k, cmp) == Peers(s, k, cmp)
  {
    if s != [] {
      SortStable(s[1..], k, cmp);
      InsertPeers(s[0], SortBy(s[1..], cmp), k, cmp);
    }
  }

  /** A sequence already in order is returned as it is. */
  lemma {:induction false} SortOfSorted<T(!new)>(s: seq<T>, cmp: (T, T) -> int)
    requires SortedBy(s, cmp)
    ensures SortBy(s, cmp) == s
  {
    if s != [] {
      SortOfSorted(s[1..], cmp);
      assert [s[0]] + s[1..] == s;
    }
  }
}
