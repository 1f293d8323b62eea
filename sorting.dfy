/** `Array.prototype.sort` with a JavaScript comparator, modelled as a stable insertion sort:
    a negative comparison puts the first argument first, a positive one the second. For a
    comparator that is a total preorder a stable sort has exactly one possible result. */
module Sorting {

  /** The comparator agrees with itself when its arguments are swapped (on elements of `s`). */
  ghost predicate Antisymmetric<T>(s: seq<T>, cmp: (T, T) -> int) {
    forall a, b | a in s && b in s :: cmp(a, b) > 0 <==> cmp(b, a) < 0
  }

  /** "Not after" is transitive on the elements of `s`. */
  ghost predicate Transitive<T>(s: seq<T>, cmp: (T, T) -> int) {
    forall a, b, c | a in s && b in s && c in s :: cmp(a, b) <= 0 && cmp(b, c) <= 0 ==> cmp(a, c) <= 0
  }

  /** Every neighbouring pair is in order. */
  ghost predicate LocallySorted<T>(r: seq<T>, cmp: (T, T) -> int) {
    forall k | 0 < k < |r| :: cmp(r[k - 1], r[k]) <= 0
  }

  /** Every pair is in order. */
  ghost predicate Sorted<T>(r: seq<T>, cmp: (T, T) -> int) {
    forall p, q | 0 <= p < q < |r| :: cmp(r[p], r[q]) <= 0
  }

  /** Inserts `x` into `t` after every element that does not compare greater than it. */
  function Insert<T>(t: seq<T>, x: T, cmp: (T, T) -> int): (r: seq<T>)
    ensures multiset(r) == multiset(t) + multiset{x}
    ensures |r| == |t| + 1
    ensures r[|r| - 1] == x || (t != [] && r[|r| - 1] == t[|t| - 1])
  {
    if t == [] then [x]
    else if cmp(t[|t| - 1], x) > 0 then
      assert t == t[..|t| - 1] + [t[|t| - 1]];
      Insert(t[..|t| - 1], x, cmp) + [t[|t| - 1]]
    else t + [x]
  }

  /** A stable insertion sort of `s`: the result is a permutation of `s`. */
  function Sort<T>(s: seq<T>, cmp: (T, T) -> int): (r: seq<T>)
    ensures multiset(r) == multiset(s)
    ensures |r| == |s|
  {
    if s == [] then []
    else
      assert s == s[..|s| - 1] + [s[|s| - 1]];
      Insert(Sort(s[..|s| - 1], cmp), s[|s| - 1], cmp)
  }

  lemma {:induction false} InsertLocallySorted<T>(t: seq<T>, x: T, cmp: (T, T) -> int)
    requires LocallySorted(t, cmp)
    requires forall a | a in t :: cmp(a, x) > 0 <==> cmp(x, a) < 0
    ensures LocallySorted(Insert(t, x, cmp), cmp)
  {
    if t != [] && cmp(t[|t| - 1], x) > 0 {
      var init := t[..|t| - 1];
      assert forall a | a in init :: a in t;
      InsertLocallySorted(init, x, cmp);
      var r0 := Insert(init, x, cmp);
      var r := r0 + [t[|t| - 1]];
      if r0[|r0| - 1] == x {
        assert cmp(x, t[|t| - 1]) < 0;
      } else {
        assert cmp(t[|t| - 2], t[|t| - 1]) <= 0;
      }
      assert forall k | 0 <= k < |r0| :: r[k] == r0[k];
    }
  }

  /** With an antisymmetric comparator every neighbouring pair of the result is in order. */
  lemma {:induction false} SortLocallySorted<T>(s: seq<T>, cmp: (T, T) -> int)
    requires Antisymmetric(s, cmp)
    ensures LocallySorted(Sort(s, cmp), cmp)
  {
    if s != [] {
      var init := s[..|s| - 1];
      assert forall a | a in init :: a in s;
      SortLocallySorted(init, cmp);
      var t := Sort(init, cmp);
      forall a | a in t ensures cmp(a, s[|s| - 1]) > 0 <==> cmp(s[|s| - 1], a) < 0 {
        assert a in multiset(t);
        assert a in init;
      }
      InsertLocallySorted(t, s[|s| - 1], cmp);
    }
  }

  /** Neighbouring pairs in order and a transitive comparator give every pair in order. */
  lemma {:induction false} LocallySortedIsSorted<T>(r: seq<T>, cmp: (T, T) -> int)
    requires LocallySorted(r, cmp) && Transitive(r, cmp)
    ensures Sorted(r, cmp)
  {
    forall p, q | 0 <= p < q < |r| ensures cmp(r[p], r[q]) <= 0 {
      var k := p + 1;
      while k < q
        invariant p < k <= q
        invariant cmp(r[p], r[k]) <= 0
      {
        assert cmp(r[k], r[k + 1]) <= 0;
        k := k + 1;
      }
    }
  }

  /** The last element of a sorted sequence is not less than any of its elements. */
  lemma {:induction false} SortedLastIsMax<T>(r: seq<T>, cmp: (T, T) -> int)
    requires Sorted(r, cmp) && Antisymmetric(r, cmp) && r != []
    ensures forall a | a in r :: cmp(a, r[|r| - 1]) <= 0
  {
    forall a | a in r ensures cmp(a, r[|r| - 1]) <= 0 {
      var k :| 0 <= k < |r| && r[k] == a;
      if k < |r| - 1 {
        assert cmp(r[k], r[|r| - 1]) <= 0;
      }
    }
  }

  /** For a total preorder (antisymmetric and transitive) the sort orders every pair, and its
      last element is not less than any element of the input. */
  lemma {:induction false} SortTotalPreorder<T>(s: seq<T>, cmp: (T, T) -> int)
    requires Antisymmetric(s, cmp) && Transitive(s, cmp)
    ensures Sorted(Sort(s, cmp), cmp)
    ensures s != [] ==> forall a | a in s :: cmp(a, Sort(s, cmp)[|s| - 1]) <= 0
  {
    var r := Sort(s, cmp);
    SortLocallySorted(s, cmp);
    assert forall a | a in r :: a in s by {
      forall a | a in r ensures a in s {
        assert a in multiset(r);
      }
    }
    LocallySortedIsSorted(r, cmp);
    if s != [] {
      SortedLastIsMax(r, cmp);
      forall a | a in s ensures a in r {
        assert a in multiset(s);
      }
    }
  }
}
