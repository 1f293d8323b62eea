/** Small predicates and the key order used while grouping nodes: `byKey`, `isPrefix`,
    `allDeletes` and `visitTrie`. */
module Keys {
  import opened Wrappers
  import opened Nodes
  import Sorting

  /** Ordinary lexicographic comparison of strings by character code: -1, 0 or 1. */
  function StrCompare(a: string, b: string): int {
    if a == [] && b == [] then 0
    else if a == [] then -1
    else if b == [] then 1
    else if a[0] < b[0] then -1
    else if a[0] > b[0] then 1
    else StrCompare(a[1..], b[1..])
  }

  lemma {:induction false} StrCompareAntisymmetric(a: string, b: string)
    ensures StrCompare(a, b) == -StrCompare(b, a)
  {
    if a != [] && b != [] && a[0] == b[0] {
      StrCompareAntisymmetric(a[1..], b[1..]);
    }
  }

  lemma {:induction false} StrCompareZero(a: string, b: string)
    ensures StrCompare(a, b) == 0 <==> a == b
  {
    if a != [] && b != [] && a[0] == b[0] {
      StrCompareZero(a[1..], b[1..]);
      assert a == [a[0]] + a[1..] && b == [b[0]] + b[1..];
    }
  }

  lemma {:induction false} StrCompareTransitive(a: string, b: string, c: string)
    requires StrCompare(a, b) <= 0 && StrCompare(b, c) <= 0
    ensures StrCompare(a, c) <= 0
  {
    if a != [] && b != [] && c != [] && a[0] == b[0] == c[0] {
      StrCompareTransitive(a[1..], b[1..], c[1..]);
    }
  }

  /** `byKey`: descending key (`b.key.localeCompare(a.key)`, taken as code-unit order), then
      descending feed. A negative result puts `a` first. */
  function ByKey(a: Node, b: Node): (r: int)
    ensures r < 0 <==> StrCompare(a.key, b.key) > 0 || (a.key == b.key && a.feed > b.feed)
    ensures r == 0 <==> a.key == b.key && a.feed == b.feed
  {
    StrCompareAntisymmetric(a.key, b.key);
    StrCompareZero(b.key, a.key);
    var k := StrCompare(b.key, a.key);
    if k != 0 then k else b.feed as int - a.feed as int
  }

  /** `byKey` is a total preorder on any batch of nodes. */
  lemma ByKeyTotalPreorder(s: seq<Node>)
    ensures Sorting.Antisymmetric(s, ByKey)
    ensures Sorting.Transitive(s, ByKey)
  {
    forall a, b | a in s && b in s ensures ByKey(a, b) > 0 <==> ByKey(b, a) < 0 {
      StrCompareAntisymmetric(a.key, b.key);
    }
    forall a, b, c | a in s && b in s && c in s && ByKey(a, b) <= 0 && ByKey(b, c) <= 0
      ensures ByKey(a, c) <= 0
    {
      StrCompareAntisymmetric(a.key, b.key);
      StrCompareAntisymmetric(b.key, c.key);
      StrCompareAntisymmetric(a.key, c.key);
      StrCompareZero(a.key, b.key);
      StrCompareZero(b.key, c.key);
      StrCompareZero(a.key, c.key);
      StrCompareTransitive(c.key, b.key, a.key);
    }
  }

  /** `nodes.sort(byKey)`: a permutation of the batch in descending key order, equal keys in
      descending feed order. */
  function SortByKey(nodes: seq<Node>): (r: seq<Node>)
    ensures multiset(r) == multiset(nodes) && |r| == |nodes|
    ensures forall p, q | 0 <= p < q < |r| :: ByKey(r[p], r[q]) <= 0
  {
    ByKeyTotalPreorder(nodes);
    Sorting.SortTotalPreorder(nodes, ByKey);
    Sorting.Sort(nodes, ByKey)
  }

  /** `isPrefix(s, prefix)`: the empty (absent) prefix matches everything. */
  function IsPrefix(s: string, prefix: string): (r: bool)
    ensures r <==> prefix <= s
  {
    if prefix == "" then true
    else |prefix| <= |s| && s[..|prefix|] == prefix
  }

  /** `allDeletes`: every node of the group is a tombstone (true of the empty group). */
  function AllDeletes(nodes: seq<Node>): (r: bool)
    ensures r <==> forall n | n in nodes :: !Live(n)
  {
    if nodes == [] then true
    else AllDeletes(nodes[..|nodes| - 1]) && !Live(nodes[|nodes| - 1])
  }

  /** Node `n` shows a continuation at nibble `v` below depth `ptr`: a trie entry for `v` at
      that depth, or its own path goes through `v` there. */
  predicate Continues(n: Node, ptr: nat, v: Nibble) {
    || (BucketAt(n, ptr).Some? && Slot(BucketAt(n, ptr).value, v).Some?)
    || Own(n, ptr) == Some(v)
  }

  /** `visitTrie`: some node of the batch continues at nibble `v` below depth `ptr`. */
  function VisitTrie(nodes: seq<Node>, ptr: nat, v: Nibble): (r: bool)
    ensures r <==> exists n | n in nodes :: Continues(n, ptr, v)
  {
    if nodes == [] then false
    else VisitTrie(nodes[..|nodes| - 1], ptr, v) || Continues(nodes[|nodes| - 1], ptr, v)
  }
}
