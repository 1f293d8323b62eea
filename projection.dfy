/** `_prereturn`: the optional map and reduce transforms applied to a group before it leaves
    the iterator. */
module Projection {
  import opened Wrappers
  import opened Nodes

  /** An element of an emitted list: a node as stored, or the caller's image of one. */
  datatype Item<M> = NodeItem(node: Node) | Mapped(value: M)

  /** What reaches the consumer: the (possibly mapped) list, or the value `reduce` folded it to. */
  datatype Projected<M> = Many(items: seq<Item<M>>) | Folded(value: Item<M>)

  /** One element as the consumer sees it: `map(node)` when a map is configured. */
  function Apply<M>(mapping: Option<Node -> M>, n: Node): Item<M> {
    if mapping.Some? then Mapped(mapping.value(n)) else NodeItem(n)
  }

  /** `nodes.map(this._map)`, or the nodes themselves when there is no map. */
  function Lift<M>(nodes: seq<Node>, mapping: Option<Node -> M>): (r: seq<Item<M>>)
    ensures |r| == |nodes|
    ensures forall k | 0 <= k < |nodes| :: r[k] == Apply(mapping, nodes[k])
  {
    if nodes == [] then []
    else Lift(nodes[..|nodes| - 1], mapping) + [Apply(mapping, nodes[|nodes| - 1])]
  }

  /** Mapping is element-wise: it distributes over concatenation. */
  lemma {:induction false} LiftAppend<M>(a: seq<Node>, b: seq<Node>, mapping: Option<Node -> M>)
    ensures Lift(a + b, mapping) == Lift(a, mapping) + Lift(b, mapping)
  {
    if b != [] {
      var init := b[..|b| - 1];
      LiftAppend(a, init, mapping);
      assert (a + b)[..|a + b| - 1] == a + init;
    }
  }

  /** The accumulator loop of `Array.prototype.reduce` from `acc` over `rest`, left to right. */
  function FoldFrom<M>(f: (Item<M>, Item<M>) -> Item<M>, acc: Item<M>, rest: seq<Item<M>>): Item<M>
    decreases |rest|
  {
    if rest == [] then acc else FoldFrom(f, f(acc, rest[0]), rest[1..])
  }

  /** `items.reduce(f)` with no initial value: the first element seeds the accumulator. */
  function Reduce<M>(f: (Item<M>, Item<M>) -> Item<M>, items: seq<Item<M>>): (r: Item<M>)
    requires items != []
    ensures |items| == 1 ==> r == items[0]
  {
    FoldFrom(f, items[0], items[1..])
  }

  /** Folding one more element on the right applies `f` once more to the running value. */
  lemma {:induction false} FoldFromSnoc<M>(f: (Item<M>, Item<M>) -> Item<M>, acc: Item<M>, rest: seq<Item<M>>, x: Item<M>)
    decreases |rest|
    ensures FoldFrom(f, acc, rest + [x]) == f(FoldFrom(f, acc, rest), x)
  {
    if rest != [] {
      assert (rest + [x])[1..] == rest[1..] + [x];
      FoldFromSnoc(f, f(acc, rest[0]), rest[1..], x);
    }
  }

  /** `reduce` is a left fold: reducing `s + [x]` combines the reduction of `s` with `x`. */
  lemma ReduceSnoc<M>(f: (Item<M>, Item<M>) -> Item<M>, s: seq<Item<M>>, x: Item<M>)
    requires s != []
    ensures Reduce(f, s + [x]) == f(Reduce(f, s), x)
  {
    assert (s + [x])[1..] == s[1..] + [x];
    FoldFromSnoc(f, s[0], s[1..], x);
  }

  /** `_prereturn(nodes)`: map every node when a map is configured, then fold the list with
      `reduce` when one is configured. The callers only pass non-empty groups, so `reduce`
      never sees an empty list. */
  function Prereturn<M>(nodes: seq<Node>, mapping: Option<Node -> M>,
                        reducer: Option<(Item<M>, Item<M>) -> Item<M>>): (r: Projected<M>)
    requires reducer.Some? ==> nodes != []
    ensures reducer.None? ==>
      && r.Many? && |r.items| == |nodes|
      && forall k | 0 <= k < |nodes| :: r.items[k] == Apply(mapping, nodes[k])
    ensures reducer.Some? ==> r.Folded?
    ensures reducer.Some? && |nodes| == 1 ==> r == Folded(Apply(mapping, nodes[0]))
  {
    var items := Lift(nodes, mapping);
    if reducer.Some? then Folded(Reduce(reducer.value, items)) else Many(items)
  }

  /** Emitting a group with a map and a reduce gives the same value as mapping it and
      folding from the left by hand: one more node combines the previous value with the new
      node's image. */
  lemma PrereturnSnoc<M>(nodes: seq<Node>, n: Node, mapping: Option<Node -> M>,
                         f: (Item<M>, Item<M>) -> Item<M>)
    requires nodes != []
    ensures Prereturn(nodes + [n], mapping, Some(f)).value
         == f(Prereturn(nodes, mapping, Some(f)).value, Apply(mapping, n))
  {
    LiftAppend(nodes, [n], mapping);
    ReduceSnoc(f, Lift(nodes, mapping), Apply(mapping, n));
  }
}
