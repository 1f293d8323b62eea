/** The traversal engine: the `Iterator` object, whose stacks, queues and counters its
    methods update in place. Calls into the node store are not made here: a method that
    would start one returns an `Outcome` naming the request, and the store's answer comes
    back through `OnPointerArrived` or `OnPrefixArrived`. */
module Engine {
  import opened Wrappers
  import opened Nodes
  import opened Clocks
  import opened Sorting
  import opened Seqs
  import opened Keys
  import opened Grouping
  import opened TrieWalk
  import opened Projection

  /** What a call into the iterator ends with. */
  datatype Outcome<M> =
    | Emit(result: Projected<M>)            // `cb(null, value)`
    | Done                                  // `cb(null, null)`: the walk is over
    | Failed(error: StoreError)             // `cb(err)`
    | Thrown(exception: Exception)          // a synchronous exception out of the call
    | FetchPointers(pointers: seq<Pointer>) // waiting for these `_getPointer` calls
    | QueryPrefix(path: Option<Path>)       // waiting for a prefix query at `path`
    | Waiting                               // a fetch landed while others are outstanding

  /** A step that either ends the call or tail-calls `_next`. */
  datatype Step<M> = Continue | Stop(outcome: Outcome<M>)

  /** `(i < path.length ? path.slice(0, i) : path).concat(val)`. */
  function PrefixPath(path: Path, i: nat, val: Nibble): (r: Path)
    ensures |r| == (if i < |path| then i else |path|) + 1
    ensures r[..|r| - 1] <= path && r[|r| - 1] == val
  {
    (if i < |path| then path[..i] else path) + [val]
  }

  /** The prefix frames `_multiNode` pushes at depth `|path|`, one per nibble of `order`
      (in that order) through which some node of `nodes` continues. */
  function PrefixFrames(nodes: seq<Node>, path: Path, order: seq<Nibble>): (r: seq<Frame>)
    ensures forall f | f in r ::
      && f.node.None? && f.i == |path| && f.path.Some?
      && |f.path.value| == |path| + 1 && f.path.value[..|path|] == path
      && f.path.value[|path|] in order && VisitTrie(nodes, |path|, f.path.value[|path|])
    ensures forall v | v in order && VisitTrie(nodes, |path|, v) :: Frame(Some(path + [v]), None, |path|) in r
  {
    if order == [] then []
    else
      var v := order[|order| - 1];
      var init := PrefixFrames(nodes, path, order[..|order| - 1]);
      assert order == order[..|order| - 1] + [v];
      if VisitTrie(nodes, |path|, v) then init + [Frame(Some(PrefixPath(path, |path|, v)), None, |path|)]
      else init
  }

  /** One more nibble of the visiting order adds at most its own prefix frame. */
  lemma PrefixFramesStep(nodes: seq<Node>, path: Path, order: seq<Nibble>, k: nat)
    requires k < |order|
    ensures PrefixFrames(nodes, path, order[..k + 1])
         == PrefixFrames(nodes, path, order[..k])
            + if VisitTrie(nodes, |path|, order[k]) then [Frame(Some(PrefixPath(path, |path|, order[k])), None, |path|)] else []
  {
    assert order[..k + 1][..k] == order[..k];
  }

  /** Each group as a (non-null) collision-list entry. */
  function Somes(gs: seq<Group>): (r: seq<Option<Group>>)
    ensures |r| == |gs|
  {
    seq(|gs|, k requires 0 <= k < |gs| => Some(gs[k]))
  }

  lemma SomesSnoc(gs: seq<Group>, g: Group)
    ensures Somes(gs + [g]) == Somes(gs) + [Some(g)]
  {
  }

  /** The frame `_next` takes and the stack it leaves behind. */
  datatype Taken = Taken(top: Option<Frame>, stack: seq<Frame>)

  /** The frame comparator is antisymmetric on every pending stack. */
  lemma StackAntisymmetric(pendingStack: seq<Frame>)
    ensures Antisymmetric(pendingStack, SortStackByClockAndSeq)
  {
    forall a, b | a in pendingStack && b in pendingStack
      ensures SortStackByClockAndSeq(a, b) > 0 <==> SortStackByClockAndSeq(b, a) < 0
    {
      SortByClockAndSeqAntisymmetric(a.node, b.node);
    }
  }

  /** `_next`'s frame selection: with frames pending, sort them by their nodes' clocks, take
      the last and append the rest, in sorted order, above `stack`; otherwise pop `stack`. */
  function TakeTop(stack: seq<Frame>, pendingStack: seq<Frame>): (r: Taken)
    ensures pendingStack != [] ==>
      && r.top.Some? && |r.stack| == |stack| + |pendingStack| - 1 && r.stack[..|stack|] == stack
      && multiset(r.stack[|stack|..]) + multiset{r.top.value} == multiset(pendingStack)
      && LocallySorted(r.stack[|stack|..] + [r.top.value], SortStackByClockAndSeq)
    ensures pendingStack == [] && stack == [] ==> r == Taken(None, [])
    ensures pendingStack == [] && stack != [] ==> r.top == Some(stack[|stack| - 1]) && stack == r.stack + [r.top.value]
  {
    if pendingStack != [] then
      var sorted := Sort(pendingStack, SortStackByClockAndSeq);
      var n := |sorted|;
      assert sorted == sorted[..n - 1] + [sorted[n - 1]];
      assert (stack + sorted[..n - 1])[|stack|..] == sorted[..n - 1];
      StackAntisymmetric(pendingStack);
      SortLocallySorted(pendingStack, SortStackByClockAndSeq);
      Taken(Some(sorted[n - 1]), stack + sorted[..n - 1])
    else if stack == [] then Taken(None, [])
    else Taken(Some(stack[|stack| - 1]), stack[..|stack| - 1])
  }

  /** A frame that no pending frame compares above has the greatest clock: no pending node's
      clock succeeds its clock, and it is a frame whose fetch has not landed whenever one is
      pending. */
  lemma GreatestFrame(pendingStack: seq<Frame>, top: Frame)
    requires forall f | f in pendingStack :: SortStackByClockAndSeq(f, top) <= 0
    ensures forall f | f in pendingStack && f.node.Some? && top.node.Some? ::
      !Succeeds(f.node.value.clock, top.node.value.clock)
    ensures (exists f | f in pendingStack :: f.node.None?) ==> top.node.None?
  {
    forall f | f in pendingStack ensures SortByClockAndSeq(f.node, top.node) <= 0 {
      assert SortStackByClockAndSeq(f, top) <= 0;
      SortByClockAndSeqAntisymmetric(f.node, top.node);
    }
  }

  /** When the clock comparator is a total preorder on the pending frames, the frames leave
      in sorted order and the one taken is the greatest of them: no pending node's clock
      succeeds its clock, and a frame whose fetch has not landed is taken whenever there is
      one. */
  lemma TakeTopIsGreatest(stack: seq<Frame>, pendingStack: seq<Frame>)
    requires pendingStack != [] && Transitive(pendingStack, SortStackByClockAndSeq)
    ensures var t := TakeTop(stack, pendingStack);
      Sorted(t.stack[|stack|..] + [t.top.value], SortStackByClockAndSeq)
    ensures var top := TakeTop(stack, pendingStack).top.value;
      && top in pendingStack
      && (forall f | f in pendingStack :: SortStackByClockAndSeq(f, top) <= 0)
      && (forall f | f in pendingStack && f.node.Some? && top.node.Some? ::
            !Succeeds(f.node.value.clock, top.node.value.clock))
      && ((exists f | f in pendingStack :: f.node.None?) ==> top.node.None?)
  {
    StackAntisymmetric(pendingStack);
    SortTotalPreorder(pendingStack, SortStackByClockAndSeq);
    var sorted := Sort(pendingStack, SortStackByClockAndSeq);
    var t := TakeTop(stack, pendingStack);
    assert t.stack[|stack|..] + [t.top.value] == sorted;
    assert t.top.value == sorted[|sorted| - 1] && t.top.value in multiset(sorted);
    GreatestFrame(pendingStack, t.top.value);
  }

  /** One turn of the `_filterResult` loop for `node`: a node that fails the depth or prefix
      filter changes nothing; otherwise a node with another key closes the open group, which
      is pushed (`closed`) unless it is all tombstones, and the node joins the open group. */
  method FilterTurn(ghost pushed: seq<Group>, result: Option<Group>, node: Node, i: nat, end: Option<nat>, prefix: string)
    returns (closed: Option<Group>, next: Option<Group>)
    ensures Filtered(pushed + (if closed.Some? then [closed.value] else []), next)
         == FilterStep(Filtered(pushed, result), node, i, end, prefix)
  {
    closed, next := None, result;
    if |node.path| != i && end != Some(i) {
      return;
    }
    if !IsPrefix(node.key, prefix) {
      return;
    }
    assert Passes(node, i, end, prefix);
    var group := if result.None? then [] else result.value;
    if |group| > 0 && group[0].key != node.key {
      if !AllDeletes(group) {
        closed := Some(group);
      }
      next := Some([node]);
    } else {
      next := Some(group + [node]);
    }
  }

  class Iterator<M> {
    /** Frames still to visit; the last is visited first. */
    var stack: seq<Frame>
    /** Frames pushed by the current scan, ordered by clock before they join `stack`. */
    var pendingStack: seq<Frame>
    /** Deeper prefixes recorded by `_multiNode`. */
    var prefixStack: seq<Frame>
    /** Single-node results held back while their pointer fetches are outstanding. */
    var latestNodes: seq<seq<Node>>
    /** Collision groups waiting to be emitted; `None` is a `null` result of `_filterResult`. */
    var collisions: seq<Option<Group>>
    /** Pointer fetches started and not yet answered. */
    var pending: int
    /** The last error a pointer fetch reported. */
    var error: Option<StoreError>

    const prefix: string
    const recursive: bool
    const gt: bool
    /** The length of the root path. */
    const start: nat
    /** The depth the walk stops at; `None` is `Infinity` (a recursive walk). */
    const end: Option<nat>
    const mapping: Option<Node -> M>
    const reducer: Option<(Item<M>, Item<M>) -> Item<M>>

    /** Every held-back result is a non-empty group, so `reduce` can fold it. */
    ghost predicate Valid()
      reads this
    {
      forall k | 0 <= k < |latestNodes| :: latestNodes[k] != []
    }

    /** `new Iterator(db, prefix, opts)`, with `root` the hash of `prefix` and `hashLength`
        the hash's length. An empty prefix starts at the root of the trie. */
    constructor (root: Path, prefix: string, recursive: bool, gt: bool, hashLength: nat,
                 mapping: Option<Node -> M>, reducer: Option<(Item<M>, Item<M>) -> Item<M>>)
      ensures stack == [Frame(Some(if prefix != "" then root else []), None, 0)]
      ensures pendingStack == [] && prefixStack == [] && latestNodes == [] && collisions == []
      ensures pending == 0 && error == None
      ensures start == if prefix != "" then |root| else 0
      ensures end == if recursive then None else Some(start + hashLength)
      ensures this.prefix == prefix && this.recursive == recursive && this.gt == gt
      ensures this.mapping == mapping && this.reducer == reducer
      ensures Valid()
    {
      var path := if prefix != "" then root else [];
      latestNodes := [];
      prefixStack := [];
      pendingStack := [];
      stack := [Frame(Some(path), None, 0)];
      this.recursive := recursive;
      this.gt := gt;
      start := |path|;
      end := if recursive then None else Some(|path| + hashLength);
      this.mapping := mapping;
      this.reducer := reducer;
      collisions := [];
      this.prefix := prefix;
      pending := 0;
      error := None;
    }

    /** `_pushPointer(ptr, i)`: counts one more outstanding fetch and pushes a frame at depth
        `i` that the fetch will fill. An empty slot passes `undefined`, and reading its feed
        throws after the counter and the stack have been updated. */
    method PushPointer(ptr: Option<Pointer>, i: nat) returns (thrown: Option<Exception>)
      modifies this`pending, this`pendingStack
      ensures pending == old(pending) + 1
      ensures pendingStack == old(pendingStack) + [Frame(None, None, i)]
      ensures thrown == if ptr.None? then Some(MissingPointer) else None
    {
      pending := pending + 1;
      pendingStack := pendingStack + [Frame(None, None, i)];
      if ptr.None? {
        return Some(MissingPointer);
      }
      return None;
    }

    /** `_pushNode(node, i)`: a resolved node to scan from depth `i`. */
    method PushNode(node: Node, i: nat)
      modifies this`pendingStack
      ensures pendingStack == old(pendingStack) + [Frame(None, Some(node), i)]
    {
      pendingStack := pendingStack + [Frame(None, Some(node), i)];
    }

    /** `_pushPrefix(path, i, val)`: records the prefix one nibble deeper. */
    method PushPrefix(path: Path, i: nat, val: Nibble)
      modifies this`prefixStack
      ensures prefixStack == old(prefixStack) + [Frame(Some(PrefixPath(path, i, val)), None, i)]
    {
      prefixStack := prefixStack + [Frame(Some(PrefixPath(path, i, val)), None, i)];
    }

    /** What `_allNodes(top)` leaves behind, given the fields before it ran: a pointer frame
        and a pending fetch for every push of the walk `ScanNode` describes; on a throw
        nothing else; otherwise the node itself, emitted at once when no fetch is
        outstanding and held back in `latestNodes` when one is. */
    ghost predicate Walked(top: Frame, pendingStack0: seq<Frame>, pending0: int,
                           latestNodes0: seq<seq<Node>>, o: Outcome<M>)
      requires top.node.Some?
      reads this
    {
      var node := top.node.value;
      var scan := ScanNode(node, top.i, end, gt, start);
      && pendingStack == pendingStack0 + PointerFrames(scan.pushes)
      && pending == pending0 + |scan.pushes|
      && (scan.thrown.Some? ==> o == Thrown(scan.thrown.value) && latestNodes == latestNodes0)
      && (scan.thrown.None? && pending == 0 ==>
            o == Emit(Prereturn([node], mapping, reducer)) && latestNodes == latestNodes0)
      && (scan.thrown.None? && pending != 0 ==>
            o == FetchPointers(Fetched(scan.pushes)) && latestNodes == latestNodes0 + [[node]])
    }

    /** The inner loop body of `_allNodes` for nibble `v` at depth `i`: the node's own nibble
        must have an empty slot; another nibble's slot is skipped when empty, rejected when it
        holds several pointers, and otherwise handed to `_pushPointer`. */
    method VisitSlot(bucket: Bucket, own: Option<Nibble>, v: Nibble, i: nat)
      returns (thrown: Option<Exception>, fetched: seq<Pointer>)
      modifies this`pending, this`pendingStack
      ensures var step := NibbleStep(bucket, own, v, i);
        && pendingStack == old(pendingStack) + PointerFrames(step.pushes)
        && pending == old(pending) + |step.pushes|
        && thrown == step.thrown && fetched == Fetched(step.pushes)
    {
      var values := Slot(bucket, v);
      if Some(v) == own {
        if values.Some? {
          return Some(HandleMultipleValues), [];
        }
        return None, [];
      }
      if values.None? {
        return None, [];
      }
      if |values.value| > 1 {
        return Some(HandleMultipleValues), [];
      }
      var ptr := if |values.value| == 0 then None else Some(values.value[0]);
      thrown := PushPointer(ptr, i + 1);
      assert [Push(ptr, i + 1, v)][..0] == [];
      fetched := if ptr.Some? then [ptr.value] else [];
    }

    /** The inner loop of `_allNodes` at depth `i`: visits the slots of `bucket` in `order`,
        stopping at the first rejected slot. */
    method ScanBucket(bucket: Bucket, own: Option<Nibble>, order: seq<Nibble>, i: nat)
      returns (thrown: Option<Exception>, fetched: seq<Pointer>)
      modifies this`pending, this`pendingStack
      ensures var scan := NibbleScan(bucket, own, order, i);
        && pendingStack == old(pendingStack) + PointerFrames(scan.pushes)
        && pending == old(pending) + |scan.pushes|
        && thrown == scan.thrown && fetched == Fetched(scan.pushes)
    {
      fetched := [];
      var j := 0;
      ghost var sofar := Scan([], None);
      while j < |order|
        invariant 0 <= j <= |order|
        invariant sofar == NibbleScan(bucket, own, order[..j], i) && sofar.thrown.None?
        invariant pendingStack == old(pendingStack) + PointerFrames(sofar.pushes)
        invariant pending == old(pending) + |sofar.pushes|
        invariant fetched == Fetched(sofar.pushes)
      {
        ghost var step := NibbleStep(bucket, own, order[j], i);
        ghost var frames := PointerFrames(sofar.pushes);
        var more;
        thrown, more := VisitSlot(bucket, own, order[j], i);
        assert pendingStack == old(pendingStack) + PointerFrames(sofar.pushes + step.pushes) by {
          PointerFramesAppend(sofar.pushes, step.pushes);
          AppendAssoc(old(pendingStack), frames, PointerFrames(step.pushes));
        }
        assert fetched + more == Fetched(sofar.pushes + step.pushes) by {
          FetchedAppend(sofar.pushes, step.pushes);
        }
        assert NibbleScan(bucket, own, order[..j + 1], i) == Then(sofar, step) by {
          NibbleScanStep(bucket, own, order, j, i);
        }
        fetched := fetched + more;
        sofar := Then(sofar, step);
        if thrown.Some? {
          NibbleScanSticks(bucket, own, order, j + 1, i);
          return;
        }
        j := j + 1;
      }
      assert order[..j] == order;
      return None, fetched;
    }

    /** The outer loop body of `_allNodes` at depth `i`: a depth without a bucket is
        skipped, otherwise its slots are visited in `_sortOrder(i)` order. */
    method ScanDepth(node: Node, i: nat) returns (thrown: Option<Exception>, fetched: seq<Pointer>)
      modifies this`pending, this`pendingStack
      ensures var step := DepthStep(node, i, gt, start);
        && pendingStack == old(pendingStack) + PointerFrames(step.pushes)
        && pending == old(pending) + |step.pushes|
        && thrown == step.thrown && fetched == Fetched(step.pushes)
    {
      var bucket := BucketAt(node, i);
      if bucket.None? {
        assert pendingStack + PointerFrames([]) == pendingStack;
        return None, [];
      }
      thrown, fetched := ScanBucket(bucket.value, Own(node, i), SortOrder(gt, start, i), i);
    }

    /** The fields after a walk `scan` that started from the pending stack `stack0` and the
        counter `pending0`: its frames and fetches are pushed, and `thrown` is its throw. */
    ghost predicate Scanned(scan: Scan, stack0: seq<Frame>, pending0: int, fetched: seq<Pointer>,
                            thrown: Option<Exception>)
      reads this
    {
      && pendingStack == stack0 + PointerFrames(scan.pushes)
      && pending == pending0 + |scan.pushes|
      && fetched == Fetched(scan.pushes)
      && thrown == scan.thrown
    }

    /** One turn of the depth loop of `_allNodes`: depth `i` is scanned after the clean walk
        over the depths `from .. i-1`; a throw ends the walk over `from .. stop-1`. */
    method WalkDepth(node: Node, from: nat, i: nat, stop: nat, ghost stack0: seq<Frame>, ghost pending0: int,
                     fetched0: seq<Pointer>) returns (thrown: Option<Exception>, fetched: seq<Pointer>)
      requires from <= i < stop && Scanned(DepthScan(node, from, i, gt, start), stack0, pending0, fetched0, None)
      modifies this`pending, this`pendingStack
      ensures thrown.None? ==> Scanned(DepthScan(node, from, i + 1, gt, start), stack0, pending0, fetched, None)
      ensures thrown.Some? ==> Scanned(DepthScan(node, from, stop, gt, start), stack0, pending0, fetched, thrown)
    {
      ghost var sofar := DepthScan(node, from, i, gt, start);
      ghost var step := DepthStep(node, i, gt, start);
      var more;
      thrown, more := ScanDepth(node, i);
      fetched := fetched0 + more;
      ThenEffects(stack0, sofar, step);
      DepthScanStep(node, from, i, gt, start);
      if thrown.Some? {
        DepthScanSticks(node, from, i + 1, stop, gt, start);
      }
    }

    /** The depth loop of `_allNodes` over the depths `from .. stop-1`, deepest last,
        stopping at the first throw. */
    method WalkDepths(node: Node, from: nat, stop: nat) returns (thrown: Option<Exception>, fetched: seq<Pointer>)
      requires from < stop
      modifies this`pending, this`pendingStack
      ensures Scanned(DepthScan(node, from, stop, gt, start), old(pendingStack), old(pending), fetched, thrown)
    {
      fetched := [];
      var i := from;
      assert pendingStack == old(pendingStack) + PointerFrames([]);
      while i < stop
        invariant from <= i <= stop
        invariant Scanned(DepthScan(node, from, i, gt, start), old(pendingStack), old(pending), fetched, None)
      {
        thrown, fetched := WalkDepth(node, from, i, stop, old(pendingStack), old(pending), fetched);
        if thrown.Some? {
          return;
        }
        i := i + 1;
      }
      thrown := None;
    }

    /** The loops of `_allNodes`: the depths `from .. min(_end, trie.length) - 1` of the
        node's trie. */
    method Walk(node: Node, from: nat) returns (thrown: Option<Exception>, fetched: seq<Pointer>)
      modifies this`pending, this`pendingStack
      ensures var scan := ScanNode(node, from, end, gt, start);
        && pendingStack == old(pendingStack) + PointerFrames(scan.pushes)
        && pending == old(pending) + |scan.pushes|
        && thrown == scan.thrown && fetched == Fetched(scan.pushes)
    {
      var stop := StopDepth(node, end);
      if stop <= from {
        assert pendingStack + PointerFrames([]) == pendingStack;
        return None, [];
      }
      thrown, fetched := WalkDepths(node, from, stop);
    }

    /** `_allNodes(top)`: walks the trie of the frame's node from depth `top.i`, pushing a
        pointer frame for every branch, then emits the node itself when no fetch is
        outstanding and holds it back otherwise. */
    method AllNodes(top: Frame) returns (o: Outcome<M>)
      requires top.node.Some? && Valid()
      modifies this`pending, this`pendingStack, this`latestNodes
      ensures Walked(top, old(pendingStack), old(pending), old(latestNodes), o)
      ensures Valid()
    {
      var node := top.node.value;
      var thrown, fetched := Walk(node, top.i);
      if thrown.Some? {
        return Thrown(thrown.value);
      }
      if pending == 0 {
        return Emit(Prereturn([node], mapping, reducer));
      }
      latestNodes := latestNodes + [[node]];
      return FetchPointers(fetched);
    }

    /** `_filterResult(nodes, i)`: sorts the batch by key and cuts the nodes that pass the
        filter into same-key runs; every closed run that is not all tombstones is pushed
        onto `_collisions`, and the open run is returned (`null` when nothing passed). */
    method FilterResult(nodes: seq<Node>, i: nat) returns (result: Option<Group>)
      modifies this`collisions
      ensures var f := FilterSpec(nodes, i, end, prefix);
        collisions == old(collisions) + Somes(f.pushed) && result == f.result
    {
      var sorted := SortByKey(nodes);
      result := None;
      ghost var pushed: seq<Group> := [];
      var j := 0;
      while j < |sorted|
        invariant 0 <= j <= |sorted|
        invariant Filtered(pushed, result) == FilterLoop(sorted[..j], i, end, prefix)
        invariant collisions == old(collisions) + Somes(pushed)
      {
        var closed, next := FilterTurn(pushed, result, sorted[j], i, end, prefix);
        assert sorted[..j + 1][..j] == sorted[..j];
        if closed.Some? {
          SomesSnoc(pushed, closed.value);
          AppendAssoc(old(collisions), Somes(pushed), [closed]);
          collisions := collisions + [closed];
          pushed := pushed + [closed.value];
        }
        result := next;
        j := j + 1;
      }
      assert sorted[..j] == sorted;
      FilterLoopIsSpec(nodes, i, end, prefix);
    }

    /** `_multiNode(path, nodes)`, the answer to a prefix lookup at `path`. No nodes: go on
        with `_next`. A failed pointer frame has no path, and reading its length throws. One
        node: push it to be scanned from depth `|path|`. Several: record a deeper prefix for
        every nibble some node continues through (above the end depth only), cut the batch
        into groups with `_filterResult`, push its result and sort the collision list. */
    method MultiNode(path: Option<Path>, nodes: seq<Node>) returns (s: Step<M>)
      modifies this`pendingStack, this`prefixStack, this`collisions
      ensures nodes == [] ==> s == Continue && unchanged(this)
      ensures nodes != [] && path.None? ==> s == Stop(Thrown(NullPath)) && unchanged(this)
      ensures |nodes| == 1 && path.Some? ==>
        && s == Continue && pendingStack == old(pendingStack) + [Frame(None, Some(nodes[0]), |path.value|)]
        && prefixStack == old(prefixStack) && collisions == old(collisions)
      ensures |nodes| >= 2 && path.Some? ==>
        var ptr := |path.value|;
        var f := FilterSpec(nodes, ptr, end, prefix);
        var pushed := old(collisions) + Somes(f.pushed) + [f.result];
        && pendingStack == old(pendingStack)
        && prefixStack == old(prefixStack)
             + (if end.None? || ptr < end.value then PrefixFrames(nodes, path.value, SortOrder(gt, start, ptr)) else [])
        && (SortCollisions(pushed).Err? ==> s == Stop(Thrown(CompareGroups)) && collisions == pushed)
        && (SortCollisions(pushed).Ok? ==> s == Continue && collisions == SortCollisions(pushed).value)
    {
      if |nodes| == 0 {
        return Continue;
      }
      if path.None? {
        return Stop(Thrown(NullPath));
      }
      if |nodes| == 1 {
        PushNode(nodes[0], |path.value|);
        return Continue;
      }
      PushPrefixes(nodes, path.value);
      s := Collide(nodes, |path.value|);
    }

    /** The prefix loop of `_multiNode`: above the end depth, a prefix frame for every nibble,
        in visiting order, through which some node of the batch continues. */
    method PushPrefixes(nodes: seq<Node>, path: Path)
      modifies this`prefixStack
      ensures var ptr := |path|;
        prefixStack == old(prefixStack)
          + (if end.None? || ptr < end.value then PrefixFrames(nodes, path, SortOrder(gt, start, ptr)) else [])
    {
      var ptr := |path|;
      if end.None? || ptr < end.value {
        var order := SortOrder(gt, start, ptr);
        var k := 0;
        while k < |order|
          invariant 0 <= k <= |order|
          invariant prefixStack == old(prefixStack) + PrefixFrames(nodes, path, order[..k])
        {
          PrefixFramesStep(nodes, path, order, k);
          if VisitTrie(nodes, ptr, order[k]) {
            PushPrefix(path, ptr, order[k]);
          }
          k := k + 1;
        }
        assert order[..k] == order;
      }
    }

    /** The end of `_multiNode`: filter the batch, push the result (even `null`) onto
        `_collisions` and sort them; the sort throws once two groups must be compared. */
    method Collide(nodes: seq<Node>, ptr: nat) returns (s: Step<M>)
      modifies this`collisions
      ensures var f := FilterSpec(nodes, ptr, end, prefix);
        var pushed := old(collisions) + Somes(f.pushed) + [f.result];
        && (SortCollisions(pushed).Err? ==> s == Stop(Thrown(CompareGroups)) && collisions == pushed)
        && (SortCollisions(pushed).Ok? ==> s == Continue && collisions == SortCollisions(pushed).value)
    {
      var result := FilterResult(nodes, ptr);
      collisions := collisions + [result];
      var sorted := SortCollisions(collisions);
      if sorted.Err? {
        return Stop(Thrown(sorted.error));
      }
      collisions := sorted.value;
      return Continue;
    }

    /** The frame `_next` works on: with pointer frames pending, they are sorted by their
        nodes' clocks, the greatest is taken and the rest go onto the stack; otherwise the top
        of the stack is popped. */
    method Take() returns (top: Option<Frame>)
      modifies this`stack, this`pendingStack
      ensures Taken(top, stack) == TakeTop(old(stack), old(pendingStack))
      ensures pendingStack == []
    {
      if |pendingStack| > 0 {
        var sorted := Sort(pendingStack, SortStackByClockAndSeq);
        top := Some(sorted[|sorted| - 1]);
        stack := stack + sorted[..|sorted| - 1];
        pendingStack := [];
      } else if |stack| > 0 {
        top := Some(stack[|stack| - 1]);
        stack := stack[..|stack| - 1];
      } else {
        top := None;
      }
    }

    /** `_next()`: a queued collision group first (popping a `null` entry throws), then the
        last held-back node, then a frame: the greatest pending frame when a scan left some,
        else the top of the stack. No frame: done. A frame without a node: a prefix lookup.
        A frame with a node: the walk of `_allNodes`. */
    method Next() returns (o: Outcome<M>)
      requires Valid()
      modifies this`collisions, this`latestNodes, this`stack, this`pendingStack, this`pending
      ensures Valid()
      ensures var d := DrainSpec(old(collisions));
        && collisions == d.rest
        && (d.drained.PoppedNull? ==> o == Thrown(NullGroup))
        && (d.drained.Found? ==> o == Emit(Prereturn(d.drained.group, mapping, reducer)))
        && (!d.drained.Exhausted? ==> latestNodes == old(latestNodes))
        && (!d.drained.Exhausted? || old(latestNodes) != [] ==>
              stack == old(stack) && pendingStack == old(pendingStack) && pending == old(pending))
      ensures DrainSpec(old(collisions)).drained.Exhausted? && old(latestNodes) != [] ==>
        && o == Emit(Prereturn(old(latestNodes)[|old(latestNodes)| - 1], mapping, reducer))
        && latestNodes == old(latestNodes)[..|old(latestNodes)| - 1]
      ensures DrainSpec(old(collisions)).drained.Exhausted? && old(latestNodes) == [] ==>
        var t := TakeTop(old(stack), old(pendingStack));
        && stack == t.stack
        && (t.top.None? ==> o == Done)
        && (t.top.Some? && t.top.value.node.None? ==> o == QueryPrefix(t.top.value.path))
        && (t.top.None? || t.top.value.node.None? ==> pendingStack == [] && pending == old(pending) && latestNodes == [])
        && (t.top.Some? && t.top.value.node.Some? ==> Walked(t.top.value, [], old(pending), [], o))
    {
      var d := Drain(collisions);
      collisions := d.rest;
      if d.drained.PoppedNull? {
        return Thrown(NullGroup);
      }
      if d.drained.Found? {
        return Emit(Prereturn(d.drained.group, mapping, reducer));
      }
      if |latestNodes| > 0 {
        var last := latestNodes[|latestNodes| - 1];
        latestNodes := latestNodes[..|latestNodes| - 1];
        return Emit(Prereturn(last, mapping, reducer));
      }
      o := NextFrame();
    }

    /** The frame half of `_next()`: take a frame; none means done, one without a node is
        looked up as a prefix, one with a node is walked by `_allNodes`. */
    method NextFrame() returns (o: Outcome<M>)
      requires Valid()
      modifies this`latestNodes, this`stack, this`pendingStack, this`pending
      ensures Valid()
      ensures var t := TakeTop(old(stack), old(pendingStack));
        && stack == t.stack
        && (t.top.None? ==> o == Done)
        && (t.top.Some? && t.top.value.node.None? ==> o == QueryPrefix(t.top.value.path))
        && (t.top.None? || t.top.value.node.None? ==>
              pendingStack == [] && pending == old(pending) && latestNodes == old(latestNodes))
        && (t.top.Some? && t.top.value.node.Some? ==> Walked(t.top.value, [], old(pending), old(latestNodes), o))
    {
      var top := Take();
      if top.None? {
        return Done;
      }
      if top.value.node.None? {
        return QueryPrefix(top.value.path);
      }
      o := AllNodes(top.value);
    }

    /** The completion of the fetch that `_pushPointer` started for pending frame `k`. A
        failure overwrites the stored error, a success fills the frame's node; the walk
        resumes only when the last outstanding fetch has completed, and then reports the
        stored error if there is one. */
    method PointerDone(k: nat, r: Result<Node, StoreError>) returns (s: Step<M>)
      requires k < |pendingStack|
      modifies this`pendingStack, this`pending, this`error
      ensures r.Err? ==> error == Some(r.error) && pendingStack == old(pendingStack)
      ensures r.Ok? ==> error == old(error) && pendingStack == old(pendingStack)[k := old(pendingStack)[k].(node := Some(r.value))]
      ensures pending == old(pending) - 1
      ensures pending != 0 ==> s == Stop(Waiting)
      ensures pending == 0 && error.Some? ==> s == Stop(Failed(error.value))
      ensures pending == 0 && error.None? ==> s == Continue
    {
      if r.Err? {
        error := Some(r.error);
      } else {
        pendingStack := pendingStack[k := pendingStack[k].(node := Some(r.value))];
      }
      pending := pending - 1;
      if pending != 0 {
        return Stop(Waiting);
      }
      if error.Some? {
        return Stop(Failed(error.value));
      }
      return Continue;
    }

    /** The store answers the fetch for pending frame `k`; when that releases the barrier
        without an error, the iterator goes on with `_next`. */
    method OnPointerArrived(k: nat, r: Result<Node, StoreError>) returns (o: Outcome<M>)
      requires Valid() && k < |pendingStack|
      modifies this`collisions, this`latestNodes, this`stack, this`pendingStack, this`pending, this`error
      ensures Valid()
      ensures r.Err? ==> error == Some(r.error)
      ensures r.Ok? ==> error == old(error)
      ensures old(pending) != 1 ==>
        && o == Waiting && pending == old(pending) - 1
        && stack == old(stack) && latestNodes == old(latestNodes) && collisions == old(collisions)
      ensures old(pending) == 1 && error.Some? ==> o == Failed(error.value)
      ensures old(pending) != 1 || error.Some? ==>
        && pending == old(pending) - 1
        && stack == old(stack) && latestNodes == old(latestNodes) && collisions == old(collisions)
        && pendingStack == (if r.Ok? then old(pendingStack)[k := old(pendingStack)[k].(node := Some(r.value))]
                            else old(pendingStack))
    {
      var s := PointerDone(k, r);
      if s.Stop? {
        return s.outcome;
      }
      o := Next();
    }

    /** The store answers the prefix lookup at `path` (`_lookupPrefix`): a failure is
        reported, a batch goes to `_multiNode`, which may go on with `_next`. */
    method OnPrefixArrived(path: Option<Path>, r: Result<seq<Node>, StoreError>) returns (o: Outcome<M>)
      requires Valid()
      modifies this`collisions, this`latestNodes, this`stack, this`pendingStack, this`pending, this`prefixStack
      ensures Valid()
      ensures r.Err? ==> o == Failed(r.error) && unchanged(this)
      ensures r.Ok? && r.value != [] && path.None? ==> o == Thrown(NullPath) && unchanged(this)
    {
      if r.Err? {
        return Failed(r.error);
      }
      var s := MultiNode(path, r.value);
      if s.Stop? {
        return s.outcome;
      }
      o := Next();
    }
  }
}
