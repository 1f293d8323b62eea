/** The causal comparator: vector clocks compared component by component, and the
    total tie-break on top of it that orders traversal frames. */
module Clocks {
  import opened Wrappers
  import opened Nodes

  /** `clock[i] || 0`: a component past the end of a clock counts as zero. */
  function ClockAt(c: seq<nat>, i: nat): nat {
    if i < |c| then c[i] else 0
  }

  /** `a` causally succeeds `b`: no component is smaller and at least one is larger. */
  ghost predicate Succeeds(a: seq<nat>, b: seq<nat>) {
    && (forall i: nat :: ClockAt(a, i) >= ClockAt(b, i))
    && (exists i: nat :: ClockAt(a, i) > ClockAt(b, i))
  }

  /** The clocks are equal (after padding with zeros) or concurrent. */
  ghost predicate Unordered(a: seq<nat>, b: seq<nat>) {
    !Succeeds(a, b) && !Succeeds(b, a)
  }

  /** The two flags `isGreater` and `isLess` after looking at components `0 .. n-1`. */
  function ClockFlags(a: seq<nat>, b: seq<nat>, n: nat): (r: (bool, bool))
    ensures r.0 <==> exists i: nat :: i < n && ClockAt(a, i) > ClockAt(b, i)
    ensures r.1 <==> exists i: nat :: i < n && ClockAt(a, i) < ClockAt(b, i)
  {
    if n == 0 then (false, false)
    else
      var flags := ClockFlags(a, b, n - 1);
      var diff := ClockAt(a, n - 1) as int - ClockAt(b, n - 1) as int;
      (flags.0 || diff > 0, flags.1 || diff < 0)
  }

  /** `sortNodesByClock`: 1 when `a` succeeds `b`, -1 when `b` succeeds `a`, 0 when the clocks
      are equal or concurrent. */
  function SortNodesByClock(a: Node, b: Node): (r: int)
    ensures r == 1 <==> Succeeds(a.clock, b.clock)
    ensures r == -1 <==> Succeeds(b.clock, a.clock)
    ensures r == 0 <==> Unordered(a.clock, b.clock)
  {
    var len := if |b.clock| > |a.clock| then |b.clock| else |a.clock|;
    var flags := ClockFlags(a.clock, b.clock, len);
    assert forall i: nat :: len <= i ==> ClockAt(a.clock, i) == 0 && ClockAt(b.clock, i) == 0;
    if flags.0 && flags.1 then 0
    else if flags.1 then -1
    else if flags.0 then 1
    else 0
  }

  /** The clock `c` followed by `k` zero components. */
  function PadClock(c: seq<nat>, k: nat): (r: seq<nat>)
    ensures |r| == |c| + k
    ensures forall i: nat :: ClockAt(r, i) == ClockAt(c, i)
  {
    c + seq(k, _ => 0)
  }

  /** The comparator treats missing components as zero: padding either clock with zeros never
      changes the result. */
  lemma PaddingInvariant(a: Node, b: Node, ka: nat, kb: nat)
    ensures SortNodesByClock(a.(clock := PadClock(a.clock, ka)), b.(clock := PadClock(b.clock, kb)))
            == SortNodesByClock(a, b)
  {
    var a', b' := a.(clock := PadClock(a.clock, ka)), b.(clock := PadClock(b.clock, kb));
    assert Succeeds(a'.clock, b'.clock) <==> Succeeds(a.clock, b.clock) by {
      if Succeeds(a.clock, b.clock) {
        var i: nat :| ClockAt(a.clock, i) > ClockAt(b.clock, i);
        assert ClockAt(a'.clock, i) > ClockAt(b'.clock, i);
      }
      if Succeeds(a'.clock, b'.clock) {
        var i: nat :| ClockAt(a'.clock, i) > ClockAt(b'.clock, i);
        assert ClockAt(a.clock, i) > ClockAt(b.clock, i);
      }
    }
    assert Succeeds(b'.clock, a'.clock) <==> Succeeds(b.clock, a.clock) by {
      if Succeeds(b.clock, a.clock) {
        var i: nat :| ClockAt(b.clock, i) > ClockAt(a.clock, i);
        assert ClockAt(b'.clock, i) > ClockAt(a'.clock, i);
      }
      if Succeeds(b'.clock, a'.clock) {
        var i: nat :| ClockAt(b'.clock, i) > ClockAt(a'.clock, i);
        assert ClockAt(b.clock, i) > ClockAt(a.clock, i);
      }
    }
  }

  /** `sortNodesByClock` is antisymmetric. */
  lemma SortNodesByClockAntisymmetric(a: Node, b: Node)
    ensures SortNodesByClock(a, b) == -SortNodesByClock(b, a)
  {
  }

  /** Two clocks where each is ahead of the other in some component compare as 0. */
  lemma ConcurrentClocksTie(a: Node, b: Node, i: nat, j: nat)
    requires ClockAt(a.clock, i) > ClockAt(b.clock, i)
    requires ClockAt(b.clock, j) > ClockAt(a.clock, j)
    ensures SortNodesByClock(a, b) == 0
  {
  }

  function Sum(c: seq<nat>): nat {
    if c == [] then 0 else Sum(c[..|c| - 1]) + c[|c| - 1]
  }

  /** `clock.reduce((p, v) => p + v, seq)`: the approximate total-order position of a node. */
  function Offset(n: Node): nat {
    Sum(n.clock) + n.seqNo
  }

  /** `sortByClockAndSeq` on possibly-null nodes: nodes before nulls, then causal order, then
      the sequence number within one feed, then the offset, then descending feed. */
  function SortByClockAndSeq(a: Option<Node>, b: Option<Node>): (r: int)
    ensures a.Some? && b.None? ==> r < 0
    ensures a.None? && b.Some? ==> r > 0
    ensures a.Some? && b.Some? && Succeeds(a.value.clock, b.value.clock) ==> r > 0
    ensures a.Some? && b.Some? && Succeeds(b.value.clock, a.value.clock) ==> r < 0
    ensures r == 0 <==>
      || (a.None? && b.None?)
      || (a.Some? && b.Some? && Unordered(a.value.clock, b.value.clock)
          && a.value.feed == b.value.feed && a.value.seqNo == b.value.seqNo)
  {
    if a.Some? && b.None? then -1
    else if b.Some? && a.None? then 1
    else if a.None? && b.None? then 0
    else
      var x, y := a.value, b.value;
      var byClock := SortNodesByClock(x, y);
      if byClock != 0 then byClock
      else if x.feed == y.feed then x.seqNo as int - y.seqNo as int
      else
        var yOffset, xOffset := Offset(y), Offset(x);
        if yOffset == xOffset then y.feed as int - x.feed as int
        else xOffset as int - yOffset as int
  }

  /** Swapping the arguments negates the result, so the comparator never says "a before b"
      and "b before a" at once. */
  lemma SortByClockAndSeqAntisymmetric(a: Option<Node>, b: Option<Node>)
    ensures SortByClockAndSeq(a, b) == -SortByClockAndSeq(b, a)
  {
    if a.Some? && b.Some? {
      SortNodesByClockAntisymmetric(a.value, b.value);
    }
  }

  /** Unordered clocks within one feed are ordered by sequence number. */
  lemma SameFeedBySeq(a: Node, b: Node)
    requires Unordered(a.clock, b.clock) && a.feed == b.feed
    ensures SortByClockAndSeq(Some(a), Some(b)) < 0 <==> a.seqNo < b.seqNo
  {
  }

  /** Unordered clocks in different feeds are ordered by offset, and equal offsets put the
      larger feed first. */
  lemma OtherFeedByOffset(a: Node, b: Node)
    requires Unordered(a.clock, b.clock) && a.feed != b.feed
    ensures Offset(a) != Offset(b) ==> (SortByClockAndSeq(Some(a), Some(b)) < 0 <==> Offset(a) < Offset(b))
    ensures Offset(a) == Offset(b) ==> (SortByClockAndSeq(Some(a), Some(b)) < 0 <==> a.feed > b.feed)
  {
  }

  /** `sortStackByClockAndSeq`: frames are compared by the nodes they hold. */
  function SortStackByClockAndSeq(x: Frame, y: Frame): (r: int)
    ensures r == -SortByClockAndSeq(y.node, x.node)
  {
    SortByClockAndSeqAntisymmetric(x.node, y.node);
    SortByClockAndSeq(x.node, y.node)
  }
}
