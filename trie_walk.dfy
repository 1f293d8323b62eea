/** The single-node walk of `_allNodes` as a specification: which pointer frames it pushes,
    in which order, and when it throws. */
module TrieWalk {
  import opened Wrappers
  import opened Nodes
  import opened Seqs

  /** `SORT_GT`: the nibbles visited at the root depth of an exclusive search. */
  const SortGt: seq<Nibble> := [3, 2, 1, 0]

  /** `SORT_GTE`: the nibbles visited elsewhere; 4 is the path terminator. */
  const SortGte: seq<Nibble> := [3, 2, 1, 0, 4]

  /** `_sortOrder(i)` for a search whose root path has length `start`. */
  function SortOrder(gt: bool, start: nat, i: nat): (r: seq<Nibble>)
    ensures r == SortGt <==> i == start && (gt || start == 0)
    ensures r == SortGt || r == SortGte
  {
    var exclusive := gt || start == 0;
    if exclusive && start == i then SortGt else SortGte
  }

  /** One `_pushPointer` call made by the walk: the frame it pushes has depth `depth`, and
      `ptr` is the first entry of the slot for `nibble` (`None` when the slot is empty). */
  datatype Push = Push(ptr: Option<Pointer>, depth: nat, nibble: Nibble)

  /** The pushes a (part of a) walk makes, and the exception that ended it, if any. */
  datatype Scan = Scan(pushes: seq<Push>, thrown: Option<Exception>)

  /** `a` followed by `b`, unless `a` threw. */
  function Then(a: Scan, b: Scan): Scan {
    if a.thrown.Some? then a else Scan(a.pushes + b.pushes, b.thrown)
  }

  /** The walk accepts the slot for nibble `v`: at the node's own nibble the slot must be
      absent, elsewhere it is absent or holds exactly one pointer. */
  predicate SlotClean(bucket: Bucket, own: Option<Nibble>, v: Nibble) {
    if own == Some(v) then Slot(bucket, v).None?
    else Slot(bucket, v).None? || |Slot(bucket, v).value| == 1
  }

  /** What a rejected slot raises: an empty array at another nibble reaches `ptr.feed` inside
      `_pushPointer(undefined)`; any other rejection is the explicit `handle multiple values`. */
  function Rejection(bucket: Bucket, own: Option<Nibble>, v: Nibble): Exception {
    if own != Some(v) && Slot(bucket, v) == Some([]) then MissingPointer else HandleMultipleValues
  }

  /** `order[j]` is the first nibble of `order` whose slot the walk rejects. */
  ghost predicate FirstRejected(bucket: Bucket, own: Option<Nibble>, order: seq<Nibble>, j: int) {
    && 0 <= j < |order| && !SlotClean(bucket, own, order[j])
    && forall k | 0 <= k < j :: SlotClean(bucket, own, order[k])
  }

  /** The inner loop body of `_allNodes` for nibble `v` at depth `i`. */
  function NibbleStep(bucket: Bucket, own: Option<Nibble>, v: Nibble, i: nat): Scan {
    var values := Slot(bucket, v);
    if own == Some(v) then
      if values.Some? then Scan([], Some(HandleMultipleValues)) else Scan([], None)
    else if values.None? then Scan([], None)
    else if |values.value| > 1 then Scan([], Some(HandleMultipleValues))
    else if |values.value| == 0 then
      // `_pushPointer(undefined)` bumps the counter and pushes the frame before `ptr.feed` fails
      Scan([Push(None, i + 1, v)], Some(MissingPointer))
    else Scan([Push(Some(values.value[0]), i + 1, v)], None)
  }

  /** One nibble throws exactly when its slot is rejected, and then it raises what that slot
      raises; a frame it pushes is one deeper, at a nibble other than the node's own, for the
      slot's single pointer, and it has a pointer unless the nibble throws. */
  lemma NibbleStepSpec(bucket: Bucket, own: Option<Nibble>, v: Nibble, i: nat)
    ensures var r := NibbleStep(bucket, own, v, i);
      && (r.thrown.None? <==> SlotClean(bucket, own, v))
      && (r.thrown.Some? ==> r.thrown.value == Rejection(bucket, own, v))
      && forall p | p in r.pushes ::
           && p.depth == i + 1 && p.nibble == v && own != Some(v)
           && (p.ptr.Some? ==> Slot(bucket, v) == Some([p.ptr.value]))
           && (r.thrown.None? ==> p.ptr.Some?)
  {
    var values := Slot(bucket, v);
    assert values.Some? && |values.value| == 1 ==> values.value == [values.value[0]];
  }

  /** The inner loop of `_allNodes` over the nibbles `order` at depth `i`. */
  function NibbleScan(bucket: Bucket, own: Option<Nibble>, order: seq<Nibble>, i: nat): Scan {
    if order == [] then Scan([], None)
    else Then(NibbleScan(bucket, own, order[..|order| - 1], i), NibbleStep(bucket, own, order[|order| - 1], i))
  }

  /** What the walk pushes at one depth: frames one deeper, only for nibbles in the visiting
      order other than the node's own, each for the single pointer in that nibble's slot; a
      walk that does not throw pushes no frame without a pointer. */
  lemma {:induction false} NibbleScanSound(bucket: Bucket, own: Option<Nibble>, order: seq<Nibble>, i: nat)
    ensures forall p | p in NibbleScan(bucket, own, order, i).pushes ::
      p.depth == i + 1 && p.nibble in order && own != Some(p.nibble)
      && (p.ptr.Some? ==> Slot(bucket, p.nibble) == Some([p.ptr.value]))
      && (NibbleScan(bucket, own, order, i).thrown.None? ==> p.ptr.Some?)
  {
    if order != [] {
      var init := order[..|order| - 1];
      NibbleScanSound(bucket, own, init, i);
      var before := NibbleScan(bucket, own, init, i);
      assert order == init + [order[|order| - 1]];
      if before.thrown.None? {
        var step := NibbleStep(bucket, own, order[|order| - 1], i);
        NibbleStepSpec(bucket, own, order[|order| - 1], i);
        assert forall p | p in before.pushes + step.pushes :: p in before.pushes || p in step.pushes;
      }
    }
  }

  /** The walk at one depth throws exactly when it visits a rejected slot, and it throws what
      the first rejected slot in the visiting order raises. */
  lemma {:induction false} NibbleScanThrows(bucket: Bucket, own: Option<Nibble>, order: seq<Nibble>, i: nat)
    ensures NibbleScan(bucket, own, order, i).thrown.None? <==> forall v | v in order :: SlotClean(bucket, own, v)
    ensures var t := NibbleScan(bucket, own, order, i).thrown;
      t.Some? ==> exists j :: FirstRejected(bucket, own, order, j) && t.value == Rejection(bucket, own, order[j])
  {
    if order != [] {
      var init := order[..|order| - 1];
      var last := |order| - 1;
      assert order == init + [order[last]];
      NibbleScanThrows(bucket, own, init, i);
      NibbleStepSpec(bucket, own, order[last], i);
      var before := NibbleScan(bucket, own, init, i);
      if before.thrown.Some? {
        var j :| FirstRejected(bucket, own, init, j) && before.thrown.value == Rejection(bucket, own, init[j]);
        assert FirstRejected(bucket, own, order, j);
      } else if NibbleStep(bucket, own, order[last], i).thrown.Some? {
        assert forall k | 0 <= k < last :: order[k] in init;
        assert FirstRejected(bucket, own, order, last);
      }
    }
  }

  /** A walk at one depth that does not throw pushes a frame for every single pointer it
      visits outside the node's own nibble. */
  lemma {:induction false} NibbleScanComplete(bucket: Bucket, own: Option<Nibble>, order: seq<Nibble>, i: nat)
    requires NibbleScan(bucket, own, order, i).thrown.None?
    ensures forall v | v in order && own != Some(v) && Slot(bucket, v).Some? && |Slot(bucket, v).value| == 1 ::
      Push(Some(Slot(bucket, v).value[0]), i + 1, v) in NibbleScan(bucket, own, order, i).pushes
  {
    if order != [] {
      var init := order[..|order| - 1];
      var v := order[|order| - 1];
      assert order == init + [v];
      assert NibbleScan(bucket, own, init, i).thrown.None?;
      NibbleScanComplete(bucket, own, init, i);
    }
  }

  /** The depth `_allNodes` stops before: `Math.min(this._end, node.trie.length)`. */
  function StopDepth(n: Node, end: Option<nat>): (r: nat)
    ensures r <= |n.trie| && (end.Some? ==> r <= end.value)
    ensures r == |n.trie| || end == Some(r)
  {
    if end.Some? && end.value < |n.trie| then end.value else |n.trie|
  }

  /** The outer loop body of `_allNodes` at depth `i`: depths without a bucket are skipped. */
  function DepthStep(n: Node, i: nat, gt: bool, start: nat): Scan {
    match BucketAt(n, i)
    case None => Scan([], None)
    case Some(bucket) => NibbleScan(bucket, Own(n, i), SortOrder(gt, start, i), i)
  }

  /** The walk accepts depth `i`: it has no bucket, or every visited slot is accepted. */
  ghost predicate DepthClean(n: Node, i: nat, gt: bool, start: nat) {
    BucketAt(n, i).Some? ==> forall v | v in SortOrder(gt, start, i) :: SlotClean(BucketAt(n, i).value, Own(n, i), v)
  }

  /** `pushes` holds a frame for every single pointer the walk visits at depth `i`. */
  ghost predicate PushesAllPointers(n: Node, i: nat, gt: bool, start: nat, pushes: seq<Push>) {
    BucketAt(n, i).Some? ==>
      forall v | v in SortOrder(gt, start, i) && Own(n, i) != Some(v)
                 && Slot(BucketAt(n, i).value, v).Some? && |Slot(BucketAt(n, i).value, v).value| == 1 ::
        Push(Some(Slot(BucketAt(n, i).value, v).value[0]), i + 1, v) in pushes
  }

  /** The outer loop of `_allNodes` over depths `from .. to-1`. */
  function DepthScan(n: Node, from: nat, to: nat, gt: bool, start: nat): Scan
    decreases to
  {
    if to <= from then Scan([], None)
    else Then(DepthScan(n, from, to - 1, gt, start), DepthStep(n, to - 1, gt, start))
  }

  /** A frame pushed by a walk over depths `from .. to-1`: one deeper than a scanned depth,
      never at the node's own nibble there, carrying the single pointer of its slot, and
      with a pointer at all when the walk did not throw (`clean`). */
  ghost predicate SoundPush(n: Node, from: nat, to: nat, clean: bool, p: Push) {
    && from < p.depth <= to && Own(n, p.depth - 1) != Some(p.nibble)
    && (p.ptr.Some? ==>
          BucketAt(n, p.depth - 1).Some? && Slot(BucketAt(n, p.depth - 1).value, p.nibble) == Some([p.ptr.value]))
    && (clean ==> p.ptr.Some?)
  }

  /** A sound push of a narrower walk is a sound push of a wider one. */
  lemma SoundPushWiden(n: Node, from: nat, to: nat, clean: bool, from': nat, to': nat, clean': bool, p: Push)
    requires SoundPush(n, from, to, clean, p)
    requires from' <= from && to <= to' && (clean' ==> clean)
    ensures SoundPush(n, from', to', clean', p)
  {
  }

  /** Walks over adjacent depth ranges whose pushes are sound compose into a sound walk. */
  lemma ThenSound(n: Node, from: nat, mid: nat, to: nat, a: Scan, b: Scan)
    requires from <= mid <= to
    requires forall p | p in a.pushes :: SoundPush(n, from, mid, a.thrown.None?, p)
    requires forall p | p in b.pushes :: SoundPush(n, mid, to, b.thrown.None?, p)
    ensures var c := Then(a, b);
      forall p | p in c.pushes :: SoundPush(n, from, to, c.thrown.None?, p)
  {
    var c := Then(a, b);
    forall p | p in c.pushes ensures SoundPush(n, from, to, c.thrown.None?, p) {
      if a.thrown.Some? {
        SoundPushWiden(n, from, mid, false, from, to, false, p);
      } else if p in a.pushes {
        SoundPushWiden(n, from, mid, true, from, to, c.thrown.None?, p);
      } else {
        SoundPushWiden(n, mid, to, b.thrown.None?, from, to, c.thrown.None?, p);
      }
    }
  }

  /** The pushes of the depth step at `i` are sound pushes of a walk over depth `i` alone. */
  lemma DepthStepSound(n: Node, i: nat, gt: bool, start: nat)
    ensures var here := DepthStep(n, i, gt, start);
      forall p | p in here.pushes :: SoundPush(n, i, i + 1, here.thrown.None?, p)
  {
    if BucketAt(n, i).Some? {
      NibbleScanSound(BucketAt(n, i).value, Own(n, i), SortOrder(gt, start, i), i);
    }
  }

  /** Every frame the walk pushes is one deeper than a depth it scanned, never at the node's
      own nibble, and carries the single pointer of its slot; a walk that does not throw
      pushes no frame without a pointer. */
  lemma {:induction false} DepthScanSound(n: Node, from: nat, to: nat, gt: bool, start: nat)
    decreases to
    ensures var scan := DepthScan(n, from, to, gt, start);
      forall p | p in scan.pushes :: SoundPush(n, from, to, scan.thrown.None?, p)
  {
    if from < to {
      DepthScanSound(n, from, to - 1, gt, start);
      assert var before := DepthScan(n, from, to - 1, gt, start);
        forall p | p in before.pushes :: SoundPush(n, from, to - 1, before.thrown.None?, p);
      DepthStepSound(n, to - 1, gt, start);
      ThenSound(n, from, to - 1, to, DepthScan(n, from, to - 1, gt, start), DepthStep(n, to - 1, gt, start));
    }
  }

  /** The frames in `ps` are in order of depth. */
  ghost predicate DepthOrdered(ps: seq<Push>) {
    forall a, b | 0 <= a < b < |ps| :: ps[a].depth <= ps[b].depth
  }

  /** Every push of the depth step at `i` is one deeper than `i`. */
  lemma DepthStepDepths(n: Node, i: nat, gt: bool, start: nat)
    ensures forall p | p in DepthStep(n, i, gt, start).pushes :: p.depth == i + 1
  {
    if BucketAt(n, i).Some? {
      NibbleScanSound(BucketAt(n, i).value, Own(n, i), SortOrder(gt, start, i), i);
    }
  }

  /** A walk ordered by depth that stays above `mid`, followed by pushes one below `mid`,
      stays ordered. */
  lemma ThenOrdered(mid: nat, a: Scan, b: Scan)
    requires DepthOrdered(a.pushes) && forall p | p in a.pushes :: p.depth <= mid
    requires forall p | p in b.pushes :: p.depth == mid + 1
    ensures DepthOrdered(Then(a, b).pushes) && forall p | p in Then(a, b).pushes :: p.depth <= mid + 1
  {
    if a.thrown.None? {
      var ps := a.pushes + b.pushes;
      forall x, y | 0 <= x < y < |ps| ensures ps[x].depth <= ps[y].depth {
        if y >= |a.pushes| {
          assert ps[y] == b.pushes[y - |a.pushes|] && ps[y] in b.pushes;
          if x < |a.pushes| {
            assert ps[x] == a.pushes[x] && ps[x] in a.pushes;
          } else {
            assert ps[x] == b.pushes[x - |a.pushes|] && ps[x] in b.pushes;
          }
        } else {
          assert ps[x] == a.pushes[x] && ps[y] == a.pushes[y];
        }
      }
      assert forall p | p in ps :: p in a.pushes || p in b.pushes;
    }
  }

  /** Frames are pushed in order of depth: shallower branches first. */
  lemma {:induction false} DepthScanOrdered(n: Node, from: nat, to: nat, gt: bool, start: nat)
    decreases to
    ensures var ps := DepthScan(n, from, to, gt, start).pushes;
      DepthOrdered(ps) && forall p | p in ps :: p.depth <= to
  {
    if from < to {
      DepthScanOrdered(n, from, to - 1, gt, start);
      assert var ps := DepthScan(n, from, to - 1, gt, start).pushes;
        DepthOrdered(ps) && forall p | p in ps :: p.depth <= to - 1;
      DepthStepDepths(n, to - 1, gt, start);
      ThenOrdered(to - 1, DepthScan(n, from, to - 1, gt, start), DepthStep(n, to - 1, gt, start));
    }
  }

  /** One depth throws exactly when it has a bucket with a rejected slot, and it throws what the
      first rejected slot in the visiting order raises. */
  lemma DepthStepThrows(n: Node, i: nat, gt: bool, start: nat)
    ensures DepthStep(n, i, gt, start).thrown.None? <==> DepthClean(n, i, gt, start)
    ensures var t := DepthStep(n, i, gt, start).thrown;
      t.Some? ==> (
        && BucketAt(n, i).Some?
        && var bucket, own, order := BucketAt(n, i).value, Own(n, i), SortOrder(gt, start, i);
           exists j :: FirstRejected(bucket, own, order, j) && t.value == Rejection(bucket, own, order[j]))
  {
    if BucketAt(n, i).Some? {
      NibbleScanThrows(BucketAt(n, i).value, Own(n, i), SortOrder(gt, start, i), i);
    }
  }

  /** The walk over depths `from .. to-1` throws exactly when some scanned depth holds a
      rejected slot. */
  lemma {:induction false} DepthScanThrows(n: Node, from: nat, to: nat, gt: bool, start: nat)
    decreases to
    ensures DepthScan(n, from, to, gt, start).thrown.None? <==> forall i | from <= i < to :: DepthClean(n, i, gt, start)
  {
    if from < to {
      DepthScanThrows(n, from, to - 1, gt, start);
      assert var before := DepthScan(n, from, to - 1, gt, start);
        before.thrown.None? <==> forall i | from <= i < to - 1 :: DepthClean(n, i, gt, start);
      DepthStepThrows(n, to - 1, gt, start);
      assert (forall i | from <= i < to :: DepthClean(n, i, gt, start))
         <==> (forall i | from <= i < to - 1 :: DepthClean(n, i, gt, start)) && DepthClean(n, to - 1, gt, start);
    }
  }

  /** Depth `i` is the shallowest depth from `from` on that holds a rejected slot. */
  ghost predicate FirstUnclean(n: Node, from: nat, i: nat, gt: bool, start: nat) {
    && from <= i && !DepthClean(n, i, gt, start)
    && forall i' | from <= i' < i :: DepthClean(n, i', gt, start)
  }

  /** When depth `i` is the shallowest depth with a rejected slot, a walk over it throws what
      that depth throws. */
  lemma DepthScanThrowsFirst(n: Node, from: nat, i: nat, to: nat, gt: bool, start: nat)
    requires FirstUnclean(n, from, i, gt, start) && i < to
    ensures DepthScan(n, from, to, gt, start).thrown == DepthStep(n, i, gt, start).thrown
    ensures DepthScan(n, from, to, gt, start).thrown.Some?
  {
    DepthScanThrows(n, from, i, gt, start);
    DepthStepThrows(n, i, gt, start);
    DepthScanStep(n, from, i, gt, start);
    DepthScanSticks(n, from, i + 1, to, gt, start);
  }

  /** A walk that does not throw pushes a frame for every single pointer it visits. */
  lemma {:induction false} DepthScanComplete(n: Node, from: nat, to: nat, gt: bool, start: nat)
    decreases to
    requires DepthScan(n, from, to, gt, start).thrown.None?
    ensures forall i | from <= i < to :: PushesAllPointers(n, i, gt, start, DepthScan(n, from, to, gt, start).pushes)
  {
    if from < to {
      var before := DepthScan(n, from, to - 1, gt, start);
      var here := DepthStep(n, to - 1, gt, start);
      var ps := DepthScan(n, from, to, gt, start).pushes;
      assert before.thrown.None? && ps == before.pushes + here.pushes;
      DepthScanComplete(n, from, to - 1, gt, start);
      forall i | from <= i < to ensures PushesAllPointers(n, i, gt, start, ps) {
        if i < to - 1 {
          assert PushesAllPointers(n, i, gt, start, before.pushes);
          assert forall p | p in before.pushes :: p in ps;
        } else if BucketAt(n, i).Some? {
          NibbleScanComplete(BucketAt(n, i).value, Own(n, i), SortOrder(gt, start, i), i);
          assert forall p | p in here.pushes :: p in ps;
        }
      }
    }
  }

  /** One more nibble of the order: the walk so far, then that nibble's step. */
  lemma NibbleScanStep(bucket: Bucket, own: Option<Nibble>, order: seq<Nibble>, j: nat, i: nat)
    requires j < |order|
    ensures NibbleScan(bucket, own, order[..j + 1], i)
         == Then(NibbleScan(bucket, own, order[..j], i), NibbleStep(bucket, own, order[j], i))
  {
    assert order[..j + 1][..j] == order[..j];
  }

  /** One more depth: the walk so far, then that depth's step. */
  lemma DepthScanStep(n: Node, from: nat, i: nat, gt: bool, start: nat)
    requires from <= i
    ensures DepthScan(n, from, i + 1, gt, start) == Then(DepthScan(n, from, i, gt, start), DepthStep(n, i, gt, start))
  {
  }

  /** Once the walk at one depth has thrown, the rest of the nibble order adds nothing. */
  lemma {:induction false} NibbleScanSticks(bucket: Bucket, own: Option<Nibble>, order: seq<Nibble>, j: nat, i: nat)
    decreases |order|
    requires j <= |order| && NibbleScan(bucket, own, order[..j], i).thrown.Some?
    ensures NibbleScan(bucket, own, order, i) == NibbleScan(bucket, own, order[..j], i)
  {
    if j < |order| {
      var init := order[..|order| - 1];
      assert init[..j] == order[..j];
      NibbleScanSticks(bucket, own, init, j, i);
    } else {
      assert order[..j] == order;
    }
  }

  /** Once the walk has thrown at some depth, the deeper depths add nothing. */
  lemma {:induction false} DepthScanSticks(n: Node, from: nat, k: nat, to: nat, gt: bool, start: nat)
    decreases to
    requires k <= to && DepthScan(n, from, k, gt, start).thrown.Some?
    ensures DepthScan(n, from, to, gt, start) == DepthScan(n, from, k, gt, start)
  {
    if k < to {
      DepthScanSticks(n, from, k, to - 1, gt, start);
    }
  }

  /** The frames the pushes leave on `_pendingStack`: no path, no node until the fetch lands. */
  function PointerFrames(ps: seq<Push>): (r: seq<Frame>)
    ensures |r| == |ps|
  {
    if ps == [] then []
    else PointerFrames(ps[..|ps| - 1]) + [Frame(None, None, ps[|ps| - 1].depth)]
  }

  lemma {:induction false} PointerFramesAppend(a: seq<Push>, b: seq<Push>)
    ensures PointerFrames(a + b) == PointerFrames(a) + PointerFrames(b)
  {
    if b != [] {
      PointerFramesAppend(a, b[..|b| - 1]);
      assert (a + b)[..|a + b| - 1] == a + b[..|b| - 1];
    } else {
      assert a + b == a;
    }
  }

  /** The pointers the pushes fetch, in push order. */
  function Fetched(ps: seq<Push>): (r: seq<Pointer>)
    ensures |r| <= |ps|
  {
    if ps == [] then []
    else Fetched(ps[..|ps| - 1]) + if ps[|ps| - 1].ptr.Some? then [ps[|ps| - 1].ptr.value] else []
  }

  lemma {:induction false} FetchedAppend(a: seq<Push>, b: seq<Push>)
    ensures Fetched(a + b) == Fetched(a) + Fetched(b)
  {
    if b != [] {
      FetchedAppend(a, b[..|b| - 1]);
      assert (a + b)[..|a + b| - 1] == a + b[..|b| - 1];
    } else {
      assert a + b == a;
    }
  }

  /** The walk of `_allNodes` from a frame at depth `from`. */
  function ScanNode(n: Node, from: nat, end: Option<nat>, gt: bool, start: nat): Scan {
    DepthScan(n, from, StopDepth(n, end), gt, start)
  }

  /** What two walks in a row leave behind: the frames and fetches of the first, then those
      of the second. */
  lemma ThenEffects(stack0: seq<Frame>, a: Scan, b: Scan)
    requires a.thrown.None?
    ensures var c := Then(a, b);
      && stack0 + PointerFrames(a.pushes) + PointerFrames(b.pushes) == stack0 + PointerFrames(c.pushes)
      && |c.pushes| == |a.pushes| + |b.pushes|
      && Fetched(a.pushes) + Fetched(b.pushes) == Fetched(c.pushes)
  {
    PointerFramesAppend(a.pushes, b.pushes);
    AppendAssoc(stack0, PointerFrames(a.pushes), PointerFrames(b.pushes));
    FetchedAppend(a.pushes, b.pushes);
  }
}
