# hyperdb latest-value iterator, modelled in Dafny

This project models `lib/iterator-latest.js` of hyperdb. That file is the resumable
depth-first walker over a multi-writer hash trie. Keys are hashed into paths of nibbles
(0..3, with 4 as the terminator). Every stored node carries a trie with one bucket per
depth: slot `v` of a bucket lists pointers `(feed, seq)` to nodes whose paths continue
through nibble `v`. Concurrent writers can leave several nodes at one path. The iterator
walks the trie from a root prefix and fetches pointed-to nodes from the store. It orders
what it fetches by vector clock, groups nodes that share a key into collision groups,
skips tombstones, and hands every result through the caller's optional `map` and `reduce`.

The modules follow the file's structure:

- `Nodes`: pointers, buckets, nodes, traversal frames, and the synchronous exceptions the
  code raises.
- `Clocks`: `sortNodesByClock`, `sortByClockAndSeq` and `sortStackByClockAndSeq`.
- `Sorting`: `Array.prototype.sort`, modelled as a stable insertion sort. For a total
  preorder (`byKey`) a stable sort has exactly one result, so it agrees with the engine's.
- `Keys`: `byKey`, `isPrefix`, `allDeletes` and `visitTrie`.
- `Grouping`: `_filterResult` stated as a cut of the key-sorted batch into same-key runs,
  `drain`, and the sort `_multiNode` applies to the collision list.
- `TrieWalk`: `_sortOrder` and the single-node walk of `_allNodes`, stated as a
  specification. It says which pointer frames the walk pushes, in which order, and when it
  throws.
- `Projection`: `_prereturn`.
- `Engine`: the `Iterator` object as a class. Its fields `stack`, `pendingStack`,
  `prefixStack`, `latestNodes`, `collisions`, `pending` and `error` are updated in place by
  its methods.

Calls into the node store are not made. A method that would start one returns an `Outcome`
naming the request: `FetchPointers` for `_getPointer`, `QueryPrefix` for `_lookupPrefix`.
The store's answer comes back through the event methods `OnPointerArrived` and
`OnPrefixArrived`. A tail call `this._next(cb)` is returned as `Continue`, and the event
method then performs it. Synchronous exceptions are `Thrown` outcomes.

The file is an early variant of the traversal. The model follows the code as written;
notably:

- A self-collision, or a slot with more than one pointer, throws `handle multiple values`
  (`lib/iterator-latest.js:102`, `:114`). The self-continuation push is commented out.
- `_allNodes` scans every depth of a node in one call, with no suspension between depths.
- `_allNodes` emits `[node]` without looking at the node's value or at the prefix.
- An empty slot array (`[]`, which is truthy) at another nibble calls `_pushPointer` with
  `undefined`. That raises a TypeError after the counter and the pending stack have been
  updated.
- `_multiNode` pushes its prefix frames onto `_prefixStack`, which nothing pops.
- `_multiNode` pushes the result of `_filterResult` even when it is `null`, and `drain`
  then fails on it (`NullGroup`).
- `_multiNode` sorts the collision list with the node comparator. Two groups (arrays) make
  it read `.clock` of an array, and that throws (`CompareGroups`).
- `_multiNode` with a batch and a `null` path fails on `path.length` (`NullPath`).

## Model

| member | source | states |
|---|---|---|
| `Clocks.ClockFlags` | lib/iterator-latest.js:276-284 | after components `0..n-1`, `isGreater` holds iff some component of `a` (missing counts as 0) is larger, `isLess` iff some is smaller |
| `Clocks.SortNodesByClock` | lib/iterator-latest.js:275-289 | 1 iff `a`'s clock causally succeeds `b`'s, -1 iff `b`'s succeeds `a`'s, 0 iff the clocks are equal or concurrent |
| `Clocks.PaddingInvariant` | lib/iterator-latest.js:278-281 | zero-padding either clock never changes the comparison |
| `Clocks.SortNodesByClockAntisymmetric` | lib/iterator-latest.js:275-289 | swapping the arguments negates the result |
| `Clocks.ConcurrentClocksTie` | lib/iterator-latest.js:285 | clocks that are each ahead in some component compare as 0 |
| `Clocks.SortByClockAndSeq` | lib/iterator-latest.js:295-308 | a node sorts before `null`; a causally later node sorts after; the result is 0 iff both are `null` or the clocks are unordered with the same feed and seq |
| `Clocks.SortByClockAndSeqAntisymmetric` | lib/iterator-latest.js:295-308 | swapping the arguments negates the result, including every tie-break |
| `Clocks.SameFeedBySeq` | lib/iterator-latest.js:302 | for unordered clocks in one feed, `a` sorts first iff its seq is smaller |
| `Clocks.OtherFeedByOffset` | lib/iterator-latest.js:303-307 | for unordered clocks in different feeds, `a` sorts first iff its offset (clock sum plus seq) is smaller; on equal offsets, iff its feed is larger |
| `Clocks.SortStackByClockAndSeq` | lib/iterator-latest.js:291-293 | frames compare by their nodes, antisymmetrically |
| `Sorting.Sort` | lib/iterator-latest.js:196 | the sort returns a permutation of its input |
| `Sorting.SortLocallySorted` | lib/iterator-latest.js:196 | with an antisymmetric comparator, neighbouring elements of the result are in order |
| `Sorting.SortTotalPreorder` | lib/iterator-latest.js:156 | with a total preorder, every pair of the result is in order and its last element is maximal |
| `Keys.ByKey` | lib/iterator-latest.js:237-240 | `a` sorts first iff its key is greater, or the keys are equal and its feed is greater; 0 iff key and feed agree |
| `Keys.ByKeyTotalPreorder` | lib/iterator-latest.js:237-240 | `byKey` is antisymmetric and transitive on any batch |
| `Keys.SortByKey` | lib/iterator-latest.js:156 | `nodes.sort(byKey)` is a permutation of the batch with every pair in `byKey` order |
| `Keys.IsPrefix` | lib/iterator-latest.js:269-273 | true iff the prefix is a prefix of the string; the empty prefix matches everything |
| `Keys.AllDeletes` | lib/iterator-latest.js:242-247 | true iff no node of the group has a (truthy) value |
| `Keys.VisitTrie` | lib/iterator-latest.js:249-257 | true iff some node has a slot for the nibble at that depth or its own path goes through it |
| `Grouping.Keep` | lib/iterator-latest.js:158-161 | exactly the nodes at the scan depth (or at the end depth) whose key lies under the prefix are kept |
| `Grouping.Runs` | lib/iterator-latest.js:163-173 | every run is non-empty, shares one key and holds only nodes of the input; no runs iff no nodes |
| `Grouping.RunsFlatten` | lib/iterator-latest.js:163-173 | concatenating the runs gives back the kept nodes in order |
| `Grouping.RunsAdjacentDiffer` | lib/iterator-latest.js:165-171 | neighbouring runs have different keys, so runs are maximal |
| `Grouping.RunsOfSortedBatch` | lib/iterator-latest.js:156-173 | in a batch sorted by descending key, run keys strictly decrease |
| `Grouping.LiveRuns` | lib/iterator-latest.js:167-169 | exactly the runs that are not all tombstones are kept |
| `Grouping.RunsSnocState` | lib/iterator-latest.js:163-173 | one more node joins the open run when the keys agree; otherwise it opens a new run, and the closed run is pushed unless it is all tombstones |
| `Grouping.FilterStepRuns` | lib/iterator-latest.js:160-173 | one turn of the loop moves its state exactly as one more kept node moves the runs |
| `Grouping.FilterLoopRuns` | lib/iterator-latest.js:158-174 | the loop has pushed the live closed runs of the kept nodes and holds the open run |
| `Grouping.FilterLoopIsSpec` | lib/iterator-latest.js:153-176 | the loop over the key-sorted batch computes `FilterSpec` |
| `Grouping.SortByKeyDescending` | lib/iterator-latest.js:156 | the sorted batch has non-increasing keys and the same members |
| `Grouping.FilterSpecGroups` | lib/iterator-latest.js:153-176 | every group is non-empty with one key; its members pass the depth and prefix filters; pushed groups are never all tombstones; the result is `null` iff no node passes |
| `Grouping.FilterSpecKeysDistinct` | lib/iterator-latest.js:153-176 | the pushed groups and the result all have different keys |
| `Grouping.FilterRunsDecreasing` | lib/iterator-latest.js:156-173 | the runs `_filterResult` cuts have strictly decreasing keys |
| `Grouping.DrainSpec` | lib/iterator-latest.js:259-267 | `drain` leaves a prefix of the list; every popped and skipped entry is all tombstones; it stops at the first other group or at a `null`; an exhausted drain empties the list |
| `Grouping.Drain` | lib/iterator-latest.js:259-267 | the popping loop computes `DrainSpec` |
| `Grouping.SortCollisions` | lib/iterator-latest.js:149 | sorting the collision list throws iff it holds two or more groups; otherwise the result is a permutation with every group before every `null` |
| `TrieWalk.SortOrder` | lib/iterator-latest.js:232-235 | `SORT_GT` iff the depth is the root depth and the search is exclusive (or starts at the trie root); `SORT_GTE` otherwise |
| `TrieWalk.NibbleStepSpec` | lib/iterator-latest.js:94-117 | one nibble throws iff its slot is rejected: an empty array at another nibble raises the TypeError of `_pushPointer(undefined)` (line 48), every other rejection `handle multiple values` (lines 102, 114); any frame it pushes is one deeper, at a nibble other than the node's own, for that slot's single pointer |
| `TrieWalk.NibbleScanSound` | lib/iterator-latest.js:90-118 | every frame pushed at one depth is one deeper, at a visited nibble other than the node's own, for that slot's single pointer |
| `TrieWalk.NibbleScanThrows` | lib/iterator-latest.js:90-118 | the walk at one depth throws iff it visits a rejected slot, and it raises what the first rejected slot in the visiting order raises |
| `TrieWalk.NibbleScanComplete` | lib/iterator-latest.js:112-117 | a walk at one depth that does not throw pushes a frame for every single pointer outside the node's own nibble |
| `TrieWalk.StopDepth` | lib/iterator-latest.js:78 | the walk stops at `min(_end, trie.length)` |
| `TrieWalk.DepthStepSound` | lib/iterator-latest.js:82-118 | the frames pushed at depth `i` are one deeper and carry their slot's single pointer |
| `TrieWalk.DepthScanSound` | lib/iterator-latest.js:80-119 | every frame pushed is one deeper than a scanned depth, at a nibble other than the node's own, for its slot's single pointer |
| `TrieWalk.DepthStepDepths` | lib/iterator-latest.js:82-118 | every frame pushed at depth `i` has depth `i + 1` |
| `TrieWalk.DepthScanOrdered` | lib/iterator-latest.js:80-119 | frames are pushed in order of depth, none deeper than one below the last scanned depth |
| `TrieWalk.DepthStepThrows` | lib/iterator-latest.js:82-118 | one depth throws iff it has a bucket with a rejected slot, and it raises what the first rejected slot in the visiting order raises |
| `TrieWalk.DepthScanThrows` | lib/iterator-latest.js:80-119 | the walk throws iff some scanned depth holds a rejected slot |
| `TrieWalk.DepthScanThrowsFirst` | lib/iterator-latest.js:80-119 | a walk over the shallowest depth with a rejected slot throws, and raises what that depth raises |
| `TrieWalk.DepthScanComplete` | lib/iterator-latest.js:80-119 | a walk that does not throw pushes a frame for every single pointer it visits |
| `Projection.Lift` | lib/iterator-latest.js:227 | `nodes.map(map)` keeps the length and maps every element |
| `Projection.Reduce` | lib/iterator-latest.js:228 | `reduce` of one element is that element |
| `Projection.ReduceSnoc` | lib/iterator-latest.js:228 | `reduce` is a left fold |
| `Projection.Prereturn` | lib/iterator-latest.js:226-230 | without `reduce`, the list is mapped element by element; with `reduce`, the result is one folded value, and a single node folds to its own image |
| `Projection.PrereturnSnoc` | lib/iterator-latest.js:226-230 | map then reduce of a group equals mapping and left-folding it by hand |
| `Engine.PrefixPath` | lib/iterator-latest.js:70 | the prefix path keeps the first `i` nibbles (or the whole path) and ends with the chosen nibble |
| `Engine.PrefixFrames` | lib/iterator-latest.js:137-145 | every frame pushed is a prefix frame one nibble below the path through which some node continues; every such visited nibble gets one |
| `Engine.StackAntisymmetric` | lib/iterator-latest.js:291-293 | on any pending stack, `a` sorts after `b` iff `b` sorts before `a` |
| `Engine.TakeTop` | lib/iterator-latest.js:194-204 | with frames pending, the rest of them are appended to the stack and the one taken comes last: together a permutation of the pending frames, with every neighbouring pair in clock order; otherwise the stack is popped, or nothing is taken when it is empty |
| `Engine.GreatestFrame` | lib/iterator-latest.js:291-308 | a frame no pending frame sorts above has a clock no pending clock succeeds, and is unfilled whenever an unfilled frame is pending |
| `Engine.TakeTopIsGreatest` | lib/iterator-latest.js:194-201 | with a transitive comparator the appended frames and the taken one are sorted pairwise, and the taken frame is maximal: no pending node's clock succeeds it, and an unfilled frame is taken whenever one is pending |
| `Engine.Iterator.constructor` | lib/iterator-latest.js:11-38 | one prefix frame at the root path (empty without a prefix), empty queues, `_start` the root length, `_end` unbounded for a recursive walk and `_start + LENGTH` otherwise |
| `Engine.Iterator.PushPointer` | lib/iterator-latest.js:42-48 | one more pending fetch and one more empty frame; a missing pointer throws after both |
| `Engine.Iterator.PushNode` | lib/iterator-latest.js:59-65 | the node is pushed as a frame to scan from depth `i` |
| `Engine.Iterator.PushPrefix` | lib/iterator-latest.js:67-74 | a prefix frame for the deeper path is recorded |
| `Engine.Iterator.VisitSlot` | lib/iterator-latest.js:94-117 | one nibble's visit updates the pending stack and counter as `NibbleStep` says |
| `Engine.Iterator.ScanBucket` | lib/iterator-latest.js:90-118 | the nibble loop at one depth updates the pending stack and counter as `NibbleScan` says, and stops at a throw |
| `Engine.Iterator.ScanDepth` | lib/iterator-latest.js:82-118 | one depth of the outer loop acts as `DepthStep` says |
| `Engine.Iterator.WalkDepth` | lib/iterator-latest.js:80-119 | one turn of the depth loop extends the walk by depth `i`; a throw ends the whole walk |
| `Engine.Iterator.WalkDepths` | lib/iterator-latest.js:80-119 | the depth loop leaves the frames, counter, fetches and throw of `DepthScan` |
| `Engine.Iterator.Walk` | lib/iterator-latest.js:76-119 | the depth loop pushes a frame and a fetch for every push of `ScanNode`, and throws as it says |
| `Engine.Iterator.AllNodes` | lib/iterator-latest.js:76-126 | after the walk: a throw ends the call; with no fetch outstanding the node is emitted; otherwise it is held back and the fetches are requested |
| `Engine.FilterTurn` | lib/iterator-latest.js:158-173 | one loop turn moves the pushed groups and the open result exactly as `FilterStep` does |
| `Engine.Iterator.FilterResult` | lib/iterator-latest.js:153-176 | pushes exactly the live closed runs of the kept, key-sorted nodes onto the collisions, and returns the open run |
| `Engine.Iterator.MultiNode` | lib/iterator-latest.js:129-151 | an empty batch goes on; a `null` path throws; one node is pushed back; otherwise prefix frames, the filtered groups, then the collision sort or its TypeError |
| `Engine.Iterator.PushPrefixes` | lib/iterator-latest.js:137-145 | above the end depth, pushes `PrefixFrames` in visiting order |
| `Engine.Iterator.Collide` | lib/iterator-latest.js:147-149 | pushes the filtered groups and the result, then sorts the list or throws |
| `Engine.Iterator.Take` | lib/iterator-latest.js:190-204 | takes the frame `TakeTop` chooses and empties the pending stack |
| `Engine.Iterator.Next` | lib/iterator-latest.js:178-213 | a drained collision first, then the last held-back node, then the taken frame: done, a prefix lookup, or the walk of `_allNodes` |
| `Engine.Iterator.NextFrame` | lib/iterator-latest.js:190-212 | takes the frame `TakeTop` chooses: none ends the iteration, one without a node becomes a prefix lookup with nothing else changed, one with a node is walked as `_allNodes` states |
| `Engine.Iterator.PointerDone` | lib/iterator-latest.js:50-56 | an error overwrites the stored one, a node fills the frame; the counter drops by one; only at zero does the call go on, with the stored error if any |
| `Engine.Iterator.OnPointerArrived` | lib/iterator-latest.js:50-56 | an error overwrites the stored one and leaves the frame alone, a node fills frame `k`; while others are outstanding, or when the last one brings a stored error, the counter drops by one and the stack, the latest nodes and the collisions are unchanged; it then waits, or at zero reports the stored error; otherwise it goes on with `_next` |
| `Engine.Iterator.OnPrefixArrived` | lib/iterator-latest.js:215-224 | a failed lookup is reported with no change; a batch goes to `_multiNode` |

The reference functions that the loops above are proved against carry no contract of their own; they are specified by the lemmas in the table: `TrieWalk.NibbleStep` by `NibbleStepSpec`, `TrieWalk.NibbleScan` by `NibbleScanSound`, `NibbleScanThrows` and `NibbleScanComplete`, `TrieWalk.DepthStep` by `DepthStepSound`, `DepthStepThrows` and `DepthStepDepths`, `TrieWalk.DepthScan` and `TrieWalk.ScanNode` by `DepthScanSound`, `DepthScanOrdered`, `DepthScanThrows`, `DepthScanThrowsFirst` and `DepthScanComplete`, `Grouping.FilterStep` by `FilterStepRuns`, `Grouping.FilterLoop` by `FilterLoopRuns` and `FilterLoopIsSpec`, and `Grouping.FilterSpec` by `FilterSpecGroups` and `FilterSpecKeysDistinct`.

## Left out

- The store calls `_getPointer` and `db.get(..., {prefix: true})` are not made. They
  become the outcomes `FetchPointers` and `QueryPrefix`, and the answers are the event
  methods `OnPointerArrived` and `OnPrefixArrived`. The model assumes the store answers
  asynchronously: an answer never arrives inside the call that asked for it.
- The `nanoiterator` pull protocol and `inherits` are library plumbing. The callback
  becomes the returned `Outcome`.
- `hash(prefix)` and `hash.LENGTH` are external. The root path and the hash length are
  constructor parameters.
- Parsing of the `map` and `reduce` options is left out. They are function parameters.
- The `console.log` in `_pushPrefix` is left out.
- `localeCompare` in `byKey` is replaced by lexicographic order of character codes.
- `Infinity` for `_end` is `None`.
- Node values are strings or absent. `null` and `undefined` are both `None`; `None` and
  the empty string are the tombstones (falsy). Other falsy JavaScript values (`0`,
  `false`, `NaN`) are not modelled.
- A pointer frame is identified by its index in the pending stack. The closure in
  `_pushPointer` holds the frame object itself. The index stays valid because nothing
  moves the pending stack while fetches are outstanding.
- The sort of the pending stack uses a clock comparator that is not transitive under
  concurrent clocks. The engine's order is then implementation-defined; the model uses a
  stable insertion sort. `TakeTopIsGreatest` states maximality only when the comparator is
  transitive on the pending frames.
- The in-place sorts (`nodes.sort`, `_pendingStack.sort`, `_collisions.sort`) are functions
  on values. When `_collisions.sort` throws, the list is left as it was before the sort.
- Engine.Iterator.AllNodes: when the walk throws, the fetches it started before the throw
  are not listed in the outcome. The pending frames and the counter do record them.
- Engine.Iterator.OnPointerArrived: when the last fetch completes without an error, the
  contract does not restate what `_next` then does; `Engine.Iterator.Next` states it.
- Engine.Iterator.OnPrefixArrived: for a batch, the contract does not restate what
  `_multiNode` and `_next` then do; `Engine.Iterator.MultiNode` and
  `Engine.Iterator.Next` state them.
