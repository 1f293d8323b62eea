/** The data the iterator walks: pointers, trie buckets, nodes and traversal frames. */
module Nodes {
  import opened Wrappers

  /** A nibble of a hash path (0..3, with 4 as the path terminator). */
  type Nibble = nat

  type Path = seq<Nibble>

  /** A reference `(feed, seq)` to another node, resolved by the node store. */
  datatype Pointer = Pointer(feed: nat, seqNo: nat)

  /** One depth of a node's trie: slot `v` holds the pointers recorded for nibble `v`.
      `None` is an absent (falsy) slot; `Some([])` is an empty array, which is truthy. */
  type Bucket = seq<Option<seq<Pointer>>>

  /** A stored node. `value == None` stands for `null` and `undefined`; together with the
      empty string it is a tombstone (a falsy value). `trie[i] == None` is a depth without
      a bucket. */
  datatype Node = Node(
    key: string,
    value: Option<string>,
    path: Path,
    trie: seq<Option<Bucket>>,
    clock: seq<nat>,
    feed: nat,
    seqNo: nat)

  /** A traversal frame: `path` set and `node` absent asks for a prefix lookup; `node` set is
      a resolved node whose trie is scanned from depth `i`; both absent is a pointer frame
      whose fetch has not (successfully) landed. */
  datatype Frame = Frame(path: Option<Path>, node: Option<Node>, i: nat)

  /** Synchronous exceptions the source raises. */
  datatype Exception =
    | HandleMultipleValues   // the explicit `throw new Error('handle multiple values')`
    | MissingPointer         // TypeError: `ptr.feed` on the `undefined` first entry of an empty slot
    | NullPath               // TypeError: `path.length` on the `null` path of a failed pointer frame
    | CompareGroups          // TypeError: the node comparator reads `.clock` of a collision group
    | NullGroup              // TypeError: `allDeletes(null)` reads `.length` of a `null` group

  /** A failure reported by the node store. */
  datatype StoreError = StoreError(message: string)

  /** The JavaScript truthiness of a node's value: absent and empty values are falsy. */
  predicate Live(n: Node) {
    n.value.Some? && n.value.value != ""
  }

  /** `bucket[v]`, with an index past the end reading as `undefined`. */
  function Slot(bucket: Bucket, v: Nibble): Option<seq<Pointer>> {
    if v < |bucket| then bucket[v] else None
  }

  /** `node.trie[i]`, with an index past the end reading as `undefined`. */
  function BucketAt(n: Node, i: nat): Option<Bucket> {
    if i < |n.trie| then n.trie[i] else None
  }

  /** `node.path[i]`, the node's own nibble at depth `i`. */
  function Own(n: Node, i: nat): Option<Nibble> {
    if i < |n.path| then Some(n.path[i]) else None
  }
}
