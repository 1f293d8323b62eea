/** Small facts about sequences shared by the trie walk and the iterator. */
module Seqs {

  /** Concatenation regroups freely; used when a pushed suffix is appended in two steps. */
  lemma AppendAssoc<T>(a: seq<T>, b: seq<T>, c: seq<T>)
    ensures (a + b) + c == a + (b + c)
  {
  }
}
