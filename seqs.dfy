/** Facts about sequences that the solver does not find on its own. */
module Seqs {
  /** Concatenation is associative. */
  lemma Concat3<T>(a: seq<T>, b: seq<T>, c: seq<T>)
    ensures a + b + c == a + (b + c)
  {
  }
}
