/** Small facts about sequences shared by the other modules. */
module Seqs {

  /**
   * Concatenation is associative. The verifier knows this, but only finds it
   * cheaply when a proof names the three parts, so the proofs that regroup
   * buffers and yielded batches call this lemma at the step that needs it.
   */
  lemma ConcatAssoc<T>(a: seq<T>, b: seq<T>, c: seq<T>)
    ensures a + (b + c) == (a + b) + c
  {
  }
}
