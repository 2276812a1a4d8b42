/**
 * Small facts about sequences, kept apart so that the proofs that use
 * them do not have to rediscover them in a larger context.
 */
module Seqs {

  /** Appending one element after a concatenation. */
  lemma AppendSnoc<T>(a: seq<T>, b: seq<T>, x: T)
    ensures a + (b + [x]) == (a + b) + [x]
  {
  }

  /** A non-empty sequence is its prefix followed by its last element. */
  lemma Snoc<T>(s: seq<T>)
    requires |s| > 0
    ensures s == s[..|s| - 1] + [s[|s| - 1]]
  {
  }

  /** Dropping the last element of a constant sequence. */
  lemma ConstantPrefix<T>(n: nat, x: T)
    requires n > 0
    ensures seq(n, _ => x)[..n - 1] == seq(n - 1, _ => x)
  {
  }

  lemma TakeSnoc<T>(s: seq<T>, k: nat)
    requires k < |s|
    ensures s[..k + 1] == s[..k] + [s[k]]
  {
  }
}
