// Small facts about sequence slices and concatenation, stated once for any
// element type so that proofs about texts, byte buffers and queues can cite
// them instead of re-deriving sequence equalities.

module Seqs {

  lemma AppendAssoc<T>(a: seq<T>, b: seq<T>, c: seq<T>)
    ensures a + (b + c) == (a + b) + c
  {
  }

  lemma SplitAt<T>(s: seq<T>, k: nat)
    requires k <= |s|
    ensures s[..k] + s[k..] == s
  {
  }

  lemma PrefixExtend<T>(s: seq<T>, i: nat, j: nat)
    requires i <= j <= |s|
    ensures s[..j] == s[..i] + s[i..j]
  {
  }

  lemma PrefixWhole<T>(s: seq<T>)
    ensures s[..|s|] == s
  {
  }

  lemma PrefixOfPrefix<T>(s: seq<T>, i: nat, j: nat)
    requires i <= j <= |s|
    ensures s[..j][..i] == s[..i]
  {
  }
}
