/** Regrouping concatenations, stated once so that proofs about lists built
    by appending can name the step instead of rediscovering it. */
module Sequences {

  lemma AppendAssociates<T>(a: seq<T>, b: seq<T>, c: seq<T>)
    ensures a + (b + c) == a + b + c
  {
  }

  lemma AppendAssociates4<T>(a: seq<T>, b: seq<T>, c: seq<T>, d: seq<T>)
    ensures a + (b + c + d) == a + b + c + d
  {
  }

  /** A prefix agrees with the longer list on every position it has. */
  lemma PrefixAgrees<T>(a: seq<T>, b: seq<T>, k: nat)
    ensures a <= b && k < |a| ==> a[..k] == b[..k] && a[k] == b[k]
  {
  }
}
