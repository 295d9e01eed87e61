/** Small facts about sequences, stated once so that larger proofs can cite them. */
module Seqs {

  lemma TakeNext<T>(s: seq<T>, k: nat)
    requires k < |s|
    ensures s[..k + 1] == s[..k] + [s[k]]
  {
  }

  lemma TakeAll<T>(s: seq<T>)
    ensures s[..|s|] == s
  {
  }

  ghost predicate Apart<T>(s: seq<T>, i: nat, j: nat)
    requires i < |s| && j < |s|
  {
    s[i] != s[j]
  }

  /** No element occurs twice.  A proof names the pair it needs with Apart. */
  ghost predicate Distinct<T>(s: seq<T>) {
    forall i: nat, j: nat :: i < j < |s| ==> Apart(s, i, j)
  }

  lemma DistinctAppend<T>(s: seq<T>, x: T)
    requires Distinct(s) && x !in s
    ensures Distinct(s + [x])
  {
    forall i: nat, j: nat | i < j < |s + [x]| ensures Apart(s + [x], i, j) {
      if j < |s| { assert Apart(s, i, j); }
    }
  }
}
