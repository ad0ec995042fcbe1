/**
 * Regrouping facts about sequence concatenation and slicing, shared by the
 * scanner and the jobs. Each states one reassociation the proofs need
 * as a single step.
 */
module Seqs {

  /** Cutting `s[i..]` at `j` and `k`. */
  lemma ThreeSlices<T>(s: seq<T>, i: nat, j: nat, k: nat)
    requires i <= j <= k <= |s|
    ensures s[i..] == s[i..j] + s[j..k] + s[k..]
  {
  }

  lemma Assoc<T>(x: seq<T>, y: seq<T>, z: seq<T>)
    ensures x + (y + z) == x + y + z
  {
  }

  lemma Regroup<T>(a: seq<T>, b: seq<T>, c: seq<T>, d: seq<T>)
    ensures a + b + c + d == a + (b + c + d)
    ensures a + [] + c + d == a + (c + d)
  {
  }

  lemma Nest4<T>(w: seq<T>, x: seq<T>, y: seq<T>, z: seq<T>)
    ensures w + (x + (y + (z + []))) == w + x + y + z
  {
    assert z + [] == z;
  }

  lemma Prepend<T>(x: seq<T>, y: seq<T>, a: seq<T>, b: seq<T>, c: seq<T>)
    requires x == a + b + c && y == b + c
    ensures x == a + y
  {
  }

  /** Replacing the tail after one element by an equal one. */
  lemma Glue<T>(x: seq<T>, l: seq<T>, e: T, y: seq<T>, z: seq<T>)
    requires x == l + [e] + y && y == z
    ensures x == l + [e] + z
  {
  }
}
