/** Equations between sequences that the proofs name instead of leaving them to the solver. */
module Sequences {
  /** The shorter of two lengths. */
  function Min(a: nat, b: nat): nat {
    if a < b then a else b
  }

  lemma ConcatAssociative<T>(a: seq<T>, b: seq<T>, c: seq<T>)
    ensures (a + b) + c == a + (b + c)
  {}

  lemma EmptyInFront<T>(s: seq<T>)
    ensures [] + s == s
  {}

  lemma EmptyBehind<T>(s: seq<T>)
    ensures s + [] == s
  {}

  lemma CutInFront<T>(s: seq<T>, t: seq<T>, n: nat)
    requires n <= |s|
    ensures s + t == s[..n] + (s[n..] + t)
  {}
}
