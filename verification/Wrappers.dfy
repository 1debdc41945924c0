/** The failure-carrying datatypes shared by every module. */
module Wrappers {

  datatype Option<+T> = None | Some(value: T)

  datatype Result<+T, +E> = Ok(value: T) | Err(error: E)

  // ----- Concatenation, kept out of the larger proofs -----

  lemma Associative<T>(a: seq<T>, b: seq<T>, c: seq<T>)
    ensures (a + b) + c == a + (b + c)
  {
  }

  lemma Regroup<T>(a: seq<T>, b: seq<T>, c: seq<T>, d: seq<T>, e: seq<T>)
    requires b + c == d + e
    ensures (a + b) + c == (a + d) + e
  {
    Associative(a, b, c);
    Associative(a, d, e);
  }

  lemma SliceThen<T>(s: seq<T>, i: nat, k: nat, last: seq<T>)
    requires i < k <= |s|
    ensures s[i..k] + last == [s[i]] + (s[i + 1..k] + last)
  {
  }

  lemma Pushed<T>(all: seq<T>, taken: seq<T>, more: seq<T>, back: seq<T>, a: seq<T>, b: seq<T>)
    requires all == taken + (more + back) && taken == a + b
    ensures all == (a + (b + more)) + back
  {
    Associative(a, b, more);
  }
}
