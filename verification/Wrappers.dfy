/** Optional values and results, for nil and for Go's error returns. */
module Wrappers {
  datatype Option<+T> = None | Some(value: T)

  datatype Result<+T, +E> = Ok(value: T) | Err(error: E)
}

/** The byte type of Go. */
module Bytes {
  type byte = x: int | 0 <= x < 256
}

/** Reversal of sequences. */
module Sequences {
  function Reverse<T>(xs: seq<T>): (ys: seq<T>)
    ensures |ys| == |xs| && forall i | 0 <= i < |xs| :: ys[i] == xs[|xs| - 1 - i]
  {
    if xs == [] then [] else Reverse(xs[1..]) + [xs[0]]
  }

  lemma {:induction false} ReverseConcat<T>(xs: seq<T>, ys: seq<T>)
    ensures Reverse(xs + ys) == Reverse(ys) + Reverse(xs)
    decreases |xs|
  {
  }

  lemma ReverseTwice<T>(xs: seq<T>)
    ensures Reverse(Reverse(xs)) == xs
  {
  }

  /** Reversing one element more puts it at the end. */
  lemma ReverseSnoc<T>(s: seq<T>, i: nat, hi: nat)
    requires i < hi <= |s|
    ensures Reverse(s[i..hi]) == Reverse(s[i + 1..hi]) + [s[i]]
  {
  }
}
