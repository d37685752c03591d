/** What several modules share. */
module Basics {
  datatype Option<+T> = None | Some(value: T)

  type Byte = bv8

  /** Pointers to ZF stacks; 0 is the null pointer. */
  type Ptr = nat
  const NULL: Ptr := 0

  const EAGAIN := 11

  function Max(a: nat, b: nat): nat { if a < b then b else a }

  lemma Scaled(a: int, b: int, q: nat)
    requires a <= b
    ensures a * q <= b * q
  {
    assert b * q - a * q == (b - a) * q;
  }

  lemma OneMore(n: nat, q: nat)
    ensures (n + 1) * q == n * q + q
  {
  }

  lemma Assoc<T>(a: seq<T>, b: seq<T>, c: seq<T>)
    ensures a + (b + c) == a + b + c
  {
  }

  ghost predicate Distinct(xs: seq<nat>) {
    forall i, j :: 0 <= i < j < |xs| ==> xs[i] != xs[j]
  }
}
