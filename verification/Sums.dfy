/** Sums of sequences of natural numbers. */
module Sums {

  function Sum(xs: seq<nat>): nat {
    if xs == [] then 0 else Sum(xs[..|xs| - 1]) + xs[|xs| - 1]
  }

  lemma {:induction false} SumUpdate(xs: seq<nat>, i: nat, v: nat)
    requires i < |xs|
    ensures Sum(xs[i := v]) == Sum(xs) - xs[i] + v
  {
    var n := |xs| - 1;
    if i == n {
      assert xs[i := v][..n] == xs[..n];
    } else {
      SumUpdate(xs[..n], i, v);
      assert xs[i := v][..n] == xs[..n][i := v];
    }
  }

  lemma {:induction false} SumConst(xs: seq<nat>, c: nat)
    requires forall i :: 0 <= i < |xs| ==> xs[i] == c
    ensures Sum(xs) == |xs| * c
  {
    if xs != [] {
      SumConst(xs[..|xs| - 1], c);
    }
  }

  lemma {:induction false} SumAtLeast(xs: seq<nat>, c: nat)
    requires forall i :: 0 <= i < |xs| ==> xs[i] >= c
    ensures Sum(xs) >= |xs| * c
  {
    if xs != [] {
      SumAtLeast(xs[..|xs| - 1], c);
      assert |xs| * c == (|xs| - 1) * c + c;
    }
  }

  /** No element exceeds the sum. */
  lemma {:induction false} SumHas(xs: seq<nat>, i: nat)
    requires i < |xs|
    ensures Sum(xs) >= xs[i]
  {
    if i < |xs| - 1 {
      SumHas(xs[..|xs| - 1], i);
    }
  }

  lemma {:induction false} SumConcat(xs: seq<nat>, ys: seq<nat>)
    ensures Sum(xs + ys) == Sum(xs) + Sum(ys)
  {
    if ys == [] {
      assert xs + ys == xs;
    } else {
      assert (xs + ys)[..|xs| + |ys| - 1] == xs + ys[..|ys| - 1];
      SumConcat(xs, ys[..|ys| - 1]);
    }
  }

  lemma SumOfTwo(a: nat, b: nat)
    ensures Sum([a]) == a && Sum([a, b]) == a + b
  {
    assert [a][..0] == [];
    assert [b][..0] == [];
    assert [a] + [b] == [a, b];
    SumConcat([a], [b]);
  }
}
