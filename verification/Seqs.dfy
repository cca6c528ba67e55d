/** Options and sums over sequences, shared by the other modules. */
module Seqs {

  datatype Option<+T> = None | Some(value: T)

  function Min(a: int, b: int): int {
    if a <= b then a else b
  }

  /** The total weight of a sequence: used to count threads by what they are doing. */
  function SumBy<T>(xs: seq<T>, f: T -> nat): nat {
    if xs == [] then 0 else f(xs[0]) + SumBy(xs[1..], f)
  }

  lemma {:induction false} SumUpdate<T>(xs: seq<T>, i: nat, x: T, f: T -> nat)
    requires i < |xs|
    ensures SumBy(xs[i := x], f) + f(xs[i]) == SumBy(xs, f) + f(x)
  {
    if i == 0 {
      assert xs[0 := x][1..] == xs[1..];
    } else {
      assert xs[i := x][1..] == xs[1..][i - 1 := x];
      SumUpdate(xs[1..], i - 1, x, f);
    }
  }

  /** A positive total has a positive member. */
  lemma {:induction false} SumWitness<T>(xs: seq<T>, f: T -> nat) returns (i: nat)
    requires SumBy(xs, f) > 0
    ensures i < |xs| && f(xs[i]) > 0
  {
    if f(xs[0]) > 0 {
      i := 0;
    } else {
      i := SumWitness(xs[1..], f);
      i := i + 1;
    }
  }

  predicate Increasing(ks: seq<nat>) {
    forall i, j :: 0 <= i < j < |ks| ==> ks[i] < ks[j]
  }

  lemma ConsIncreasing(lo: nat, ks: seq<nat>)
    requires Increasing(ks) && forall k :: k in ks ==> lo < k
    ensures Increasing([lo] + ks)
    ensures forall k :: k in [lo] + ks <==> k == lo || k in ks
  {
    assert forall i :: 0 <= i < |ks| ==> ks[i] in ks;
  }

  lemma SnocIncreasing(ks: seq<nat>, hi: nat)
    requires Increasing(ks) && forall k :: k in ks ==> k < hi
    ensures Increasing(ks + [hi])
    ensures forall k :: k in ks + [hi] <==> k in ks || k == hi
  {
    assert forall i :: 0 <= i < |ks| ==> ks[i] in ks;
  }
}
