/** Sums over a sequence, and how one update changes them. */
module Sums {
  function SumBy<T(!new)>(xs: seq<T>, f: T -> nat): nat {
    if xs == [] then 0 else f(xs[0]) + SumBy(xs[1..], f)
  }

  lemma {:induction false} SumUpdate<T(!new)>(xs: seq<T>, i: nat, x: T, f: T -> nat)
    requires i < |xs|
    ensures SumBy(xs[i := x], f) == SumBy(xs, f) - f(xs[i]) + f(x)
  {
    if i == 0 {
      assert xs[0 := x][1..] == xs[1..];
    } else {
      assert xs[i := x][1..] == xs[1..][i - 1 := x];
      SumUpdate(xs[1..], i - 1, x, f);
    }
  }

  lemma {:induction false} SumAppend<T(!new)>(xs: seq<T>, x: T, f: T -> nat)
    ensures SumBy(xs + [x], f) == SumBy(xs, f) + f(x)
  {
    if xs == [] {
      assert xs + [x] == [x];
      assert SumBy([x], f) == f(x) + SumBy([x][1..], f);
    } else {
      assert (xs + [x])[1..] == xs[1..] + [x];
      SumAppend(xs[1..], x, f);
    }
  }

  lemma {:induction false} SumAtLeast<T(!new)>(xs: seq<T>, i: nat, f: T -> nat)
    requires i < |xs|
    ensures f(xs[i]) <= SumBy(xs, f)
  {
    if i > 0 { SumAtLeast(xs[1..], i - 1, f); }
  }

  lemma {:induction false} SumZero<T(!new)>(xs: seq<T>, f: T -> nat)
    requires forall i :: 0 <= i < |xs| ==> f(xs[i]) == 0
    ensures SumBy(xs, f) == 0
  {
    if xs != [] { SumZero(xs[1..], f); }
  }

  lemma {:induction false} SumConcat<T(!new)>(xs: seq<T>, ys: seq<T>, f: T -> nat)
    ensures SumBy(xs + ys, f) == SumBy(xs, f) + SumBy(ys, f)
  {
    if xs == [] {
      assert xs + ys == ys;
    } else {
      assert (xs + ys)[1..] == xs[1..] + ys;
      SumConcat(xs[1..], ys, f);
    }
  }
}
