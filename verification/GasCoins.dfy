/** Gas payment: the greedy choice of coins that cover an amount. */
module GasCoins {
  import opened Arith

  function Total(xs: seq<u64>): nat {
    if xs == [] then 0 else xs[0] + Total(xs[1..])
  }

  ghost predicate Descending(xs: seq<u64>) {
    forall i, j :: 0 <= i < j < |xs| ==> xs[i] >= xs[j]
  }

  /** `sort_by_key(Reverse(balance))`, as an insertion sort. */
  function SortDescending(xs: seq<u64>): seq<u64> {
    if xs == [] then [] else Insert(xs[0], SortDescending(xs[1..]))
  }

  function Insert(x: u64, xs: seq<u64>): seq<u64> {
    if xs == [] || x >= xs[0] then [x] + xs else [xs[0]] + Insert(x, xs[1..])
  }

  lemma {:induction false} InsertContents(x: u64, xs: seq<u64>)
    ensures multiset(Insert(x, xs)) == multiset(xs) + multiset{x} && Total(Insert(x, xs)) == x + Total(xs)
  {
    if xs == [] || x >= xs[0] {
      assert ([x] + xs)[1..] == xs;
    } else {
      InsertContents(x, xs[1..]);
      assert xs == [xs[0]] + xs[1..];
      assert ([xs[0]] + Insert(x, xs[1..]))[1..] == Insert(x, xs[1..]);
    }
  }

  predicate AtMost(xs: seq<u64>, y: u64) {
    forall i :: 0 <= i < |xs| ==> xs[i] <= y
  }

  lemma {:induction false} InsertAtMost(x: u64, xs: seq<u64>, y: u64)
    requires x <= y && AtMost(xs, y)
    ensures AtMost(Insert(x, xs), y)
  {
    if xs != [] && x < xs[0] { InsertAtMost(x, xs[1..], y); }
  }

  lemma {:induction false} InsertOrdered(x: u64, xs: seq<u64>)
    requires Descending(xs)
    ensures Descending(Insert(x, xs))
  {
    if xs != [] && x < xs[0] {
      InsertOrdered(x, xs[1..]);
      InsertAtMost(x, xs[1..], xs[0]);
      assert Insert(x, xs) == [xs[0]] + Insert(x, xs[1..]);
    }
  }

  lemma {:induction false} SortKeeps(xs: seq<u64>)
    ensures Descending(SortDescending(xs)) && multiset(SortDescending(xs)) == multiset(xs)
    ensures Total(SortDescending(xs)) == Total(xs)
  {
    if xs != [] {
      var rest := SortDescending(xs[1..]);
      SortKeeps(xs[1..]);
      InsertContents(xs[0], rest);
      InsertOrdered(xs[0], rest);
      HeadCounts(xs);
      hide Insert, Descending;
    }
  }

  lemma HeadCounts(xs: seq<u64>)
    requires xs != []
    ensures multiset(xs) == multiset(xs[1..]) + multiset{xs[0]}
  {
    assert xs == [xs[0]] + xs[1..];
  }

  lemma {:induction false} TotalSnoc(xs: seq<u64>, x: u64)
    ensures Total(xs + [x]) == Total(xs) + x
  {
    if xs == [] {
      assert xs + [x] == [x] && Total([x]) == x + Total([x][1..]);
    } else {
      assert (xs + [x])[1..] == xs[1..] + [x];
      TotalSnoc(xs[1..], x);
    }
  }

  lemma {:induction false} TotalPrefix(xs: seq<u64>, k: nat)
    requires k <= |xs|
    ensures Total(xs[..k]) <= Total(xs)
  {
    if k > 0 {
      assert xs[..k][1..] == xs[1..][..k - 1];
      TotalPrefix(xs[1..], k - 1);
    }
  }

  /** `pick_gas_coins_covering` on the coins of one page; nothing stands for the error. The running sum
      stays inside `u64` because all coins together do. The result is made of the wallet's coins, covers the
      need, and no selection with fewer coins does. It is missing exactly when nothing is needed or the
      wallet falls short. */
  method PickCovering(coins: seq<u64>, need: u64) returns (r: Option<seq<u64>>)
    requires Total(coins) < TWO_64
    ensures r.None? <==> need == 0 || Total(coins) < need
    ensures r.Some? ==> multiset(r.value) <= multiset(coins) && Total(r.value) >= need
    ensures r.Some? ==> r.value <= SortDescending(coins)
    ensures r.Some? ==> forall t: seq<u64> :: multiset(t) <= multiset(coins) && Total(t) >= need ==> |t| >= |r.value|
  {
    var sorted := SortDescending(coins);
    SortKeeps(coins);
    var picked: seq<u64> := [];
    var sum := 0;
    var i := 0;
    while i < |sorted| && sum < need
      invariant 0 <= i <= |sorted| && picked == sorted[..i] && sum == Total(picked)
      invariant i > 0 ==> Total(sorted[..i - 1]) < need
    {
      assert sorted[..i + 1] == sorted[..i] + [sorted[i]];
      TotalSnoc(picked, sorted[i]);
      sum := sum + sorted[i];
      picked := picked + [sorted[i]];
      i := i + 1;
    }
    TotalPrefix(sorted, i);
    assert sorted[..|sorted|] == sorted;
    if sum < need || picked == [] {
      return None;
    }
    PrefixIsPart(sorted, i);
    FewestCoins(sorted, need, i);
    return Some(picked);
  }

  /** No selection covers the need with fewer coins than the shortest prefix of the sorted wallet that does. */
  lemma FewestCoins(sorted: seq<u64>, need: u64, i: nat)
    requires Descending(sorted) && 0 < i <= |sorted| && Total(sorted[..i - 1]) < need
    ensures forall t: seq<u64> :: multiset(t) <= multiset(sorted) && Total(t) >= need ==> |t| >= i
  {
    forall t: seq<u64> | multiset(t) <= multiset(sorted) && Total(t) >= need ensures |t| >= i {
      PrefixIsBest(sorted, t);
      if |t| < i {
        assert sorted[..|t|] == sorted[..i - 1][..|t|];
        TotalPrefix(sorted[..i - 1], |t|);
      }
    }
  }

  lemma PrefixIsPart(xs: seq<u64>, k: nat)
    requires k <= |xs|
    ensures multiset(xs[..k]) <= multiset(xs)
  {
    assert xs == xs[..k] + xs[k..];
  }

  /** Of all selections of a given size the largest coins add up to the most. */
  lemma {:induction false} PrefixIsBest(xs: seq<u64>, t: seq<u64>)
    requires Descending(xs) && multiset(t) <= multiset(xs)
    ensures |t| <= |xs| && Total(t) <= Total(xs[..|t|])
  {
    if t == [] {
      assert xs[..0] == [];
    } else {
      HeadOut(xs, t);
      TailDescends(xs);
      TotalWithout(t, Chosen(xs, t));
      assert Without(xs, 0) == xs[1..];
      var rest := Without(t, Chosen(xs, t));
      hide *;
      PrefixIsBest(xs[1..], rest);
      HeadAndRest(xs, t, t[Chosen(xs, t)], rest);
    }
  }

  lemma HeadAndRest(xs: seq<u64>, t: seq<u64>, x: u64, rest: seq<u64>)
    requires xs != [] && |t| == |rest| + 1 <= |xs| && x <= xs[0]
    requires Total(t) == x + Total(rest) && Total(rest) <= Total(xs[1..][..|rest|])
    ensures Total(t) <= Total(xs[..|t|])
  {
    TotalHead(xs, |t|);
    hide Total;
  }

  lemma TailDescends(xs: seq<u64>)
    requires Descending(xs) && xs != []
    ensures Descending(xs[1..])
  {}

  lemma TotalHead(xs: seq<u64>, n: nat)
    requires 0 < n <= |xs|
    ensures Total(xs[..n]) == xs[0] + Total(xs[1..][..n - 1])
  {
    assert xs[..n][1..] == xs[1..][..n - 1];
  }

  /** The coin to set against the largest one: itself if it was selected, any selected one otherwise. */
  function Chosen(xs: seq<u64>, t: seq<u64>): (k: nat)
    requires xs != [] && t != []
    ensures k < |t|
  {
    if xs[0] in t then Position(t, xs[0]) else 0
  }

  function Without(t: seq<u64>, k: nat): seq<u64>
    requires k < |t|
  {
    t[..k] + t[k + 1..]
  }

  lemma HeadOut(xs: seq<u64>, t: seq<u64>)
    requires Descending(xs) && multiset(t) <= multiset(xs) && t != []
    ensures xs != []
    ensures var k := Chosen(xs, t);
            t[k] <= xs[0] && multiset(Without(t, k)) <= multiset(Without(xs, 0))
  {
    Selected(t, 0, multiset(xs));
    assert xs != [];
    hide *;
    var k := Chosen(xs, t);
    TakeOut(t, k);
    TakeOut(xs, 0);
    ChosenHead(xs, t);
    DropOne(multiset(Without(t, k)), t[k], multiset(Without(xs, 0)), xs[0]);
    Selected(t, k, multiset(xs));
    LargestFirst(xs, t[k]);
  }

  lemma Selected(t: seq<u64>, k: nat, wallet: multiset<u64>)
    requires k < |t| && multiset(t) <= wallet
    ensures t[k] in wallet
  {
    assert t[k] in multiset(t);
  }

  lemma ChosenHead(xs: seq<u64>, t: seq<u64>)
    requires xs != [] && t != []
    ensures var k := Chosen(xs, t); t[k] == xs[0] || xs[0] !in multiset(Without(t, k))
  {
    if xs[0] !in t { assert forall y :: y in Without(t, Chosen(xs, t)) ==> y in t; }
  }

  lemma LargestFirst(xs: seq<u64>, x: u64)
    requires Descending(xs) && x in multiset(xs)
    ensures xs != [] && x <= xs[0]
  {
    assert x in xs;
  }

  lemma TakeOut(t: seq<u64>, k: nat)
    requires k < |t|
    ensures multiset(t) == multiset(Without(t, k)) + multiset{t[k]}
  {
    assert t == t[..k] + [t[k]] + t[k + 1..];
  }

  lemma DropOne(a: multiset<u64>, x: u64, b: multiset<u64>, y: u64)
    requires a + multiset{x} <= b + multiset{y}
    requires x == y || y !in a
    ensures a <= b
  {
    forall z: u64 ensures a[z] <= b[z] {
      assert (a + multiset{x})[z] <= (b + multiset{y})[z];
    }
  }

  function Position(t: seq<u64>, x: u64): (k: nat)
    requires x in t
    ensures k < |t| && t[k] == x
  {
    if t[0] == x then 0 else 1 + Position(t[1..], x)
  }

  lemma {:induction false} TotalWithout(t: seq<u64>, k: nat)
    requires k < |t|
    ensures Total(t) == t[k] + Total(Without(t, k)) && |Without(t, k)| == |t| - 1
  {
    if k == 0 {
      assert Without(t, 0) == t[1..];
    } else {
      assert Without(t, k)[1..] == Without(t[1..], k - 1);
      TotalWithout(t[1..], k - 1);
    }
  }
}
