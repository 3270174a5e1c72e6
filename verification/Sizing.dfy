/** Trade-size search: the two loops of the optimizer, and when they find the maximum. */
module Sizing {
  import opened Arith

  /** The caller's closure: a signed value, or nothing for an infeasible size. */
  type Objective = u64 -> Option<i128>

  ghost predicate Feasible(f: Objective, x: u64) {
    f(x).Some?
  }

  /** Whatever is infeasible stays infeasible for larger sizes. */
  ghost predicate PrefixFeasible(f: Objective, lo: u64, hi: u64) {
    forall x: u64, y: u64 :: lo <= x <= y <= hi && Feasible(f, y) ==> Feasible(f, x)
  }

  /** Rises strictly up to `peak` and never rises after it; plateaus on the way down are allowed. */
  ghost predicate Unimodal(f: Objective, lo: u64, hi: u64, peak: u64) {
    && lo <= peak <= hi
    && (forall x: u64, y: u64 :: lo <= x < y <= peak ==> Value(f, x) < Value(f, y))
    && (forall x: u64, y: u64 :: peak <= x < y <= hi ==> Value(f, x) >= Value(f, y))
  }

  /** `f(x).unwrap_or(i128::MIN)`. */
  function Value(f: Objective, x: u64): i128 {
    match f(x) case Some(v) => v case None => I128_MIN
  }

  /** Where bisection between a feasible and an infeasible size ends, and how many probes it takes. */
  function Bisected(f: Objective, lo: u64, hi: u64): (bound: u64)
    requires lo < hi
    ensures lo <= bound < hi
    decreases hi - lo
  {
    if hi - lo == 1 then lo
    else
      var mid := lo + (hi - lo) / 2;
      if f(mid).Some? then Bisected(f, mid, hi) else Bisected(f, lo, mid)
  }

  function Probes(f: Objective, lo: u64, hi: u64): nat
    requires lo < hi
    decreases hi - lo
  {
    if hi - lo == 1 then 0
    else
      var mid := lo + (hi - lo) / 2;
      1 + (if f(mid).Some? then Probes(f, mid, hi) else Probes(f, lo, mid))
  }

  /** Each probe halves the range: their number is logarithmic. */
  lemma {:induction false} ProbesAreLogarithmic(f: Objective, lo: u64, hi: u64)
    requires lo < hi
    ensures hi - lo > 1 ==> Pow(2, Probes(f, lo, hi)) <= 2 * (hi - lo - 1)
    decreases hi - lo
  {
    if hi - lo > 1 {
      var mid := lo + (hi - lo) / 2;
      if f(mid).Some? { ProbesAreLogarithmic(f, mid, hi); } else { ProbesAreLogarithmic(f, lo, mid); }
    }
  }

  /** `feasible_upper_bound`. On a prefix it is the largest feasible size; without that premise it still
      returns a feasible size, and nothing exactly when both ends are infeasible. */
  method FeasibleUpperBound(f: Objective, low: u64, high: u64) returns (r: Option<u64>)
    requires low <= high
    ensures r.Some? ==> low <= r.value <= high && Feasible(f, r.value)
    ensures r.None? <==> !Feasible(f, high) && !Feasible(f, low)
    ensures r.Some? && r.value < high ==> !Feasible(f, r.value + 1)
    ensures !Feasible(f, high) && Feasible(f, low) ==> low < high && r == Some(Bisected(f, low, high))
    ensures PrefixFeasible(f, low, high) && r.Some? ==>
              forall x: u64 :: low <= x <= high ==> (Feasible(f, x) <==> x <= r.value)
    ensures PrefixFeasible(f, low, high) && r.None? ==>
              forall x: u64 :: low <= x <= high ==> !Feasible(f, x)
  {
    hide Bisected, PrefixFeasible;
    if f(high).Some? {
      PrefixBound(f, low, high, Some(high));
      return Some(high);
    }
    if f(low).None? {
      PrefixBound(f, low, high, None);
      return None;
    }
    var lo, hi := low, high;
    while hi - lo > 1
      invariant low <= lo < hi <= high
      invariant Feasible(f, lo) && !Feasible(f, hi)
      invariant Bisected(f, lo, hi) == Bisected(f, low, high)
    {
      var mid := lo + (hi - lo) / 2;
      BisectStep(f, lo, hi);
      if f(mid).Some? {
        lo := mid;
      } else {
        hi := mid;
      }
    }
    BisectStep(f, lo, hi);
    PrefixBound(f, low, high, Some(lo));
    return Some(lo);
  }

  /** What such a bound means on a prefix. */
  lemma PrefixBound(f: Objective, low: u64, high: u64, r: Option<u64>)
    requires low <= high && (r.None? ==> !Feasible(f, low))
    requires r.Some? ==> low <= r.value <= high && Feasible(f, r.value) && (r.value < high ==> !Feasible(f, r.value + 1))
    ensures PrefixFeasible(f, low, high) && r.Some? ==>
              forall x: u64 :: low <= x <= high ==> (Feasible(f, x) <==> x <= r.value)
    ensures PrefixFeasible(f, low, high) && r.None? ==> forall x: u64 :: low <= x <= high ==> !Feasible(f, x)
  {}

  lemma BisectStep(f: Objective, lo: u64, hi: u64)
    requires lo < hi
    ensures hi - lo == 1 ==> Bisected(f, lo, hi) == lo
    ensures hi - lo > 1 ==>
              var mid := lo + (hi - lo) / 2;
              Bisected(f, lo, hi) == if f(mid).Some? then Bisected(f, mid, hi) else Bisected(f, lo, mid)
  {}

  /** One round of the ternary search. */
  function Narrow(f: Objective, lo: u64, hi: u64): (w: (u64, u64))
    requires lo + 2 < hi
    ensures lo <= w.0 <= w.1 <= hi
  {
    var third := (hi - lo) / 3;
    var m1, m2 := lo + third, hi - third;
    if Value(f, m1) < Value(f, m2) then (m1 + 1, hi) else (lo, m2 - 1)
  }

  /** One round, probe by probe: the two probes lie a third from either end; the better one keeps its side, the left
      one if they tie, and an infeasible probe never wins against a feasible one. */
  lemma NarrowChooses(f: Objective, lo: u64, hi: u64)
    requires lo + 2 < hi
    ensures var m1, m2 := lo + (hi - lo) / 3, hi - (hi - lo) / 3;
            && (f(m1).Some? && f(m2).Some? ==>
                  Narrow(f, lo, hi) == if f(m1).value < f(m2).value then (m1 + 1, hi) else (lo, m2 - 1))
            && (f(m2).None? ==> Narrow(f, lo, hi) == (lo, m2 - 1))
            && (f(m1).None? && f(m2).Some? && f(m2).value > -0x8000_0000_0000_0000_0000_0000_0000_0000 ==>
                  Narrow(f, lo, hi) == (m1 + 1, hi))
  {}

  /** The window the search ends with. */
  function Window(f: Objective, lo: u64, hi: u64): (w: (u64, u64))
    requires lo <= hi
    ensures lo <= w.0 <= w.1 <= hi && w.1 - w.0 <= 2
    decreases hi - lo
  {
    if hi - lo <= 2 then (lo, hi)
    else
      NarrowShrinks(f, lo, hi);
      var w := Narrow(f, lo, hi);
      Window(f, w.0, w.1)
  }

  /** How many rounds it takes. */
  function Rounds(f: Objective, lo: u64, hi: u64): nat
    requires lo <= hi
    decreases hi - lo
  {
    if hi - lo <= 2 then 0
    else
      NarrowShrinks(f, lo, hi);
      var w := Narrow(f, lo, hi);
      1 + Rounds(f, w.0, w.1)
  }

  lemma WindowStep(f: Objective, lo: u64, hi: u64)
    requires lo + 2 < hi
    ensures var w := Narrow(f, lo, hi);
            Window(f, lo, hi) == Window(f, w.0, w.1) && Rounds(f, lo, hi) == 1 + Rounds(f, w.0, w.1)
  {
    hide Narrow;
  }

  lemma WindowEnds(f: Objective, lo: u64, hi: u64)
    requires lo <= hi <= lo + 2
    ensures Window(f, lo, hi) == (lo, hi) && Rounds(f, lo, hi) == 0
  {}

  lemma NarrowShrinks(f: Objective, lo: u64, hi: u64)
    requires lo + 2 < hi
    ensures var w := Narrow(f, lo, hi); 3 * (w.1 - w.0) < 2 * (hi - lo)
  {}

  function Pow(b: nat, e: nat): nat {
    if e == 0 then 1 else b * Pow(b, e - 1)
  }

  /** Each round keeps less than two thirds: after `k` of them the window obeys
      `width * 3^k <= 2^k * initial width`, so the number of rounds is logarithmic. */
  lemma {:induction false} RoundsAreLogarithmic(f: Objective, lo: u64, hi: u64)
    requires lo <= hi
    ensures var k, w := Rounds(f, lo, hi), Window(f, lo, hi);
            && (w.1 - w.0) * Pow(3, k) <= Pow(2, k) * (hi - lo)
            && (k > 0 ==> Pow(3, k) <= Pow(2, k - 1) * (hi - lo))
    decreases hi - lo
  {
    hide Narrow, Value, Window, Rounds;
    if hi - lo > 2 {
      NarrowShrinks(f, lo, hi);
      WindowStep(f, lo, hi);
      var w := Narrow(f, lo, hi);
      RoundsAreLogarithmic(f, w.0, w.1);
      var k, end := Rounds(f, w.0, w.1), Window(f, w.0, w.1);
      ScaleRound(end.1 - end.0, w.1 - w.0, hi - lo, Pow(3, k), Pow(2, k));
      if k > 0 { ScaleRound(1, w.1 - w.0, hi - lo, Pow(3, k), Pow(2, k - 1)); }
    } else {
      WindowEnds(f, lo, hi);
    }
  }

  lemma ScaleRound(end: nat, narrowed: nat, width: nat, threes: nat, twos: nat)
    requires end * threes <= twos * narrowed && 3 * narrowed < 2 * width
    ensures end * (3 * threes) <= (2 * twos) * width
  {
    MulLe(3 * narrowed, 2 * width, twos);
    assert end * (3 * threes) == 3 * (end * threes);
    assert (3 * narrowed) * twos == 3 * (twos * narrowed);
    assert (2 * width) * twos == (2 * twos) * width;
  }

  /** The first maximum never leaves the window. */
  lemma {:induction false} WindowKeepsPeak(f: Objective, lo: u64, hi: u64, peak: u64)
    requires lo <= hi && Unimodal(f, lo, hi, peak)
    ensures var w := Window(f, lo, hi); w.0 <= peak <= w.1
    decreases hi - lo
  {
    if hi - lo > 2 {
      NarrowShrinks(f, lo, hi);
      var w := Narrow(f, lo, hi);
      assert w.0 <= peak <= w.1;
      WindowKeepsPeak(f, w.0, w.1, peak);
    }
  }

  /** `best` is the first of the largest feasible values on `[lo, hi)`. */
  ghost predicate FirstMax(f: Objective, lo: u64, hi: int, best: Option<(u64, i128)>) {
    match best
    case None => forall y: u64 :: lo <= y < hi ==> !Feasible(f, y)
    case Some((x, v)) =>
      && lo <= x < hi && f(x) == Some(v)
      && (forall y: u64 :: lo <= y < hi && Feasible(f, y) ==> f(y).value <= v)
      && (forall y: u64 :: lo <= y < x && Feasible(f, y) ==> f(y).value < v)
  }

  /** The objective is feasible exactly up to `top`, and up to there it has its first maximum at `peak`. */
  ghost predicate PeakedUpTo(f: Objective, low: u64, high: u64, top: u64, peak: u64) {
    && low <= top <= high
    && (forall x: u64 :: low <= x <= high ==> (Feasible(f, x) <==> x <= top))
    && Unimodal(f, low, top, peak)
  }

  lemma PeakIsMax(f: Objective, low: u64, high: u64, top: u64, peak: u64, w: (u64, u64), best: Option<(u64, i128)>)
    requires PeakedUpTo(f, low, high, top, peak)
    requires low <= w.0 <= peak <= w.1 <= top && FirstMax(f, w.0, w.1 + 1, best)
    ensures best.Some? && best.value.0 == peak
    ensures forall x: u64 :: low <= x <= high && Feasible(f, x) ==> f(x).value <= best.value.1
  {
    assert Feasible(f, peak);
    assert Value(f, best.value.0) <= Value(f, peak);
    forall x: u64 | low <= x <= high && Feasible(f, x) ensures f(x).value <= best.value.1 {
      assert Value(f, x) <= Value(f, peak);
    }
  }

  /** Whatever the objective, a result is a size in the range with its own value. On a prefix-feasible
      objective nothing is returned exactly when nothing is feasible, and if the feasible part is peaked
      the result is its first maximum. */
  ghost predicate SearchResult(f: Objective, low: u64, high: u64, r: Option<(u64, i128)>) {
    && (r.Some? ==> low <= r.value.0 <= high && f(r.value.0) == Some(r.value.1))
    && (PrefixFeasible(f, low, high) ==> (r.None? <==> forall x: u64 :: low <= x <= high ==> !Feasible(f, x)))
    && (forall top: u64, peak: u64 :: PeakedUpTo(f, low, high, top, peak) ==>
          r.Some? && r.value.0 == peak
          && forall x: u64 :: low <= x <= high && Feasible(f, x) ==> f(x).value <= r.value.1)
  }

  /** The closing scan comes to an end: its `x += 1` has to pass the end of the window, so the window may not end
      at the largest `u64`. Only a feasible `high` of that size can make it. */
  predicate ScanEnds(f: Objective, low: u64, high: u64) {
    low <= high && f(high).Some? ==> Window(f, low, high).1 < TWO_64 - 1
  }

  /** A search that does not end: the largest `u64` is feasible and the range is too small to narrow. */
  lemma ScanCanRunOn(f: Objective)
    requires f(TWO_64 - 1).Some?
    ensures !ScanEnds(f, TWO_64 - 2, TWO_64 - 1)
  {}

  /** `ternary_max`, wherever the source's closing scan ends. */
  method TernaryMax(f: Objective, low: u64, high: u64) returns (r: Option<(u64, i128)>)
    requires ScanEnds(f, low, high)
    ensures SearchResult(f, low, high, r)
  {
    hide Window, Rounds, Value, SearchResult, FirstMax;
    if low > high {
      EmptyRange(f, low, high);
      return None;
    }
    var bound := FeasibleUpperBound(f, low, high);
    if bound.None? {
      NothingFound(f, low, high);
      return None;
    }
    var lo, hi := NarrowWindow(f, low, bound.value);
    r := ScanMax(f, lo, hi);
    SearchConcludes(f, low, high, bound.value, (lo, hi), r);
  }

  /** The narrowing loop. */
  method NarrowWindow(f: Objective, low: u64, top: u64) returns (lo: u64, hi: u64)
    requires low <= top
    ensures (lo, hi) == Window(f, low, top)
  {
    hide Value, Window, Rounds;
    lo, hi := low, top;
    while hi - lo > 2
      invariant low <= lo <= hi <= top
      invariant Window(f, lo, hi) == Window(f, low, top)
    {
      ghost var w := Narrow(f, lo, hi);
      WindowStep(f, lo, hi);
      NarrowShrinks(f, lo, hi);
      var third := (hi - lo) / 3;
      var m1, m2 := lo + third, hi - third;
      var v1, v2 := Value(f, m1), Value(f, m2);
      if v1 < v2 {
        lo := m1 + 1;
      } else {
        hi := m2 - 1;
      }
      assert (lo, hi) == w;
    }
    WindowEnds(f, lo, hi);
  }

  /** The closing scan over the remaining sizes. */
  method ScanMax(f: Objective, lo: u64, hi: u64) returns (best: Option<(u64, i128)>)
    requires lo <= hi < TWO_64 - 1
    ensures FirstMax(f, lo, hi + 1, best)
  {
    best := None;
    var x: u64 := lo;
    while x <= hi
      invariant lo <= x <= hi + 1
      invariant FirstMax(f, lo, x, best)
    {
      var v := f(x);
      if v.Some? && (best.None? || v.value > best.value.1) {
        best := Some((x, v.value));
      }
      x := x + 1;
    }
  }

  lemma EmptyRange(f: Objective, low: u64, high: u64)
    requires low > high
    ensures SearchResult(f, low, high, None)
  {}

  lemma NothingFound(f: Objective, low: u64, high: u64)
    requires low <= high && !Feasible(f, low) && !Feasible(f, high)
    ensures SearchResult(f, low, high, None)
  {}

  lemma SearchConcludes(f: Objective, low: u64, high: u64, bound: u64, w: (u64, u64), best: Option<(u64, i128)>)
    requires low <= bound <= high && Feasible(f, bound) && w == Window(f, low, bound)
    requires bound < high ==> !Feasible(f, bound + 1)
    requires FirstMax(f, w.0, w.1 + 1, best)
    ensures SearchResult(f, low, high, best)
  {
    if PrefixFeasible(f, low, high) { assert Feasible(f, w.0); }
    forall top: u64, peak: u64 | PeakedUpTo(f, low, high, top, peak)
      ensures best.Some? && best.value.0 == peak
      ensures forall x: u64 :: low <= x <= high && Feasible(f, x) ==> f(x).value <= best.value.1
    {
      assert bound == top;
      WindowKeepsPeak(f, low, top, peak);
      PeakIsMax(f, low, high, top, peak, w, best);
    }
  }
}
