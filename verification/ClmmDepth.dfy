/** Deeper liquidity means less slippage, up to the granularity of the price. */
module ClmmDepth {
  import opened Arith
  import opened ClmmStep
  import opened ClmmQuote
  import opened ClmmBounds
  import opened ClmmV2

  /** A deeper range pays at least as much up to rounding: the thinner one is ahead by less than `1 + L / Q64`
      units from a to b, and by less than `1 + L * Q64 / C^2` from b to a. */
  lemma DeeperPaysUpToRounding(cur: nat, target: nat, thin: nat, deep: nat, amountIn: nat, feePips: nat, aToB: bool)
    requires 0 < thin <= deep && feePips < PIPS_DENOM && Ahead(cur, target, aToB)
    ensures var s, t := ComputeSwapStep(cur, target, thin, amountIn, feePips, aToB),
                        ComputeSwapStep(cur, target, deep, amountIn, feePips, aToB);
            AheadByLess(s.amountOut - t.amountOut, deep, cur, aToB)
  {
    var s, t := ComputeSwapStep(cur, target, thin, amountIn, feePips, aToB),
                ComputeSwapStep(cur, target, deep, amountIn, feePips, aToB);
    var net := NetInput(amountIn, feePips);
    StepSound(cur, target, thin, amountIn, feePips, aToB);
    StepSound(cur, target, deep, amountIn, feePips, aToB);
    ThinnerCostsLess(thin, deep, cur, t.next, net, aToB);
    assert Ahead(t.next, s.next, aToB);
    assert !Releases(deep, cur, t.next, t.amountOut + 1, aToB);
    if t.next != target {
      var onward := if aToB then t.next - 1 else t.next + 1;
      assert Ahead(cur, onward, aToB) && Ahead(onward, target, aToB) && !Ahead(onward, t.next, aToB);
      assert !Covers(deep, cur, onward, net, aToB);
    }
    hide ComputeSwapStep, NetInput, AheadByLess, Releases, Covers;
    if t.next == target {
      ThinnerReleasesLess(thin, deep, cur, target, s.amountOut, aToB);
      RoundingSlack(s.amountOut - t.amountOut, deep, cur, aToB);
    } else if aToB {
      DeeperDown(thin, deep, cur, s.next, t.next, net, s.amountOut, t.amountOut);
    } else {
      DeeperUp(thin, deep, cur, s.next, t.next, net, s.amountOut, t.amountOut);
    }
  }

  predicate AheadByLess(ahead: int, l: nat, cur: nat, aToB: bool) {
    if aToB then (ahead - 1) * Q64 < l else (ahead - 1) * (cur * cur) < l * Q64
  }

  lemma RoundingSlack(ahead: int, l: nat, cur: nat, aToB: bool)
    requires ahead <= 0 < l && 0 < cur
    ensures AheadByLess(ahead, l, cur, aToB)
  {
    MulLt(0, cur, cur);
    MulLt(ahead - 1, 0, Q64);
    MulLt(ahead - 1, 0, cur * cur);
  }

  lemma ThinnerCostsLess(thin: nat, deep: nat, cur: nat, to: nat, net: nat, aToB: bool)
    requires thin <= deep && Ahead(cur, to, aToB) && Covers(deep, cur, to, net, aToB)
    ensures Covers(thin, cur, to, net, aToB)
  {
    if aToB { MulLe(thin * Q64, deep * Q64, cur - to); } else { MulLe(thin, deep, to - cur); }
  }

  lemma ThinnerReleasesLess(thin: nat, deep: nat, cur: nat, to: nat, y: nat, aToB: bool)
    requires thin <= deep && Ahead(cur, to, aToB) && Releases(thin, cur, to, y, aToB)
    ensures Releases(deep, cur, to, y, aToB)
  {
    if aToB { MulLe(thin, deep, cur - to); } else { MulLe(thin * Q64, deep * Q64, to - cur); }
  }

  // --- downwards ---

  lemma DeeperDown(thin: nat, deep: nat, cur: nat, near: nat, next: nat, net: nat, y: nat, z: nat)
    requires 0 < thin <= deep && 0 < near <= next <= cur && 1 < next
    requires Covers(thin, cur, near, net, true) && !Covers(deep, cur, next - 1, net, true)
    requires Releases(thin, cur, near, y, true) && !Releases(deep, cur, next, z + 1, true)
    ensures AheadByLess(y - z, deep, cur, true)
  {
    LessMoved(thin, deep, cur - near, cur - next + 1, net, cur);
    assert deep * (cur - next + 1) == deep * (cur - next) + deep;
  }

  /** The thinner range moves the price further, but less liquidity in all. */
  lemma LessMoved(thin: nat, deep: nat, d: nat, e: nat, net: nat, cur: nat)
    requires 0 < thin <= deep && d < cur && e < cur
    requires Covers(thin, cur, cur - d, net, true) && !Covers(deep, cur, cur - e, net, true)
    ensures thin * d < deep * e
  {
    var n := net * cur;
    ExpandCover(thin, cur, d, net);
    ExpandCover(deep, cur, e, net);
    if d < e { MulLe(thin, deep, d); MulLt(d, e, deep); }
    MulNonNeg(net, cur);
    hide *;
    Outweighs(thin * d, deep * e, d, e, n, n * cur);
  }

  lemma ExpandCover(l: nat, cur: nat, d: nat, net: nat)
    requires d < cur
    ensures Covers(l, cur, cur - d, net, true) <==> (net * cur) * cur >= (l * d) * Q64 + (net * cur) * d
  {
    assert net * (cur * (cur - d)) == (net * cur) * cur - (net * cur) * d;
    assert (l * Q64) * d == (l * d) * Q64;
  }

  lemma Outweighs(a: int, b: int, d: int, e: int, n: nat, m: int)
    requires a * Q64 + n * d <= m < b * Q64 + n * e
    requires d < e ==> a < b
    ensures a < b
  {
    if d >= e { MulLe(e, d, n); }
  }

  // --- upwards ---

  lemma DeeperUp(thin: nat, deep: nat, cur: nat, near: nat, next: nat, net: nat, y: nat, z: nat)
    requires 0 < thin <= deep && 0 < cur <= next <= near
    requires Covers(thin, cur, near, net, false) && !Covers(deep, cur, next + 1, net, false)
    requires Releases(thin, cur, near, y, false) && !Releases(deep, cur, next, z + 1, false)
    ensures AheadByLess(y - z, deep, cur, false)
  {
    ExpandRelease(thin, cur, near, y);
    ExpandRelease(deep, cur, next, z + 1);
    ExpandOnward(deep, cur, next, net);
    assert net * Q64 >= thin * (near - cur);
    hide Covers, Releases;
    UpwardLoss(y, z, near, next, cur, thin * (near - cur), deep * (next - cur), net, deep);
  }

  lemma ExpandRelease(l: nat, cur: nat, to: nat, y: nat)
    requires cur <= to
    ensures Releases(l, cur, to, y, false) <==> y * (to * cur) <= (l * (to - cur)) * Q64
  {
    assert (l * Q64) * (to - cur) == (l * (to - cur)) * Q64;
  }

  lemma ExpandOnward(l: nat, cur: nat, to: nat, net: nat)
    requires cur <= to
    ensures Covers(l, cur, to + 1, net, false) <==> net * Q64 >= l * (to - cur) + l
  {
    assert l * (to + 1 - cur) == l * (to - cur) + l;
  }

  lemma UpwardLoss(y: nat, z: nat, near: nat, next: nat, cur: nat, spent: int, moved: int, net: nat, deep: nat)
    requires 0 < deep && 0 < cur <= next <= near
    requires spent <= net * Q64 < moved + deep
    requires y * (near * cur) <= spent * Q64 && (z + 1) * (next * cur) > moved * Q64
    ensures (y - z - 1) * (cur * cur) < deep * Q64
  {
    MulLe(next, near, cur);
    MulLe(next * cur, near * cur, y);
    var w := next * cur;
    assert (y - z - 1) * w == y * w - (z + 1) * w;
    MulLe(cur, next, cur);
    MulNonNeg(cur, cur);
    hide *;
    ShrinkFactor(y - z - 1, w, cur * cur, deep * Q64);
  }

  lemma ShrinkFactor(t: int, big: int, small: int, bound: int)
    requires t * big < bound && 0 <= small <= big && 0 < bound
    ensures t * small < bound
  {
    if t > 0 { MulLe(small, big, t); } else { MulLe(t, 0, small); }
  }

  // --- without rounding ---

  /** The division behind the next price leaves no remainder. */
  predicate Unrounded(l: nat, cur: nat, net: nat, aToB: bool)
    requires l > 0
  {
    if aToB then MulNonNeg(net, cur); (l * Q64 * cur) % (l * Q64 + net * cur) == 0 else (net * Q64) % l == 0
  }

  /** The input moves the price exactly to `to`. */
  predicate ExactMove(l: nat, cur: nat, to: nat, net: nat, aToB: bool) {
    if aToB then net * (cur * to) == (l * Q64) * (cur - to) else net * Q64 == l * (to - cur)
  }

  lemma UnroundedIsExact(l: nat, cur: nat, net: nat, aToB: bool)
    requires l > 0 && cur > 0
    ensures Unrounded(l, cur, net, aToB) <==> ExactMove(l, cur, Furthest(l, cur, net, aToB), net, aToB)
  {
    if aToB {
      ExactDivision(l * Q64, cur, net);
    } else {
      DividesIff(net * Q64, l);
    }
  }

  lemma ExactDivision(s: nat, cur: nat, net: nat)
    requires s > 0 && cur > 0
    ensures s + net * cur > 0 && s * cur >= 0
    ensures var next := if net == 0 then cur else CeilDiv(s * cur, s + net * cur);
            (s * cur) % (s + net * cur) == 0 <==> net * (cur * next) == s * (cur - next)
  {
    MulNonNeg(net, cur);
    MulNonNeg(s, cur);
    var d := s + net * cur;
    if net == 0 {
      WholeMultiple(cur, s);
    } else {
      var next := CeilDiv(s * cur, d);
      assert net * (cur * next) == (net * cur) * next && s * (cur - next) == s * cur - s * next;
      assert next * d == s * next + (net * cur) * next;
      DividesIff(s * cur, d);
    }
  }

  lemma WholeMultiple(k: nat, d: nat)
    requires d > 0
    ensures (d * k) % d == 0
  {
    FloorBounds(d * k, d);
    GreatestQuotient(d * k, d, k);
    assert d * k == ((d * k) / d) * d + (d * k) % d;
  }

  lemma DividesIff(n: nat, d: nat)
    requires d > 0
    ensures n % d == 0 <==> n == d * (n / d)
    ensures n % d == 0 <==> CeilDiv(n, d) * d == n
  {
    assert n == d * (n / d) + n % d;
    assert (n / d + 1) * d == d * (n / d) + d;
  }

  /** If the input takes the deeper range to its target, or its next price does not have to be rounded, it pays at
      least as much as any thinner one. */
  lemma DeeperPaysUnlessRounded(cur: nat, target: nat, thin: nat, deep: nat, amountIn: nat, feePips: nat, aToB: bool)
    requires 0 < thin <= deep && feePips < PIPS_DENOM && Ahead(cur, target, aToB)
    ensures var s, t := ComputeSwapStep(cur, target, thin, amountIn, feePips, aToB),
                        ComputeSwapStep(cur, target, deep, amountIn, feePips, aToB);
            var net := NetInput(amountIn, feePips);
            Covers(deep, cur, target, net, aToB) || Unrounded(deep, cur, net, aToB) ==> s.amountOut <= t.amountOut
  {
    var s, t := ComputeSwapStep(cur, target, thin, amountIn, feePips, aToB),
                ComputeSwapStep(cur, target, deep, amountIn, feePips, aToB);
    var net := NetInput(amountIn, feePips);
    StepSound(cur, target, thin, amountIn, feePips, aToB);
    StepSound(cur, target, deep, amountIn, feePips, aToB);
    ThinnerCostsLess(thin, deep, cur, t.next, net, aToB);
    assert Ahead(t.next, s.next, aToB);
    StopsAtFurthest(cur, target, deep, amountIn, feePips, aToB);
    UnroundedIsExact(deep, cur, net, aToB);
    hide ComputeSwapStep, NetInput, Releases, Covers, ExactMove, Unrounded, Furthest;
    if t.next == target {
      ThinnerReleasesLess(thin, deep, cur, target, s.amountOut, aToB);
    } else if ExactMove(deep, cur, t.next, net, aToB) {
      if aToB {
        ExactDown(thin, deep, cur, s.next, t.next, net, s.amountOut);
      } else {
        ExactUp(thin, deep, cur, s.next, t.next, net, s.amountOut);
      }
    }
  }

  lemma StopsAtFurthest(cur: nat, target: nat, l: nat, amountIn: nat, feePips: nat, aToB: bool)
    requires 0 < l && feePips < PIPS_DENOM && Ahead(cur, target, aToB)
    ensures var net, next := NetInput(amountIn, feePips), ComputeSwapStep(cur, target, l, amountIn, feePips, aToB).next;
            next == if Covers(l, cur, target, net, aToB) then target else Furthest(l, cur, net, aToB)
  {
    CostIsLeast(l, cur, target, aToB, NetInput(amountIn, feePips));
    hide CostOf, YieldOf, Furthest, NetInput, Covers;
  }

  lemma ExactDown(thin: nat, deep: nat, cur: nat, near: nat, next: nat, net: nat, y: nat)
    requires 0 < thin <= deep && 0 < near <= next <= cur
    requires Covers(thin, cur, near, net, true) && ExactMove(deep, cur, next, net, true)
    requires Releases(thin, cur, near, y, true)
    ensures Releases(deep, cur, next, y, true)
  {
    var d, e, n := cur - near, cur - next, net * cur;
    ExpandCover(thin, cur, d, net);
    ExpandExact(deep, cur, e, net);
    MulNonNeg(net, cur);
    hide Covers, ExactMove;
    Balances(thin * d, deep * e, d, e, n, n * cur);
  }

  lemma ExpandExact(l: nat, cur: nat, e: nat, net: nat)
    requires e < cur
    ensures ExactMove(l, cur, cur - e, net, true) <==> (net * cur) * cur == (l * e) * Q64 + (net * cur) * e
  {
    assert net * (cur * (cur - e)) == (net * cur) * cur - (net * cur) * e;
    assert (l * Q64) * e == (l * e) * Q64;
  }

  lemma Balances(a: int, b: int, d: int, e: int, n: nat, m: int)
    requires a * Q64 + n * d <= m == b * Q64 + n * e && e <= d
    ensures a <= b
  {
    MulLe(e, d, n);
  }

  lemma ExactUp(thin: nat, deep: nat, cur: nat, near: nat, next: nat, net: nat, y: nat)
    requires 0 < thin <= deep && 0 < cur <= next <= near
    requires Covers(thin, cur, near, net, false) && ExactMove(deep, cur, next, net, false)
    requires Releases(thin, cur, near, y, false)
    ensures Releases(deep, cur, next, y, false)
  {
    ExpandRelease(thin, cur, near, y);
    ExpandRelease(deep, cur, next, y);
    MulLe(next, near, cur);
    MulLe(next * cur, near * cur, y);
    hide Releases;
  }

  /** Exactly monotone it is not: from 2^64 on a range can be so deep that an input leaves its price, and so
      its output, where it was, while a thinner range pays. */
  lemma DeeperCanPayLess()
    ensures exists thin: nat, deep: nat, amountIn: nat ::
              && 0 < thin <= deep
              && SingleRange(Q64, thin, 0).Valid() && SingleRange(Q64, deep, 0).Valid()
              && Quote(SingleRange(Q64, thin, 0), amountIn, true).Some?
              && Quote(SingleRange(Q64, deep, 0), amountIn, true).Some?
              && Quote(SingleRange(Q64, thin, 0), amountIn, true).value >= 99
              && Quote(SingleRange(Q64, deep, 0), amountIn, true).value == 0
  {
    var thin, deep := SingleRange(Q64, Q64, 0), SingleRange(Q64, 200 * Q64, 0);
    var s := SingleRangeStep(100, Q64, Q64, 0, true);
    var t := SingleRangeStep(100, Q64, 200 * Q64, 0, true);
    StepSound(Q64, MIN_SQRT_PRICE, Q64, 100, 0, true);
    StepSound(Q64, MIN_SQRT_PRICE, 200 * Q64, 100, 0, true);
    AdvanceFacts(Cursor(Q64, Q64, 100, 0), MIN_SQRT_PRICE, 0, true);
    assert NetInput(100, 0) == 100;
    hide ComputeSwapStep, Quote, NetInput;
    assert Covers(Q64, Q64, Q64 - 99, 100, true) && Ahead(Q64 - 99, s.next, true);
    assert Releases(Q64, Q64, s.next, 99, true);
    assert !Covers(200 * Q64, Q64, Q64 - 1, 100, true);
    assert t.next == Q64;
    assert !Releases(200 * Q64, Q64, t.next, 1, true);
    assert s.amountOut <= 100;
  }
}
