/** The enumeration is sound, complete and free of duplicates, and a cycle that repeats a pool is the
    two-hop round trip through it. */
module CycleLaws {
  import opened Cycles

  /** A walk over pools from `start` back to the base whose interior tokens are fresh, distinct and
      never the base. */
  ghost predicate SimplePath(pools: seq<PoolState>, base: string, start: string, visited: set<string>, r: Route) {
    && r != []
    && r[0].tokenIn == start
    && r[|r| - 1].tokenOut == base
    && (forall i :: 0 <= i < |r| ==> IsHop(pools, r[i]))
    && (forall i :: 0 < i < |r| ==> r[i].tokenIn == r[i - 1].tokenOut)
    && (forall i :: 0 <= i < |r| - 1 ==> r[i].tokenOut != base && r[i].tokenOut !in visited)
    && (forall i, j :: 0 <= i < j < |r| - 1 ==> r[i].tokenOut != r[j].tokenOut)
  }

  ghost predicate SimpleCycle(pools: seq<PoolState>, base: string, maxHops: nat, r: Route) {
    2 <= |r| <= maxHops && SimplePath(pools, base, base, {base}, r)
  }

  ghost predicate AdjacencyOf(adj: Adjacency, pools: seq<PoolState>) {
    forall t :: Neighbours(adj, t) == EdgesFrom(pools, t)
  }

  lemma {:induction false} CompletesIsSimplePath(pools: seq<PoolState>, adj: Adjacency, base: string,
                                                 start: string, visited: set<string>, r: Route)
    requires AdjacencyOf(adj, pools)
    ensures Completes(adj, base, Neighbours(adj, start), visited, r) <==> SimplePath(pools, base, start, visited, r)
    decreases |r|
  {
    if r != [] {
      FirstHop(pools, adj, start, r[0]);
      if |r| > 1 {
        var next := r[0].tokenOut;
        CompletesIsSimplePath(pools, adj, base, next, visited + {next}, r[1..]);
        PathSplits(pools, base, start, visited, r);
      }
    }
  }

  lemma FirstHop(pools: seq<PoolState>, adj: Adjacency, start: string, h: Hop)
    requires AdjacencyOf(adj, pools)
    ensures (exists e :: e in Neighbours(adj, start) && h == HopOf(e)) <==> IsHop(pools, h) && h.tokenIn == start
  {
    var e := Edge(h.poolId, h.dex, h.tokenIn, h.tokenOut, h.aToB);
    EdgesFromMembers(pools, start, e);
    forall x | x in Neighbours(adj, start) && h == HopOf(x) ensures x == e {}
  }

  lemma PathSplits(pools: seq<PoolState>, base: string, start: string, visited: set<string>, r: Route)
    requires |r| > 1
    ensures SimplePath(pools, base, start, visited, r) <==>
              && IsHop(pools, r[0]) && r[0].tokenIn == start
              && r[0].tokenOut != base && r[0].tokenOut !in visited
              && SimplePath(pools, base, r[0].tokenOut, visited + {r[0].tokenOut}, r[1..])
  {
    var next := r[0].tokenOut;
    if SimplePath(pools, base, start, visited, r) { PathDrops(pools, base, start, visited, r); }
    if IsHop(pools, r[0]) && r[0].tokenIn == start && next != base && next !in visited
       && SimplePath(pools, base, next, visited + {next}, r[1..]) {
      PathExtends(pools, base, start, visited, r[0], r[1..]);
      assert r == [r[0]] + r[1..];
    }
    hide SimplePath, IsHop;
  }

  lemma PathDrops(pools: seq<PoolState>, base: string, start: string, visited: set<string>, r: Route)
    requires |r| > 1 && SimplePath(pools, base, start, visited, r)
    ensures IsHop(pools, r[0]) && r[0].tokenIn == start && r[0].tokenOut != base && r[0].tokenOut !in visited
    ensures SimplePath(pools, base, r[0].tokenOut, visited + {r[0].tokenOut}, r[1..])
  {
    hide IsHop;
    assert forall i :: 0 <= i < |r| - 1 ==> r[1..][i] == r[i + 1];
  }

  lemma PathExtends(pools: seq<PoolState>, base: string, start: string, visited: set<string>, h: Hop, rest: Route)
    requires IsHop(pools, h) && h.tokenIn == start && h.tokenOut != base && h.tokenOut !in visited
    requires SimplePath(pools, base, h.tokenOut, visited + {h.tokenOut}, rest)
    ensures SimplePath(pools, base, start, visited, [h] + rest)
  {
    hide IsHop;
    var r := [h] + rest;
    assert forall i :: 0 < i < |r| ==> r[i] == rest[i - 1];
  }

  // --- duplicates ---

  ghost predicate NoDuplicates<T(!new)>(xs: seq<T>) {
    forall i, j :: 0 <= i < j < |xs| ==> xs[i] != xs[j]
  }

  lemma NoDuplicatesConcat<T(!new)>(xs: seq<T>, ys: seq<T>)
    requires NoDuplicates(xs) && NoDuplicates(ys) && forall x :: x in xs ==> x !in ys
    ensures NoDuplicates(xs + ys)
  {
    forall i, j | 0 <= i < j < |xs + ys| ensures (xs + ys)[i] != (xs + ys)[j] {
      if i < |xs| <= j { assert xs[i] in xs && ys[j - |xs|] in ys; }
    }
  }

  lemma {:induction false} EdgesDistinct(pools: seq<PoolState>, token: string)
    requires UniqueIds(pools)
    ensures NoDuplicates(EdgesFrom(pools, token))
  {
    if pools != [] {
      var n := |pools| - 1;
      var before, p := EdgesFrom(pools[..n], token), pools[n];
      EdgesDistinct(pools[..n], token);
      forall aToB: bool ensures EdgeOf(p, aToB) !in before {
        EdgesFromMembers(pools[..n], token, EdgeOf(p, aToB));
      }
      var fwd := if p.tokenA == token then [EdgeOf(p, true)] else [];
      var bwd := if p.tokenB == token then [EdgeOf(p, false)] else [];
      NoDuplicatesConcat(before, fwd);
      NoDuplicatesConcat(before + fwd, bwd);
      assert EdgesFrom(pools, token) == (before + fwd) + bwd;
    }
  }

  lemma {:induction false} FoundDistinct(adj: Adjacency, base: string, edges: seq<Edge>, maxHops: nat,
                                         visited: set<string>, path: Route)
    requires NoDuplicates(edges) && forall t :: NoDuplicates(Neighbours(adj, t))
    ensures NoDuplicates(FoundFrom(adj, base, edges, maxHops, visited, path))
    decreases maxHops - |path|, |edges|
  {
    if edges != [] {
      var e := edges[0];
      var via, rest := FoundVia(adj, base, e, maxHops, visited, path),
                       FoundFrom(adj, base, edges[1..], maxHops, visited, path);
      FoundDistinct(adj, base, edges[1..], maxHops, visited, path);
      if e.to != base && e.to !in visited && |path| + 1 < maxHops {
        FoundDistinct(adj, base, Neighbours(adj, e.to), maxHops, visited + {e.to}, path + [HopOf(e)]);
      }
      forall c | c in via ensures c !in rest {
        FoundViaMembers(adj, base, e, maxHops, visited, path, c);
        FoundMembers(adj, base, edges[1..], maxHops, visited, path, c);
        NotOnBoth(adj, base, edges, visited, c[|path|..]);
      }
      NoDuplicatesConcat(via, rest);
    }
  }

  lemma NotOnBoth(adj: Adjacency, base: string, edges: seq<Edge>, visited: set<string>, rest: Route)
    requires edges != [] && NoDuplicates(edges) && Completes(adj, base, [edges[0]], visited, rest)
    ensures !Completes(adj, base, edges[1..], visited, rest)
  {
    assert rest[0] == HopOf(edges[0]);
    forall e | e in edges[1..] ensures rest[0] != HopOf(e) {
      var i :| 0 <= i < |edges[1..]| && edges[1..][i] == e;
      assert edges[i + 1] == e;
    }
  }

  /** `find_cycles` on the pools' adjacency returns exactly the simple cycles of 2 to `maxHops` hops,
      each of them once. */
  lemma CyclesEnumerated(pools: seq<PoolState>, adj: Adjacency, base: string, maxHops: nat)
    requires AdjacencyOf(adj, pools)
    ensures var cycles := FoundFrom(adj, base, Neighbours(adj, base), maxHops, {base}, []);
            && (forall r :: r in cycles <==> SimpleCycle(pools, base, maxHops, r))
            && (UniqueIds(pools) ==> NoDuplicates(cycles))
  {
    var cycles := FoundFrom(adj, base, Neighbours(adj, base), maxHops, {base}, []);
    forall r ensures r in cycles <==> SimpleCycle(pools, base, maxHops, r) {
      FoundMembers(adj, base, Neighbours(adj, base), maxHops, {base}, [], r);
      CompletesIsSimplePath(pools, adj, base, base, {base}, r);
      assert r[0..] == r;
    }
    if UniqueIds(pools) {
      forall t ensures NoDuplicates(Neighbours(adj, t)) { EdgesDistinct(pools, t); }
      FoundDistinct(adj, base, Neighbours(adj, base), maxHops, {base}, []);
    }
  }

  lemma EnteredFrom(pools: seq<PoolState>, base: string, maxHops: nat, r: Route, i: nat)
    requires SimpleCycle(pools, base, maxHops, r) && i < |r|
    ensures r[i].tokenIn == if i == 0 then base else r[i - 1].tokenOut
  {}

  /** On pools with unique ids, a simple cycle that uses a pool twice is the round trip through it. */
  lemma RepeatedPoolIsRoundTrip(pools: seq<PoolState>, base: string, maxHops: nat, r: Route, i: nat, j: nat)
    requires UniqueIds(pools) && SimpleCycle(pools, base, maxHops, r)
    requires i < j < |r| && r[i].poolId == r[j].poolId
    ensures |r| == 2 && r[1].aToB == !r[0].aToB
  {
    EnteredFrom(pools, base, maxHops, r, i);
    assert IsHop(pools, r[i]) && IsHop(pools, r[j]);
    var k :| 0 <= k < |pools| && HopThrough(pools[k], r[i]);
    var m :| 0 <= m < |pools| && HopThrough(pools[m], r[j]);
    assert k == m;
    assert r[j].tokenIn == r[j - 1].tokenOut;
    // entering the pool again by the same side would repeat the token it leads to
    assert r[i].aToB != r[j].aToB;
    // so it is entered right after it was left, and leads back to where it was entered: the base
    assert j - 1 == i;
    assert r[j].tokenOut == base;
  }
}
