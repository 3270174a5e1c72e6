/** Cycle enumeration: the backtracking search over the pool multigraph, and what it enumerates. */
module Cycles {
  import opened Arith
  import opened ClmmQuote

  datatype Dex = AmmV2 | Cetus | Turbos

  datatype PoolKind = V2(reserveA: u64, reserveB: u64, feeBps: u64) | Clmm(state: ClmmState)

  datatype PoolState = PoolState(id: string, dex: Dex, tokenA: string, tokenB: string, kind: PoolKind)

  datatype Hop = Hop(poolId: string, dex: Dex, tokenIn: string, tokenOut: string, aToB: bool)

  datatype Edge = Edge(poolId: string, dex: Dex, from: string, to: string, aToB: bool)

  type Route = seq<Hop>

  function HopOf(e: Edge): Hop {
    Hop(e.poolId, e.dex, e.from, e.to, e.aToB)
  }

  function EdgeOf(p: PoolState, aToB: bool): Edge {
    if aToB then Edge(p.id, p.dex, p.tokenA, p.tokenB, true) else Edge(p.id, p.dex, p.tokenB, p.tokenA, false)
  }

  ghost predicate UniqueIds(pools: seq<PoolState>) {
    forall i, j :: 0 <= i < j < |pools| ==> pools[i].id != pools[j].id
  }

  // --- adjacency ---

  /** A pool's edges out of a token. */
  function Ends(p: PoolState, token: string): seq<Edge> {
    (if p.tokenA == token then [EdgeOf(p, true)] else []) + (if p.tokenB == token then [EdgeOf(p, false)] else [])
  }

  /** The directed edges out of a token, in pool order. */
  function EdgesFrom(pools: seq<PoolState>, token: string): seq<Edge> {
    if pools == [] then [] else EdgesFrom(pools[..|pools| - 1], token) + Ends(pools[|pools| - 1], token)
  }

  type Adjacency = map<string, seq<Edge>>

  function Neighbours(adj: Adjacency, token: string): seq<Edge> {
    if token in adj then adj[token] else []
  }

  /** `entry(token).or_default().push(edge)`. */
  function Pushed(adj: Adjacency, token: string, e: Edge): Adjacency {
    adj[token := Neighbours(adj, token) + [e]]
  }

  /** `build_adjacency`: every pool contributes one edge in each direction. */
  method BuildAdjacency(pools: seq<PoolState>) returns (adj: Adjacency)
    ensures forall t :: Neighbours(adj, t) == EdgesFrom(pools, t)
  {
    adj := map[];
    for i := 0 to |pools|
      invariant forall t :: Neighbours(adj, t) == EdgesFrom(pools[..i], t)
    {
      var p := pools[i];
      assert pools[..i + 1][..i] == pools[..i] && pools[..i + 1][i] == p;
      ghost var before := adj;
      adj := Pushed(adj, p.tokenA, EdgeOf(p, true));
      adj := Pushed(adj, p.tokenB, EdgeOf(p, false));
      forall t ensures Neighbours(adj, t) == EdgesFrom(pools[..i + 1], t) { PushedBoth(before, p, t); }
    }
    assert pools[..|pools|] == pools;
  }

  lemma PushedBoth(adj: Adjacency, p: PoolState, t: string)
    ensures Neighbours(Pushed(Pushed(adj, p.tokenA, EdgeOf(p, true)), p.tokenB, EdgeOf(p, false)), t)
            == Neighbours(adj, t) + Ends(p, t)
  {
    hide EdgeOf;
  }

  /** The hop names the pool and its venue, and trades the pool's own pair in the hop's direction. */
  predicate HopThrough(p: PoolState, h: Hop) {
    && h.poolId == p.id && h.dex == p.dex
    && h.tokenIn == (if h.aToB then p.tokenA else p.tokenB)
    && h.tokenOut == (if h.aToB then p.tokenB else p.tokenA)
  }

  /** A hop through one of the pools. */
  ghost predicate IsHop(pools: seq<PoolState>, h: Hop) {
    exists i :: 0 <= i < |pools| && HopThrough(pools[i], h)
  }

  lemma {:induction false} EdgesFromMembers(pools: seq<PoolState>, token: string, e: Edge)
    ensures e in EdgesFrom(pools, token) <==> IsHop(pools, HopOf(e)) && e.from == token
  {
    if pools != [] {
      var n := |pools| - 1;
      EdgesFromMembers(pools[..n], token, e);
      EndsMembers(pools[n], token, e);
      HopsSplit(pools, HopOf(e));
      hide Ends, IsHop, HopThrough, HopOf;
    }
  }

  lemma EndsMembers(p: PoolState, token: string, e: Edge)
    ensures e in Ends(p, token) <==> HopThrough(p, HopOf(e)) && e.from == token
  {}

  lemma HopsSplit(pools: seq<PoolState>, h: Hop)
    requires pools != []
    ensures IsHop(pools, h) <==> IsHop(pools[..|pools| - 1], h) || HopThrough(pools[|pools| - 1], h)
  {
    hide HopThrough;
    var n := |pools| - 1;
    if IsHop(pools, h) {
      var i :| 0 <= i < |pools| && HopThrough(pools[i], h);
      if i < n { assert pools[..n][i] == pools[i]; }
    }
    if IsHop(pools[..n], h) {
      var i :| 0 <= i < n && HopThrough(pools[..n][i], h);
      assert pools[i] == pools[..n][i];
    }
  }

  /** Edge number `k` goes through pool number `from[k]`, and the pools never go back. */
  ghost predicate InPoolOrder(pools: seq<PoolState>, edges: seq<Edge>, from: seq<nat>) {
    && |from| == |edges|
    && (forall k :: 0 <= k < |from| ==> from[k] < |pools| && HopThrough(pools[from[k]], HopOf(edges[k])))
    && (forall k, m :: 0 <= k < m < |from| ==> from[k] <= from[m])
  }

  /** The edges out of a token come in pool order. */
  lemma {:induction false} EdgesInPoolOrder(pools: seq<PoolState>, token: string) returns (from: seq<nat>)
    ensures InPoolOrder(pools, EdgesFrom(pools, token), from)
  {
    from := [];
    if pools != [] {
      var n := |pools| - 1;
      var before := EdgesInPoolOrder(pools[..n], token);
      var own := Ends(pools[n], token);
      forall e | e in own ensures HopThrough(pools[n], HopOf(e)) { EndsMembers(pools[n], token, e); }
      from := before + seq(|own|, i requires 0 <= i < |own| => n);
      hide Ends, HopThrough, HopOf;
      OrderExtends(pools, EdgesFrom(pools[..n], token), before, own, from);
    }
  }

  lemma OrderExtends(pools: seq<PoolState>, edges: seq<Edge>, before: seq<nat>, own: seq<Edge>, from: seq<nat>)
    requires pools != [] && InPoolOrder(pools[..|pools| - 1], edges, before)
    requires forall e :: e in own ==> HopThrough(pools[|pools| - 1], HopOf(e))
    requires |from| == |before| + |own| && from[..|before|] == before
    requires forall k :: |before| <= k < |from| ==> from[k] == |pools| - 1
    ensures InPoolOrder(pools, edges + own, from)
  {
    hide HopThrough, HopOf;
    var n := |pools| - 1;
    assert forall k :: 0 <= k < |before| ==> from[k] == before[k];
    forall k | 0 <= k < |from| ensures from[k] < |pools| && HopThrough(pools[from[k]], HopOf((edges + own)[k])) {
      if k < |before| { assert pools[..n][before[k]] == pools[before[k]]; } else { assert (edges + own)[k] in own; }
    }
  }

  // --- the search ---

  /** What the search appends while it looks at `edges` out of the end of `path`. */
  function FoundFrom(adj: Adjacency, base: string, edges: seq<Edge>, maxHops: nat,
                     visited: set<string>, path: Route): seq<Route>
    decreases maxHops - |path|, |edges|
  {
    if edges == [] then [] else
      FoundVia(adj, base, edges[0], maxHops, visited, path)
      + FoundFrom(adj, base, edges[1..], maxHops, visited, path)
  }

  function FoundVia(adj: Adjacency, base: string, e: Edge, maxHops: nat,
                    visited: set<string>, path: Route): seq<Route>
    decreases maxHops - |path|, 0
  {
    var newLen := |path| + 1;
    if e.to == base then
      if 2 <= newLen <= maxHops then [path + [HopOf(e)]] else []
    else if e.to !in visited && newLen < maxHops then
      FoundFrom(adj, base, Neighbours(adj, e.to), maxHops, visited + {e.to}, path + [HopOf(e)])
    else []
  }

  lemma FoundStep(adj: Adjacency, base: string, edges: seq<Edge>, i: nat, maxHops: nat, visited: set<string>, path: Route)
    requires i < |edges|
    ensures FoundFrom(adj, base, edges[i..], maxHops, visited, path)
            == FoundVia(adj, base, edges[i], maxHops, visited, path)
               + FoundFrom(adj, base, edges[i + 1..], maxHops, visited, path)
  {
    assert edges[i..][0] == edges[i] && edges[i..][1..] == edges[i + 1..];
    hide FoundVia;
  }

  lemma FoundNothing(adj: Adjacency, base: string, maxHops: nat, visited: set<string>, path: Route)
    ensures FoundFrom(adj, base, [], maxHops, visited, path) == []
  {}

  /** The search's mutable state: the tokens on the current path, the path, and the cycles so far. */
  class CycleSearch {
    const adj: Adjacency
    const base: string
    const maxHops: nat
    var visited: set<string>
    var path: Route
    var cycles: seq<Route>

    constructor (adjacency: Adjacency, baseToken: string, limit: nat)
      ensures adj == adjacency && base == baseToken && maxHops == limit
      ensures visited == {baseToken} && path == [] && cycles == []
    {
      adj, base, maxHops := adjacency, baseToken, limit;
      visited, path, cycles := {baseToken}, [], [];
    }

    /** `dfs`: appends what it finds below `current` and leaves `visited` and `path` as they were. */
    method Dfs(current: string)
      modifies this
      ensures visited == old(visited) && path == old(path)
      ensures cycles == old(cycles) + FoundFrom(adj, base, Neighbours(adj, current), maxHops, old(visited), old(path))
      decreases maxHops - |path|
    {
      if current !in adj {
        return;
      }
      var edges := adj[current];
      ghost var seen, way := visited, path;
      ghost var goal := cycles + FoundFrom(adj, base, edges, maxHops, seen, way);
      hide FoundFrom, FoundVia;
      assert edges[0..] == edges;
      for i := 0 to |edges|
        invariant visited == seen && path == way
        invariant cycles + FoundFrom(adj, base, edges[i..], maxHops, seen, way) == goal
      {
        var edge := edges[i];
        ghost var before, rest := cycles, FoundFrom(adj, base, edges[i + 1..], maxHops, seen, way);
        FoundStep(adj, base, edges, i, maxHops, seen, way);
        ViaCases(adj, base, edge, maxHops, seen, way);
        var newLen := |path| + 1;
        if edge.to == base {
          if 2 <= newLen <= maxHops {
            cycles := cycles + [path + [HopOf(edge)]];
          }
        } else if edge.to !in visited && newLen < maxHops {
          Restores(seen, edge.to, way, HopOf(edge));
          visited := visited + {edge.to};
          path := path + [HopOf(edge)];
          Dfs(edge.to);
          path := path[..|path| - 1];
          visited := visited - {edge.to};
        }
        assert cycles == before + FoundVia(adj, base, edge, maxHops, seen, way);
        Reassociate(before, FoundVia(adj, base, edge, maxHops, seen, way), rest);
      }
      FoundNothing(adj, base, maxHops, seen, way);
      assert edges[|edges|..] == [] && cycles + [] == cycles;
    }
  }

  lemma ViaCases(adj: Adjacency, base: string, e: Edge, maxHops: nat, visited: set<string>, path: Route)
    ensures var via := FoundVia(adj, base, e, maxHops, visited, path);
            && (e.to == base && 2 <= |path| + 1 <= maxHops ==> via == [path + [HopOf(e)]])
            && (e.to == base && !(2 <= |path| + 1 <= maxHops) ==> via == [])
            && (e.to != base && e.to !in visited && |path| + 1 < maxHops ==>
                  via == FoundFrom(adj, base, Neighbours(adj, e.to), maxHops, visited + {e.to}, path + [HopOf(e)]))
            && (e.to != base && (e.to in visited || |path| + 1 >= maxHops) ==> via == [])
  {
    hide FoundFrom;
  }

  /** What is pushed and popped again. */
  lemma Restores(seen: set<string>, t: string, way: Route, h: Hop)
    requires t !in seen
    ensures (seen + {t}) - {t} == seen
    ensures (way + [h])[..|way + [h]| - 1] == way
  {}

  lemma Reassociate(a: seq<Route>, b: seq<Route>, c: seq<Route>)
    ensures (a + b) + c == a + (b + c)
  {}

  /** `find_cycles`. */
  method FindCycles(adj: Adjacency, base: string, maxHops: nat) returns (cycles: seq<Route>)
    ensures cycles == FoundFrom(adj, base, Neighbours(adj, base), maxHops, {base}, [])
  {
    var search := new CycleSearch(adj, base, maxHops);
    search.Dfs(base);
    return search.cycles;
  }

  // --- what it enumerates ---

  /** `rest` leads from a token back to the base through fresh tokens, its first hop taken from `edges`. */
  ghost predicate Completes(adj: Adjacency, base: string, edges: seq<Edge>, visited: set<string>, rest: Route)
    decreases |rest|
  {
    && rest != []
    && (exists e :: e in edges && rest[0] == HopOf(e))
    && (if |rest| == 1 then rest[0].tokenOut == base
        else && rest[0].tokenOut != base && rest[0].tokenOut !in visited
             && Completes(adj, base, Neighbours(adj, rest[0].tokenOut), visited + {rest[0].tokenOut}, rest[1..]))
  }

  ghost predicate Extends(path: Route, c: Route) {
    |path| < |c| && c[..|path|] == path
  }

  lemma {:induction false} FoundMembers(adj: Adjacency, base: string, edges: seq<Edge>, maxHops: nat,
                                        visited: set<string>, path: Route, c: Route)
    ensures c in FoundFrom(adj, base, edges, maxHops, visited, path)
            <==> Extends(path, c) && 2 <= |c| <= maxHops && Completes(adj, base, edges, visited, c[|path|..])
    decreases maxHops - |path|, |edges|
  {
    if edges != [] {
      FoundMembers(adj, base, edges[1..], maxHops, visited, path, c);
      FoundViaMembers(adj, base, edges[0], maxHops, visited, path, c);
      if Extends(path, c) {
        CompletesSplit(adj, base, edges, visited, c[|path|..]);
      }
    }
  }

  lemma CompletesSplit(adj: Adjacency, base: string, edges: seq<Edge>, visited: set<string>, rest: Route)
    requires edges != []
    ensures Completes(adj, base, edges, visited, rest)
            <==> Completes(adj, base, [edges[0]], visited, rest) || Completes(adj, base, edges[1..], visited, rest)
  {
    assert edges == [edges[0]] + edges[1..];
  }

  lemma {:induction false} FoundViaMembers(adj: Adjacency, base: string, e: Edge, maxHops: nat,
                                           visited: set<string>, path: Route, c: Route)
    ensures c in FoundVia(adj, base, e, maxHops, visited, path)
            <==> Extends(path, c) && 2 <= |c| <= maxHops && Completes(adj, base, [e], visited, c[|path|..])
    decreases maxHops - |path|, 0
  {
    var next := path + [HopOf(e)];
    assert forall x :: x in [e] <==> x == e;
    if Extends(path, c) && c[|path|] == HopOf(e) {
      assert c[..|next|] == next;
      if |c| == |next| {
        assert c == next;
      } else {
        assert c[|path|..][1..] == c[|next|..];
      }
    }
    if e.to != base && e.to !in visited && |next| < maxHops {
      FoundMembers(adj, base, Neighbours(adj, e.to), maxHops, visited + {e.to}, next, c);
      if Extends(next, c) {
        assert c[..|path|] == next[..|path|] == path;
        assert c[|path|] == next[|path|];
      }
    }
  }
}
