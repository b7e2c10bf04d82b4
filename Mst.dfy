/** Lab6/index.js: an undirected weighted graph kept as an edge list plus
    the list of nodes seen, and its two minimum-spanning-tree algorithms,
    Kruskal's (over the disjoint-set forest of module UnionFind) and Prim's. */
module Mst {
  import opened Common
  import opened Reach
  import opened UnionFind
  import opened Builder

  /** `new Edge(v1, v2, w)`. */
  datatype Edge = Edge(v1: nat, v2: nat, w: int)

  /** e connects x and y, in either direction. */
  predicate Joins(e: Edge, x: nat, y: nat)
  {
    (e.v1 == x && e.v2 == y) || (e.v1 == y && e.v2 == x)
  }

  predicate SelfLoop(e: Edge)
  {
    e.v1 == e.v2
  }

  /** e has exactly one endpoint in `visited`. */
  predicate Crosses(e: Edge, visited: seq<nat>)
  {
    (e.v1 in visited) != (e.v2 in visited)
  }

  /** Every endpoint of the edges. */
  ghost function Ends(es: seq<Edge>): set<nat>
  {
    (set e | e in es :: e.v1) + (set e | e in es :: e.v2)
  }

  /** The edges read as an undirected graph: each edge leads both ways. */
  ghost function Und(es: seq<Edge>): Succ
  {
    map x | x in Ends(es) :: (set e | e in es && e.v1 == x :: e.v2) + (set e | e in es && e.v2 == x :: e.v1)
  }

  /** y is a neighbour of x exactly when some edge joins them. */
  lemma UndNext(es: seq<Edge>, x: nat, y: nat)
    ensures y in Next(Und(es), x) <==> exists e :: e in es && Joins(e, x, y)
  {
    if exists e :: e in es && Joins(e, x, y) {
      var e :| e in es && Joins(e, x, y);
      assert x in Ends(es);
      if e.v1 == x && e.v2 == y {
        assert y in (set e | e in es && e.v1 == x :: e.v2);
      } else {
        assert y in (set e | e in es && e.v2 == x :: e.v1);
      }
    }
  }

  /** All nodes lie in one component of the undirected graph of `es`. */
  ghost predicate Connected(nodes: seq<nat>, es: seq<Edge>)
  {
    forall x, y :: x in nodes && y in nodes ==> Reachable(Und(es), x, y)
  }

  /** Undirected reachability is symmetric. */
  lemma ReachableBack(es: seq<Edge>, a: nat, b: nat)
    requires Reachable(Und(es), a, b)
    ensures Reachable(Und(es), b, a)
  {
    var g := Und(es);
    var p :| IsPath(g, p) && p[0] == a && p[|p| - 1] == b;
    var q := seq(|p|, i requires 0 <= i < |p| => p[|p| - 1 - i]);
    forall i | 0 <= i < |q| - 1
      ensures q[i + 1] in Next(g, q[i])
    {
      var u, v := p[|p| - 2 - i], p[|p| - 1 - i];
      assert v in Next(g, u);
      UndNext(es, u, v);
      var e :| e in es && Joins(e, u, v);
      UndNext(es, v, u);
    }
    assert IsPath(g, q);
  }

  /** Nodes all reachable from one of them are connected. */
  lemma ConnectedFrom(nodes: seq<nat>, es: seq<Edge>, s: nat)
    requires forall x :: x in nodes ==> Reachable(Und(es), s, x)
    ensures Connected(nodes, es)
  {
    forall x, y | x in nodes && y in nodes
      ensures Reachable(Und(es), x, y)
    {
      ReachableBack(es, s, x);
      ReachableTrans(Und(es), x, s, y);
    }
  }

  /** A sub-list of edges gives a sub-graph, so reachability carries over. */
  lemma UndMono(es: seq<Edge>, fs: seq<Edge>, a: nat, b: nat)
    requires forall e :: e in es ==> e in fs
    requires Reachable(Und(es), a, b)
    ensures Reachable(Und(fs), a, b)
  {
    forall v
      ensures Next(Und(es), v) <= Next(Und(fs), v)
    {
      forall y | y in Next(Und(es), v)
        ensures y in Next(Und(fs), v)
      {
        UndNext(es, v, y);
        UndNext(fs, v, y);
      }
    }
    ReachableMono(Und(es), Und(fs), a, b);
  }

  predicate SortedByWeight(s: seq<Edge>)
  {
    forall i, j :: 0 <= i < j < |s| ==> s[i].w <= s[j].w
  }

  /** Places x in front of the first heavier-or-equal edge. */
  function Insert(x: Edge, s: seq<Edge>): (r: seq<Edge>)
    requires SortedByWeight(s)
    ensures SortedByWeight(r) && multiset(r) == multiset(s) + multiset{x}
  {
    if s == [] then [x]
    else if x.w <= s[0].w then
      SortedCons(x, s);
      [x] + s
    else
      var rest := Insert(x, s[1..]);
      LowerBound(s[0], rest, s[1..], x);
      SortedCons(s[0], rest);
      assert s == [s[0]] + s[1..];
      assert multiset(s) == multiset{s[0]} + multiset(s[1..]);
      assert multiset([s[0]] + rest) == multiset{s[0]} + multiset(rest);
      [s[0]] + rest
  }

  lemma LowerBound(a: Edge, rest: seq<Edge>, tail: seq<Edge>, x: Edge)
    requires multiset(rest) == multiset(tail) + multiset{x}
    requires a.w <= x.w && forall y :: y in tail ==> a.w <= y.w
    ensures forall y :: y in rest ==> a.w <= y.w
  {
    forall y | y in rest
      ensures a.w <= y.w
    {
      assert y in multiset(rest);
      if y != x {
        assert y in multiset(tail);
      }
    }
  }

  lemma SortedCons(a: Edge, s: seq<Edge>)
    requires SortedByWeight(s) && forall y :: y in s ==> a.w <= y.w
    ensures SortedByWeight([a] + s)
  {
    forall i, j | 0 <= i < j < |[a] + s|
      ensures ([a] + s)[i].w <= ([a] + s)[j].w
    {
      if i == 0 {
        assert ([a] + s)[j] == s[j - 1];
      } else {
        assert ([a] + s)[i] == s[i - 1] && ([a] + s)[j] == s[j - 1];
      }
    }
  }

  /** The sorted copy `sortByWeight` returns (the comparator's order among
      equal weights is not modelled; see README). */
  function InsertionSort(s: seq<Edge>): (r: seq<Edge>)
    ensures SortedByWeight(r) && multiset(r) == multiset(s)
  {
    if s == [] then []
    else
      assert s == s[..|s| - 1] + [s[|s| - 1]];
      Insert(s[|s| - 1], InsertionSort(s[..|s| - 1]))
  }

  /** The sum of the weights, `cost` in `kruskal`. */
  function TotalWeight(es: seq<Edge>): int
  {
    if es == [] then 0 else TotalWeight(es[..|es| - 1]) + es[|es| - 1].w
  }

  lemma EndsAppend(es: seq<Edge>, e: Edge)
    ensures forall x :: x in Ends(es + [e]) <==> x in Ends(es) || x == e.v1 || x == e.v2
  {
    forall x
      ensures x in Ends(es + [e]) <==> x in Ends(es) || x == e.v1 || x == e.v2
    {
      if x in Ends(es + [e]) {
        var f :| f in es + [e] && (f.v1 == x || f.v2 == x);
        if f != e {
          assert f in es;
        }
      }
      if x in Ends(es) {
        var f :| f in es && (f.v1 == x || f.v2 == x);
        assert f in es + [e];
      }
      assert e in es + [e];
    }
  }

  /** An edge of the sorted copy is an edge of the graph. */
  lemma SortedMember(sorted: seq<Edge>, edges: seq<Edge>, k: nat)
    requires multiset(sorted) == multiset(edges) && k < |sorted|
    ensures sorted[k] in edges
  {
    assert sorted[k] in multiset(sorted);
  }

  /** The facts about the graph that both algorithms rely on: `nodes` lists
      every endpoint once, and `sorted` is the edge list by weight. */
  ghost predicate Sorted(nodes: seq<nat>, edges: seq<Edge>, sorted: seq<Edge>)
  {
    NoDup(nodes) && (forall x :: x in nodes <==> x in Ends(edges)) &&
    SortedByWeight(sorted) && multiset(sorted) == multiset(edges)
  }

  lemma SortedEnds(nodes: seq<nat>, edges: seq<Edge>, sorted: seq<Edge>, k: nat)
    requires Sorted(nodes, edges, sorted) && k < |sorted|
    ensures sorted[k] in edges && sorted[k].v1 in nodes && sorted[k].v2 in nodes
  {
    SortedMember(sorted, edges, k);
    assert sorted[k].v1 in Ends(edges) && sorted[k].v2 in Ends(edges);
  }

  /** Nodes of one tree of the forest are joined by the edges in `es`. */
  ghost predicate Spanned(parent: map<nat, nat>, rank: map<nat, nat>, bound: nat, es: seq<Edge>)
    requires WellFormed(parent, rank, bound)
  {
    forall a, b :: a in parent && b in parent && RootOf(parent, rank, bound, a) == RootOf(parent, rank, bound, b)
      ==> Reachable(Und(es), a, b)
  }

  /** Both ends of every edge in `done` are in one tree of the forest. */
  ghost predicate Settled(parent: map<nat, nat>, rank: map<nat, nat>, bound: nat, done: seq<Edge>)
    requires WellFormed(parent, rank, bound)
  {
    forall e :: e in done ==>
      e.v1 in parent && e.v2 in parent &&
      RootOf(parent, rank, bound, e.v1) == RootOf(parent, rank, bound, e.v2)
  }

  /** The state of `kruskal` after the first i sorted edges: one tree of the
      forest per component of the chosen edges so far, |nodes| - |result| trees,
      every examined edge inside a tree, the chosen edges in weight order and
      `cost` their total. */
  ghost predicate KruskalInv(nodes: seq<nat>, edges: seq<Edge>, sorted: seq<Edge>, i: nat,
                             result: seq<Edge>, cost: int,
                             parent: map<nat, nat>, rank: map<nat, nat>, bound: nat)
  {
    i <= |sorted| && WellFormed(parent, rank, bound) && parent.Keys == (set x | x in nodes) &&
    |RootsOf(parent)| + |result| == |nodes| &&
    Chosen(edges, sorted, i, result, cost) &&
    Spanned(parent, rank, bound, result) &&
    Settled(parent, rank, bound, sorted[..i])
  }

  /** The chosen edges come from the graph, in weight order, none heavier
      than an unexamined sorted edge, and `cost` is their total. */
  ghost predicate Chosen(edges: seq<Edge>, sorted: seq<Edge>, i: nat, result: seq<Edge>, cost: int)
  {
    (forall e :: e in result ==> e in edges) &&
    SortedByWeight(result) &&
    (|result| > 0 ==> forall k :: i <= k < |sorted| ==> result[|result| - 1].w <= sorted[k].w) &&
    cost == TotalWeight(result)
  }

  lemma KruskalInit(nodes: seq<nat>, edges: seq<Edge>, sorted: seq<Edge>,
                    parent: map<nat, nat>, rank: map<nat, nat>, bound: nat)
    requires Sorted(nodes, edges, sorted)
    requires WellFormed(parent, rank, bound) && parent.Keys == (set x | x in nodes)
    requires forall x :: x in parent ==> parent[x] == x
    requires RootsOf(parent) == set x | x in nodes
    ensures KruskalInv(nodes, edges, sorted, 0, [], 0, parent, rank, bound)
  {
    NoDupCardinality(nodes, RootsOf(parent));
    forall a, b | a in parent && b in parent && RootOf(parent, rank, bound, a) == RootOf(parent, rank, bound, b)
      ensures Reachable(Und([]), a, b)
    {
      ReachableSelf(Und([]), a);
    }
  }

  /** `find` moves no root, so the state carries over to the compressed forest. */
  lemma KruskalFound(nodes: seq<nat>, edges: seq<Edge>, sorted: seq<Edge>, i: nat,
                     result: seq<Edge>, cost: int,
                     parent: map<nat, nat>, rank: map<nat, nat>, bound: nat, parent': map<nat, nat>)
    requires KruskalInv(nodes, edges, sorted, i, result, cost, parent, rank, bound)
    requires WellFormed(parent', rank, bound) && parent'.Keys == parent.Keys
    requires forall z :: z in parent' ==> RootOf(parent', rank, bound, z) == RootOf(parent, rank, bound, z)
    requires RootsOf(parent') == RootsOf(parent)
    ensures KruskalInv(nodes, edges, sorted, i, result, cost, parent', rank, bound)
  {
  }

  /** An edge whose ends are already in one tree is passed over. */
  lemma KruskalSkip(nodes: seq<nat>, edges: seq<Edge>, sorted: seq<Edge>, i: nat,
                    result: seq<Edge>, cost: int,
                    parent: map<nat, nat>, rank: map<nat, nat>, bound: nat)
    requires KruskalInv(nodes, edges, sorted, i, result, cost, parent, rank, bound)
    requires i < |sorted| && sorted[i].v1 in parent && sorted[i].v2 in parent
    requires RootOf(parent, rank, bound, sorted[i].v1) == RootOf(parent, rank, bound, sorted[i].v2)
    ensures KruskalInv(nodes, edges, sorted, i + 1, result, cost, parent, rank, bound)
  {
    assert sorted[..i + 1] == sorted[..i] + [sorted[i]];
  }

  /** An edge between two trees is taken and the trees are merged: the loser's
      root goes under the winner's. */
  lemma KruskalTake(nodes: seq<nat>, edges: seq<Edge>, sorted: seq<Edge>, i: nat,
                    result: seq<Edge>, cost: int,
                    parent: map<nat, nat>, rank: map<nat, nat>, bound: nat,
                    parent': map<nat, nat>, rank': map<nat, nat>, bound': nat, loser: nat, winner: nat)
    requires Sorted(nodes, edges, sorted)
    requires KruskalInv(nodes, edges, sorted, i, result, cost, parent, rank, bound)
    requires i < |sorted| && sorted[i].v1 in parent && sorted[i].v2 in parent
    requires var r1, r2 := RootOf(parent, rank, bound, sorted[i].v1), RootOf(parent, rank, bound, sorted[i].v2);
             r1 != r2 && ((loser == r1 && winner == r2) || (loser == r2 && winner == r1))
    requires WellFormed(parent', rank', bound') && parent'.Keys == parent.Keys
    requires forall z :: z in parent ==>
      RootOf(parent', rank', bound', z)
      == if RootOf(parent, rank, bound, z) == loser then winner else RootOf(parent, rank, bound, z)
    requires RootsOf(parent') == RootsOf(parent) - {loser}
    ensures KruskalInv(nodes, edges, sorted, i + 1, result + [sorted[i]], cost + sorted[i].w, parent', rank', bound')
  {
    var e := sorted[i];
    assert sorted[..i + 1] == sorted[..i] + [e];
    var r1, r2 := RootOf(parent, rank, bound, e.v1), RootOf(parent, rank, bound, e.v2);
    var result' := result + [e];
    RootIsRoot(parent, rank, bound, e.v1);
    RootIsRoot(parent, rank, bound, e.v2);
    OneTreeFewer(parent, parent', loser);
    ChosenTake(nodes, edges, sorted, i, result, cost);
    MergedSpans(parent, rank, bound, parent', rank', bound', result, e, r1, r2, loser, winner);
    MergedSettled(parent, rank, bound, parent', rank', bound', sorted[..i], e, r1, r2, loser, winner);
  }

  /** Appending the sorted edge at i to the chosen edges keeps them drawn
      from the graph, in weight order, and totalled by `cost`. */
  lemma ChosenTake(nodes: seq<nat>, edges: seq<Edge>, sorted: seq<Edge>, i: nat, result: seq<Edge>, cost: int)
    requires Sorted(nodes, edges, sorted) && i < |sorted|
    requires Chosen(edges, sorted, i, result, cost)
    ensures Chosen(edges, sorted, i + 1, result + [sorted[i]], cost + sorted[i].w)
  {
    var e := sorted[i];
    var result' := result + [e];
    SortedMember(sorted, edges, i);
    assert forall f :: f in result' ==> f in edges;
    SortedAppend(result, e);
    assert result'[..|result|] == result;
  }

  lemma OneTreeFewer(parent: map<nat, nat>, parent': map<nat, nat>, loser: nat)
    requires loser in parent && parent[loser] == loser
    requires RootsOf(parent') == RootsOf(parent) - {loser}
    ensures |RootsOf(parent')| + 1 == |RootsOf(parent)|
  {
    assert RootsOf(parent) == RootsOf(parent') + {loser};
  }

  lemma SortedAppend(s: seq<Edge>, e: Edge)
    requires SortedByWeight(s) && (|s| > 0 ==> s[|s| - 1].w <= e.w)
    ensures SortedByWeight(s + [e])
  {
    forall a, b | 0 <= a < b < |s + [e]|
      ensures (s + [e])[a].w <= (s + [e])[b].w
    {
      if b == |s| && a < |s| - 1 {
        assert s[a].w <= s[|s| - 1].w;
      }
    }
  }

  /** After the merge every tree is still spanned by the chosen edges plus e. */
  lemma MergedSpans(parent: map<nat, nat>, rank: map<nat, nat>, bound: nat,
                    parent': map<nat, nat>, rank': map<nat, nat>, bound': nat,
                    result: seq<Edge>, e: Edge, r1: nat, r2: nat, loser: nat, winner: nat)
    requires WellFormed(parent, rank, bound) && Spanned(parent, rank, bound, result)
    requires e.v1 in parent && e.v2 in parent
    requires r1 == RootOf(parent, rank, bound, e.v1) && r2 == RootOf(parent, rank, bound, e.v2)
    requires (loser == r1 && winner == r2) || (loser == r2 && winner == r1)
    requires WellFormed(parent', rank', bound') && parent'.Keys == parent.Keys
    requires forall z :: z in parent ==>
      RootOf(parent', rank', bound', z)
      == if RootOf(parent, rank, bound, z) == loser then winner else RootOf(parent, rank, bound, z)
    ensures Spanned(parent', rank', bound', result + [e])
  {
    var result' := result + [e];
    assert e.v2 in Next(Und(result'), e.v1) && e.v1 in Next(Und(result'), e.v2) by {
      UndNext(result', e.v1, e.v2);
      UndNext(result', e.v2, e.v1);
      assert e in result' && Joins(e, e.v1, e.v2) && Joins(e, e.v2, e.v1);
    }
    forall a, b | a in parent' && b in parent' && RootOf(parent', rank', bound', a) == RootOf(parent', rank', bound', b)
      ensures Reachable(Und(result'), a, b)
    {
      MergedReach(parent, rank, bound, result, e, a, b, r1, r2, loser, winner,
                  RootOf(parent', rank', bound', a), RootOf(parent', rank', bound', b));
    }
  }

  /** Merging keeps examined edges inside trees and puts e inside one. */
  lemma MergedSettled(parent: map<nat, nat>, rank: map<nat, nat>, bound: nat,
                      parent': map<nat, nat>, rank': map<nat, nat>, bound': nat,
                      done: seq<Edge>, e: Edge, r1: nat, r2: nat, loser: nat, winner: nat)
    requires WellFormed(parent, rank, bound) && Settled(parent, rank, bound, done)
    requires e.v1 in parent && e.v2 in parent
    requires r1 == RootOf(parent, rank, bound, e.v1) && r2 == RootOf(parent, rank, bound, e.v2)
    requires (loser == r1 && winner == r2) || (loser == r2 && winner == r1)
    requires WellFormed(parent', rank', bound') && parent'.Keys == parent.Keys
    requires forall z :: z in parent ==>
      RootOf(parent', rank', bound', z)
      == if RootOf(parent, rank, bound, z) == loser then winner else RootOf(parent, rank, bound, z)
    ensures Settled(parent', rank', bound', done + [e])
  {
    forall f | f in done + [e]
      ensures f.v1 in parent' && f.v2 in parent'
      ensures RootOf(parent', rank', bound', f.v1) == RootOf(parent', rank', bound', f.v2)
    {
      if f != e {
        assert f in done;
      }
    }
  }

  /** The case analysis behind KruskalTake: two nodes that end up under one
      root were in one tree already, or one was in each of the two merged trees. */
  lemma MergedReach(parent: map<nat, nat>, rank: map<nat, nat>, bound: nat, result: seq<Edge>, e: Edge,
                    a: nat, b: nat, r1: nat, r2: nat, loser: nat, winner: nat, ra': nat, rb': nat)
    requires WellFormed(parent, rank, bound) && Spanned(parent, rank, bound, result)
    requires a in parent && b in parent && e.v1 in parent && e.v2 in parent
    requires r1 == RootOf(parent, rank, bound, e.v1) && r2 == RootOf(parent, rank, bound, e.v2)
    requires (loser == r1 && winner == r2) || (loser == r2 && winner == r1)
    requires ra' == (if RootOf(parent, rank, bound, a) == loser then winner else RootOf(parent, rank, bound, a))
    requires rb' == (if RootOf(parent, rank, bound, b) == loser then winner else RootOf(parent, rank, bound, b))
    requires ra' == rb'
    requires e.v2 in Next(Und(result + [e]), e.v1) && e.v1 in Next(Und(result + [e]), e.v2)
    ensures Reachable(Und(result + [e]), a, b)
  {
    var g := Und(result + [e]);
    var ra, rb := RootOf(parent, rank, bound, a), RootOf(parent, rank, bound, b);
    assert forall f :: f in result ==> f in result + [e];
    if ra == rb {
      UndMono(result, result + [e], a, b);
    } else {
      var (x, y) := if ra == r1 then (e.v1, e.v2) else (e.v2, e.v1);
      assert RootOf(parent, rank, bound, x) == ra && RootOf(parent, rank, bound, y) == rb;
      UndMono(result, result + [e], a, x);
      UndMono(result, result + [e], y, b);
      ReachableStep(g, a, x, y);
      ReachableTrans(g, a, y, b);
    }
  }

  /** A node that is its own parent is its own root. */
  lemma RootOfRoot(parent: map<nat, nat>, rank: map<nat, nat>, bound: nat, x: nat)
    requires WellFormed(parent, rank, bound) && x in parent && parent[x] == x
    ensures RootOf(parent, rank, bound, x) == x
  {
  }

  /** Two distinct members of a set make it larger than one. */
  lemma TwoMembers(s: set<nat>, a: nat, b: nat)
    requires a in s && b in s && a != b
    ensures |s| >= 2
  {
    SetCardinalityMonotone({a, b}, s);
  }

  /** When the loop stops with |nodes| - 1 edges, the forest is a single tree,
      so the chosen edges connect every node, and so do the graph's edges. */
  lemma KruskalDone(nodes: seq<nat>, edges: seq<Edge>, sorted: seq<Edge>, i: nat,
                    result: seq<Edge>, cost: int,
                    parent: map<nat, nat>, rank: map<nat, nat>, bound: nat)
    requires KruskalInv(nodes, edges, sorted, i, result, cost, parent, rank, bound)
    requires |result| >= |nodes| - 1
    ensures |result| == if |nodes| == 0 then 0 else |nodes| - 1
    ensures Connected(nodes, result) && Connected(nodes, edges)
  {
    if |nodes| > 0 {
      var s := nodes[0];
      assert s in parent;
      var rho := RootOf(parent, rank, bound, s);
      RootIsRoot(parent, rank, bound, s);
      assert rho in RootsOf(parent);
      forall x | x in nodes
        ensures Reachable(Und(result), s, x)
      {
        assert x in parent;
        RootIsRoot(parent, rank, bound, x);
        var sigma := RootOf(parent, rank, bound, x);
        assert sigma in RootsOf(parent);
        if sigma != rho {
          TwoMembers(RootsOf(parent), rho, sigma);
          assert false;
        }
      }
      ConnectedFrom(nodes, result, s);
      forall x, y | x in nodes && y in nodes
        ensures Reachable(Und(edges), x, y)
      {
        UndMono(result, edges, x, y);
      }
    }
  }

  /** When the sorted edges run out with fewer than |nodes| - 1 chosen, two
      trees remain, and since every edge lies inside a tree no path joins them:
      the graph is not connected. */
  lemma KruskalStuck(nodes: seq<nat>, edges: seq<Edge>, sorted: seq<Edge>,
                     result: seq<Edge>, cost: int,
                     parent: map<nat, nat>, rank: map<nat, nat>, bound: nat)
    requires Sorted(nodes, edges, sorted)
    requires KruskalInv(nodes, edges, sorted, |sorted|, result, cost, parent, rank, bound)
    requires |result| < |nodes| - 1
    ensures !Connected(nodes, edges)
  {
    var s := nodes[0];
    assert s in parent;
    var rho := RootOf(parent, rank, bound, s);
    RootIsRoot(parent, rank, bound, s);
    var sigma :| sigma in RootsOf(parent) && sigma != rho by {
      if forall t :: t in RootsOf(parent) ==> t == rho {
        SetCardinalityMonotone(RootsOf(parent), {rho});
        assert false;
      }
    }
    RootOfRoot(parent, rank, bound, sigma);
    var tree := set x | x in parent && RootOf(parent, rank, bound, x) == rho;
    assert sorted[..|sorted|] == sorted;
    forall e | e in edges
      ensures e in sorted[..|sorted|]
    {
      assert e in multiset(edges);
    }
    TreeClosed(parent, rank, bound, edges, sorted[..|sorted|], rho);
    if Connected(nodes, edges) {
      assert sigma in nodes;
      ClosedContainsReachable(Und(edges), tree, s, sigma);
      assert false;
    }
  }

  /** When both ends of every edge lie in one tree, no edge leaves a tree. */
  lemma TreeClosed(parent: map<nat, nat>, rank: map<nat, nat>, bound: nat,
                   edges: seq<Edge>, done: seq<Edge>, rho: nat)
    requires WellFormed(parent, rank, bound) && Settled(parent, rank, bound, done)
    requires forall e :: e in edges ==> e in done
    ensures Closed(Und(edges), set x | x in parent && RootOf(parent, rank, bound, x) == rho)
  {
    var tree := set x | x in parent && RootOf(parent, rank, bound, x) == rho;
    forall v | v in tree
      ensures Next(Und(edges), v) <= tree
    {
      forall y | y in Next(Und(edges), v)
        ensures y in tree
      {
        UndNext(edges, v, y);
        var e :| e in edges && Joins(e, v, y);
        assert e in done;
      }
    }
  }

  /** The two `find` calls of one round of `kruskal`: they return the roots
      of the edge's ends and compress paths without changing any root. */
  method FindRoots(nodes: seq<nat>, edges: seq<Edge>, sorted: seq<Edge>, i: nat,
                   result: seq<Edge>, cost: int, subsets: Subsets) returns (root1: nat, root2: nat)
    requires Sorted(nodes, edges, sorted) && i < |sorted|
    requires subsets.Valid()
    requires KruskalInv(nodes, edges, sorted, i, result, cost, subsets.parent, subsets.rank, subsets.bound)
    modifies subsets
    ensures subsets.Valid() && subsets.rank == old(subsets.rank) && subsets.bound == old(subsets.bound)
    ensures KruskalInv(nodes, edges, sorted, i, result, cost, subsets.parent, subsets.rank, subsets.bound)
    ensures sorted[i].v1 in subsets.parent && sorted[i].v2 in subsets.parent
    ensures root1 == RootOf(subsets.parent, subsets.rank, subsets.bound, sorted[i].v1)
    ensures root2 == RootOf(subsets.parent, subsets.rank, subsets.bound, sorted[i].v2)
    ensures root1 in subsets.parent && subsets.parent[root1] == root1
    ensures root2 in subsets.parent && subsets.parent[root2] == root2
  {
    var edge := sorted[i];
    SortedEnds(nodes, edges, sorted, i);
    ghost var p0 := subsets.parent;
    root1 := subsets.Find(edge.v1);
    KruskalFound(nodes, edges, sorted, i, result, cost, p0, subsets.rank, subsets.bound, subsets.parent);
    ghost var p1 := subsets.parent;
    root2 := subsets.Find(edge.v2);
    KruskalFound(nodes, edges, sorted, i, result, cost, p1, subsets.rank, subsets.bound, subsets.parent);
    RootIsRoot(subsets.parent, subsets.rank, subsets.bound, edge.v1);
  }

  /** `union(subsets, root1, root2)` on the two different roots of the ends
      of the sorted edge at i, which joins the result. */
  method Merge(nodes: seq<nat>, edges: seq<Edge>, sorted: seq<Edge>, i: nat,
               result: seq<Edge>, cost: int, subsets: Subsets, root1: nat, root2: nat)
    requires Sorted(nodes, edges, sorted) && i < |sorted|
    requires subsets.Valid()
    requires KruskalInv(nodes, edges, sorted, i, result, cost, subsets.parent, subsets.rank, subsets.bound)
    requires sorted[i].v1 in subsets.parent && sorted[i].v2 in subsets.parent
    requires root1 == RootOf(subsets.parent, subsets.rank, subsets.bound, sorted[i].v1)
    requires root2 == RootOf(subsets.parent, subsets.rank, subsets.bound, sorted[i].v2)
    requires root1 in subsets.parent && subsets.parent[root1] == root1
    requires root2 in subsets.parent && subsets.parent[root2] == root2
    requires root1 != root2
    modifies subsets
    ensures subsets.Valid()
    ensures KruskalInv(nodes, edges, sorted, i + 1, result + [sorted[i]], cost + sorted[i].w,
                       subsets.parent, subsets.rank, subsets.bound)
  {
    ghost var parent, rank, bound := subsets.parent, subsets.rank, subsets.bound;
    RootOfRoot(parent, rank, bound, root1);
    RootOfRoot(parent, rank, bound, root2);
    ghost var loser := if rank[root1] < rank[root2] then root1 else root2;
    ghost var winner := if rank[root1] < rank[root2] then root2 else root1;
    subsets.Union(root1, root2);
    KruskalTake(nodes, edges, sorted, i, result, cost, parent, rank, bound,
                subsets.parent, subsets.rank, subsets.bound, loser, winner);
  }

  /** One round of `kruskal`'s loop on the sorted edge at i: find the roots of
      its ends and, when they differ, unite the two trees. `taken` says whether
      the edge joins the result. */
  method KruskalRound(nodes: seq<nat>, edges: seq<Edge>, sorted: seq<Edge>, i: nat,
                      result: seq<Edge>, cost: int, subsets: Subsets)
    returns (taken: bool, result': seq<Edge>, cost': int)
    requires Sorted(nodes, edges, sorted) && i < |sorted|
    requires subsets.Valid()
    requires KruskalInv(nodes, edges, sorted, i, result, cost, subsets.parent, subsets.rank, subsets.bound)
    modifies subsets
    ensures subsets.Valid()
    ensures result' == if taken then result + [sorted[i]] else result
    ensures cost' == if taken then cost + sorted[i].w else cost
    ensures KruskalInv(nodes, edges, sorted, i + 1, result', cost', subsets.parent, subsets.rank, subsets.bound)
  {
    var root1, root2 := FindRoots(nodes, edges, sorted, i, result, cost, subsets);
    if root1 != root2 {
      Merge(nodes, edges, sorted, i, result, cost, subsets, root1, root2);
      taken, result', cost' := true, result + [sorted[i]], cost + sorted[i].w;
    } else {
      KruskalSkip(nodes, edges, sorted, i, result, cost, subsets.parent, subsets.rank, subsets.bound);
      taken, result', cost' := false, result, cost;
    }
  }

  /** Every node is the end of some edge. */
  lemma NodesNeedEdges(nodes: seq<nat>, edges: seq<Edge>)
    requires forall x :: x in nodes <==> x in Ends(edges)
    ensures |nodes| > 0 ==> |edges| > 0
  {
    if |nodes| > 0 {
      assert nodes[0] in Ends(edges);
    }
  }

  /** Entry k of `visitedBool` is `true`; a read past the end is `undefined`. */
  predicate Used(used: array<bool>, k: int)
    reads used
  {
    0 <= k < used.Length && used[k]
  }

  /** Prim's state: `visited` starts with both ends of the lightest edge and
      then lists each vertex added, never one already there; every chosen edge
      is an edge of the graph inside `visited`, so is every edge marked used,
      and every visited vertex is reachable from the first over chosen edges. */
  ghost predicate PrimInv(nodes: seq<nat>, edges: seq<Edge>, sorted: seq<Edge>,
                          visited: seq<nat>, result: seq<Edge>, used: seq<bool>)
  {
    |sorted| > 0 && |used| == |sorted| &&
    |visited| == |result| + 1 && |visited| >= 2 &&
    visited[0] == sorted[0].v1 && visited[1] == sorted[0].v2 && result[0] == sorted[0] &&
    PrimVisited(nodes, visited) &&
    PrimEdges(edges, sorted, visited, result, used) &&
    (forall x :: x in visited ==> Reachable(Und(result), visited[0], x))
  }

  /** `visited` holds nodes, and only its first entry may repeat (when the
      start edge is a self-loop). */
  ghost predicate PrimVisited(nodes: seq<nat>, visited: seq<nat>)
  {
    |visited| >= 2 &&
    NoDup(visited[1..]) &&
    (forall j :: 2 <= j < |visited| ==> visited[j] != visited[0]) &&
    (forall x :: x in visited ==> x in nodes)
  }

  /** The chosen edges come from the graph, and every chosen or marked edge
      has both ends visited. */
  ghost predicate PrimEdges(edges: seq<Edge>, sorted: seq<Edge>, visited: seq<nat>, result: seq<Edge>, used: seq<bool>)
  {
    |used| == |sorted| &&
    (forall e :: e in result ==> e in edges && e.v1 in visited && e.v2 in visited) &&
    (forall k :: 0 <= k < |used| && used[k] ==> sorted[k].v1 in visited && sorted[k].v2 in visited)
  }

  /** The lightest sorted edge is no heavier than any edge of the graph. */
  lemma FirstLightest(edges: seq<Edge>, sorted: seq<Edge>)
    requires SortedByWeight(sorted) && multiset(sorted) == multiset(edges) && |sorted| > 0
    ensures forall e :: e in edges ==> sorted[0].w <= e.w
  {
    forall e | e in edges
      ensures sorted[0].w <= e.w
    {
      assert e in multiset(sorted);
      var k :| 0 <= k < |sorted| && sorted[k] == e;
    }
  }

  /** The state after `prim` takes the lightest edge. */
  lemma PrimInit(nodes: seq<nat>, edges: seq<Edge>, sorted: seq<Edge>, used: seq<bool>)
    requires Sorted(nodes, edges, sorted) && |sorted| > 0
    requires |used| == |sorted| && forall k :: 0 < k < |used| ==> !used[k]
    ensures PrimInv(nodes, edges, sorted, [sorted[0].v1, sorted[0].v2], [sorted[0]], used)
  {
    var e := sorted[0];
    SortedEnds(nodes, edges, sorted, 0);
    UndNext([e], e.v1, e.v2);
    assert Joins(e, e.v1, e.v2);
    ReachableSelf(Und([e]), e.v1);
    ReachableStep(Und([e]), e.v1, e.v1, e.v2);
  }

  /** Every vertex of `visited` is reachable from the first over the chosen
      edges plus one that joins a visited u to the new vertex v. */
  lemma PrimGrowReach(result: seq<Edge>, visited: seq<nat>, e: Edge, u: nat, v: nat)
    requires |visited| > 0 && forall x :: x in visited ==> Reachable(Und(result), visited[0], x)
    requires u in visited && Joins(e, u, v)
    ensures forall x :: x in visited + [v] ==> Reachable(Und(result + [e]), visited[0], x)
  {
    var g := Und(result + [e]);
    assert forall f :: f in result ==> f in result + [e];
    forall x | x in visited + [v]
      ensures Reachable(g, visited[0], x)
    {
      if x in visited {
        UndMono(result, result + [e], visited[0], x);
      } else {
        UndMono(result, result + [e], visited[0], u);
        UndNext(result + [e], u, v);
        assert e in result + [e];
        ReachableStep(g, visited[0], u, v);
      }
    }
  }

  /** Taking the unused edge k, which crosses from a visited u to the
      unvisited v, keeps the state. */
  lemma PrimStep(nodes: seq<nat>, edges: seq<Edge>, sorted: seq<Edge>,
                 visited: seq<nat>, result: seq<Edge>, used: seq<bool>, k: nat, u: nat, v: nat)
    requires Sorted(nodes, edges, sorted)
    requires PrimInv(nodes, edges, sorted, visited, result, used)
    requires k < |sorted| && Joins(sorted[k], u, v) && u in visited && v !in visited
    ensures PrimInv(nodes, edges, sorted, visited + [v], result + [sorted[k]], used[k := true])
    ensures |visited| + 1 <= |nodes| + 1
  {
    PrimStepInv(nodes, edges, sorted, visited, result, used, k, u, v);
    PrimBound(nodes, edges, sorted, visited + [v], result + [sorted[k]], used[k := true]);
  }

  lemma PrimStepInv(nodes: seq<nat>, edges: seq<Edge>, sorted: seq<Edge>,
                    visited: seq<nat>, result: seq<Edge>, used: seq<bool>, k: nat, u: nat, v: nat)
    requires Sorted(nodes, edges, sorted)
    requires PrimInv(nodes, edges, sorted, visited, result, used)
    requires k < |sorted| && Joins(sorted[k], u, v) && u in visited && v !in visited
    ensures PrimInv(nodes, edges, sorted, visited + [v], result + [sorted[k]], used[k := true])
  {
    var e := sorted[k];
    var visited', result' := visited + [v], result + [e];
    SortedEnds(nodes, edges, sorted, k);
    assert PrimVisited(nodes, visited') by {
      assert visited'[1..] == visited[1..] + [v];
      NoDupAppend(visited[1..], v);
      assert forall x :: x in visited' <==> x in visited || x == v;
    }
    assert PrimEdges(edges, sorted, visited', result', used[k := true]) by {
      assert forall x :: x in visited' <==> x in visited || x == v;
      assert forall f :: f in result' <==> f in result || f == e;
    }
    PrimGrowReach(result, visited, e, u, v);
  }

  /** `visited` minus its first entry is a duplicate-free list of nodes, so
      it is at most |nodes| long. */
  lemma PrimBound(nodes: seq<nat>, edges: seq<Edge>, sorted: seq<Edge>,
                  visited: seq<nat>, result: seq<Edge>, used: seq<bool>)
    requires Sorted(nodes, edges, sorted)
    requires PrimInv(nodes, edges, sorted, visited, result, used)
    ensures |visited| <= |nodes| + 1
  {
    assert forall x :: x in visited[1..] ==> x in visited;
    SubsetCardinality(visited[1..], nodes);
  }

  /** A duplicate-free list with the members of `visited`: when the first
      edge is a self-loop the first entry is repeated, otherwise there is no
      repeat. */
  lemma PrimVisitedSet(nodes: seq<nat>, edges: seq<Edge>, sorted: seq<Edge>,
                       visited: seq<nat>, result: seq<Edge>, used: seq<bool>) returns (q: seq<nat>)
    requires PrimInv(nodes, edges, sorted, visited, result, used)
    ensures NoDup(q) && forall x :: x in q <==> x in visited
    ensures |q| == if SelfLoop(sorted[0]) then |result| else |result| + 1
  {
    var tail := visited[1..];
    assert visited == [visited[0]] + tail;
    if SelfLoop(sorted[0]) {
      assert visited[0] == tail[0];
      q := tail;
    } else {
      forall j | 0 <= j < |tail|
        ensures tail[j] != visited[0]
      {
        assert tail[j] == visited[j + 1];
      }
      q := [visited[0]] + tail;
      NoDupConcat([visited[0]], tail);
    }
  }

  /** No edge leaves a set that holds both ends of every edge. */
  lemma ClosedInside(es: seq<Edge>, S: set<nat>)
    requires forall e :: e in es ==> e.v1 in S && e.v2 in S
    ensures Closed(Und(es), S)
  {
    forall x, y | x in S && y in Next(Und(es), x)
      ensures y in S
    {
      UndNext(es, x, y);
    }
  }

  /** When `getNextEdge` finds nothing before |nodes| - 1 edges are chosen,
      some node is unvisited and no edge leaves the visited vertices: the
      graph is not connected. */
  lemma PrimStuck(nodes: seq<nat>, edges: seq<Edge>, sorted: seq<Edge>,
                  visited: seq<nat>, result: seq<Edge>, used: seq<bool>)
    requires Sorted(nodes, edges, sorted)
    requires PrimInv(nodes, edges, sorted, visited, result, used)
    requires forall k :: 0 <= k < |sorted| && !used[k] ==> !Crosses(sorted[k], visited)
    requires |result| < |nodes| - 1
    ensures !Connected(nodes, edges)
  {
    var q := PrimVisitedSet(nodes, edges, sorted, visited, result, used);
    if forall x :: x in nodes ==> x in q {
      SubsetCardinality(nodes, q);
      assert false;
    }
    var w :| w in nodes && w !in q;
    var S := set x | x in visited;
    forall k | 0 <= k < |sorted|
      ensures !Crosses(sorted[k], visited)
    {
    }
    forall x, y | x in S && y in Next(Und(edges), x)
      ensures y in S
    {
      UndNext(edges, x, y);
      var e :| e in edges && Joins(e, x, y);
      assert e in multiset(sorted);
      var k :| 0 <= k < |sorted| && sorted[k] == e;
      assert !Crosses(sorted[k], visited);
    }
    assert Closed(Und(edges), S);
    if Connected(nodes, edges) {
      assert visited[0] in nodes;
      ClosedContainsReachable(Und(edges), S, visited[0], w);
      assert false;
    }
  }

  /** When |nodes| - 1 edges are chosen the tree spans the nodes exactly when
      the first edge is not a self-loop; after a self-loop one node is never
      visited. */
  lemma PrimDone(nodes: seq<nat>, edges: seq<Edge>, sorted: seq<Edge>,
                 visited: seq<nat>, result: seq<Edge>, used: seq<bool>)
    requires Sorted(nodes, edges, sorted)
    requires PrimInv(nodes, edges, sorted, visited, result, used)
    requires |result| == |nodes| - 1
    ensures Connected(nodes, result) <==> !SelfLoop(result[0])
  {
    var q := PrimVisitedSet(nodes, edges, sorted, visited, result, used);
    assert forall x :: x in q ==> x in nodes;
    if SelfLoop(result[0]) {
      if forall x :: x in nodes ==> x in q {
        SubsetCardinality(nodes, q);
        assert false;
      }
      var w :| w in nodes && w !in q;
      var S := set x | x in visited;
      ClosedInside(result, S);
      if Connected(nodes, result) {
        ClosedContainsReachable(Und(result), S, visited[0], w);
        assert false;
      }
    } else {
      SubsetCardinality(q, nodes);
      ConnectedFrom(nodes, result, visited[0]);
    }
  }

  /** The graph of Lab6: `edges` in insertion order and `nodes` in order of
      first appearance. */
  class Graph {
    var edges: seq<Edge>
    var nodes: seq<nat>

    /** `nodes` holds each endpoint of `edges`, once. */
    ghost predicate Valid()
      reads this
    {
      NoDup(nodes) && forall x :: x in nodes <==> x in Ends(edges)
    }

    constructor ()
      ensures Valid() && edges == [] && nodes == []
    {
      edges, nodes := [], [];
    }

    /** `addEdge(edge)`: append the edge, then each endpoint not yet listed. */
    method AddEdge(e: Edge)
      requires Valid()
      modifies this
      ensures Valid()
      ensures edges == old(edges) + [e]
      ensures nodes == AppendIfAbsent(AppendIfAbsent(old(nodes), e.v1), e.v2)
    {
      EndsAppend(edges, e);
      edges := edges + [e];
      nodes := AppendIfAbsent(nodes, e.v1);
      nodes := AppendIfAbsent(nodes, e.v2);
    }

    /** `sortByWeight()`: a copy of the edge list, lightest first. */
    function SortByWeight(): (r: seq<Edge>)
      reads this
      ensures SortedByWeight(r) && multiset(r) == multiset(edges)
    {
      InsertionSort(edges)
    }
    /** `getNextEdge(visited, visitedBool, sortedEdges)`: the first edge not
        marked used with exactly one end visited, its index and its unvisited
        end; nothing when there is none. An index past the end of `used`
        reads as unmarked. */
    method GetNextEdge(visited: seq<nat>, used: array<bool>, sorted: seq<Edge>) returns (r: Option<(Edge, nat, nat)>)
      ensures r.None? <==> forall k :: 0 <= k < |sorted| && !Used(used, k) ==> !Crosses(sorted[k], visited)
      ensures r.Some? ==>
        var (e, k, v) := r.value;
        k < |sorted| && e == sorted[k] && !Used(used, k) && Crosses(e, visited) &&
        v !in visited && (v == e.v1 || v == e.v2) &&
        forall k' :: 0 <= k' < k && !Used(used, k') ==> !Crosses(sorted[k'], visited)
      ensures r.Some? && SortedByWeight(sorted) ==>
        forall k' :: 0 <= k' < |sorted| && !Used(used, k') && Crosses(sorted[k'], visited) ==>
          r.value.0.w <= sorted[k'].w
    {
      var j := 0;
      while j < |sorted|
        invariant 0 <= j <= |sorted|
        invariant forall k :: 0 <= k < j && !Used(used, k) ==> !Crosses(sorted[k], visited)
      {
        var edge := sorted[j];
        if !Used(used, j) {
          if edge.v1 !in visited && edge.v2 in visited {
            return Some((edge, j, edge.v1));
          }
          if edge.v1 in visited && edge.v2 !in visited {
            return Some((edge, j, edge.v2));
          }
        }
        j := j + 1;
      }
      return None;
    }

    /** One iteration of `prim`'s loop: `getNextEdge`, then mark the edge,
        visit its new end and append it to the result. The edge taken is the
        first unused sorted edge with exactly one end visited, and its index
        is returned as k. When no edge is found the destructuring throws;
        that happens only on a disconnected graph. */
    method PrimRound(sorted: seq<Edge>, visited: seq<nat>, result: seq<Edge>, used: array<bool>)
      returns (found: bool, k: nat, visited': seq<nat>, result': seq<Edge>)
      requires Sorted(nodes, edges, sorted)
      requires PrimInv(nodes, edges, sorted, visited, result, used[..])
      requires |nodes| >= 2 ==> |result| < |nodes| - 1
      modifies used
      ensures found ==>
        k < |sorted| && !old(Used(used, k)) && Crosses(sorted[k], visited) &&
        (forall k' :: 0 <= k' < k && !old(Used(used, k')) ==> !Crosses(sorted[k'], visited))
      ensures found ==>
        result' == result + [sorted[k]] &&
        visited' == visited + [if sorted[k].v1 in visited then sorted[k].v2 else sorted[k].v1] &&
        used[..] == old(used[..])[k := true]
      ensures !found ==>
        (forall k' :: 0 <= k' < |sorted| && !old(Used(used, k')) ==> !Crosses(sorted[k'], visited)) &&
        used[..] == old(used[..])
      ensures found ==> PrimInv(nodes, edges, sorted, visited', result', used[..])
      ensures found ==> |result'| == |result| + 1 && |visited'| == |visited| + 1 <= |nodes| + 1
      ensures !found && |nodes| >= 2 ==> !Connected(nodes, edges)
    {
      var next := GetNextEdge(visited, used, sorted);
      if next.None? {
        if |nodes| >= 2 {
          PrimStuck(nodes, edges, sorted, visited, result, used[..]);
        }
        return false, 0, visited, result;
      }
      var (nextEdge, edgeIdx, newVertex) := next.value;
      ghost var u := if newVertex == nextEdge.v1 then nextEdge.v2 else nextEdge.v1;
      PrimStep(nodes, edges, sorted, visited, result, used[..], edgeIdx, u, newVertex);
      ghost var before := used[..];
      used[edgeIdx] := true;
      assert used[..] == before[edgeIdx := true];
      return true, edgeIdx, visited + [newVertex], result + [nextEdge];
    }

    /** `prim()`: start from the lightest edge and repeatedly take the first
        unused sorted edge leaving the visited vertices, until |nodes| - 1
        edges are chosen. An empty graph, or a round with no such edge,
        reads a property of `undefined` and throws a TypeError. The chosen
        edges, a local of the source, are returned. When the lightest edge is
        a self-loop its two ends count as two visited vertices, and the edges
        returned then miss a node. */
    method Prim() returns (r: Result<seq<Edge>>)
      requires Valid()
      ensures r.Failure? ==> r.error == TypeError
      ensures Connected(nodes, edges) ==> (r.Success? <==> |nodes| >= 2)
      ensures r.Success? ==> |nodes| >= 2 && |r.value| == |nodes| - 1
      ensures r.Success? ==> forall e :: e in r.value ==> e in edges
      ensures r.Success? ==> forall e :: e in edges ==> r.value[0].w <= e.w
      ensures r.Success? ==> (Connected(nodes, r.value) <==> !SelfLoop(r.value[0]))
    {
      var used := new bool[|edges|](_ => false);
      var sorted := SortByWeight();
      assert |sorted| == |multiset(sorted)| == |multiset(edges)| == |edges|;
      NodesNeedEdges(nodes, edges);
      if |sorted| == 0 {
        return Failure(TypeError);
      }
      var start := sorted[0];
      var visited := [start.v1, start.v2];
      used[0] := true;
      var result := [start];
      FirstLightest(edges, sorted);
      PrimInit(nodes, edges, sorted, used[..]);
      while |result| != |nodes| - 1
        invariant PrimInv(nodes, edges, sorted, visited, result, used[..])
        invariant |nodes| >= 2 ==> |result| <= |nodes| - 1
        decreases |nodes| + 1 - |visited|
      {
        var found, edgeIdx;
        found, edgeIdx, visited, result := PrimRound(sorted, visited, result, used);
        if !found {
          return Failure(TypeError);
        }
      }
      PrimDone(nodes, edges, sorted, visited, result, used[..]);
      return Success(result);
    }

    /** `kruskal()`: take the sorted edges in turn and keep each one whose ends
        lie in different trees of the disjoint-set forest, merging the trees,
        until |nodes| - 1 edges are kept. Reading past the last sorted edge
        throws a TypeError, which happens exactly when the graph is not
        connected. The chosen edges and their cost, locals of the source, are
        returned. */
    method Kruskal() returns (r: Result<(seq<Edge>, int)>)
      requires Valid()
      ensures r.Failure? ==> r.error == TypeError
      ensures r.Success? <==> Connected(nodes, edges)
      ensures r.Success? ==> |r.value.0| == if |nodes| == 0 then 0 else |nodes| - 1
      ensures r.Success? ==> Connected(nodes, r.value.0)
      ensures r.Success? ==> forall e :: e in r.value.0 ==> e in edges
      ensures r.Success? ==> SortedByWeight(r.value.0) && r.value.1 == TotalWeight(r.value.0)
    {
      var sorted := SortByWeight();
      var ns, es := nodes, edges;
      var subsets := new Subsets(ns);
      KruskalInit(ns, es, sorted, subsets.parent, subsets.rank, subsets.bound);
      var result: seq<Edge> := [];
      var cost := 0;
      var i, j := 0, 0;
      while j < |ns| - 1
        invariant j == |result|
        invariant subsets.Valid()
        invariant KruskalInv(ns, es, sorted, i, result, cost, subsets.parent, subsets.rank, subsets.bound)
        decreases |sorted| - i
      {
        if i == |sorted| {
          KruskalStuck(ns, es, sorted, result, cost, subsets.parent, subsets.rank, subsets.bound);
          return Failure(TypeError);
        }
        var taken;
        taken, result, cost := KruskalRound(ns, es, sorted, i, result, cost, subsets);
        if taken {
          j := j + 1;
        }
        i := i + 1;
      }
      KruskalDone(ns, es, sorted, i, result, cost, subsets.parent, subsets.rank, subsets.bound);
      return Success((result, cost));
    }
  }

  /** The path loop and the random loop of `makeGraph`: each planned pair
      becomes an edge weighted by the next of `weights` (`randomNumber()`). */
  method Build(n: nat, plan: seq<Pair>, weights: seq<int>) returns (g: Graph)
    requires |weights| >= |plan|
    ensures fresh(g) && g.Valid()
    ensures |g.edges| == |plan|
    ensures forall k :: 0 <= k < |plan| ==> g.edges[k] == Edge(plan[k].0, plan[k].1, weights[k])
  {
    g := new Graph();
    var k := 0;
    while k < |plan|
      invariant 0 <= k <= |plan|
      invariant fresh(g) && g.Valid()
      invariant |g.edges| == k
      invariant forall i :: 0 <= i < k ==> g.edges[i] == Edge(plan[i].0, plan[i].1, weights[i])
    {
      g.AddEdge(Edge(plan[k].0, plan[k].1, weights[k]));
      k := k + 1;
    }
  }

  /** The built graph: its nodes are the vertices `0..n` (when there is a
      path, n >= 1) and it is connected. */
  lemma BuiltConnected(n: nat, plan: seq<Pair>, nodes: seq<nat>, edges: seq<Edge>)
    requires n >= 1 && n <= |plan| == |edges| && InRange(plan, n)
    requires forall i :: 0 <= i < n ==> plan[i] == (i, i + 1)
    requires forall k :: 0 <= k < |plan| ==> edges[k].v1 == plan[k].0 && edges[k].v2 == plan[k].1
    requires forall x :: x in nodes <==> x in Ends(edges)
    requires NoDup(nodes)
    ensures forall x: nat :: x in nodes <==> x <= n
    ensures |nodes| == n + 1
    ensures Connected(nodes, edges)
  {
    forall x: nat
      ensures x in Ends(edges) <==> x <= n
    {
      if x in Ends(edges) {
        var e :| e in edges && (e.v1 == x || e.v2 == x);
        var k :| 0 <= k < |edges| && edges[k] == e;
      }
      if x < n {
        assert edges[x].v1 == x;
      } else if x == n {
        assert edges[n - 1].v2 == n;
      }
    }
    NoDupCardinality(nodes, UpTo(n));
    var g := Und(edges);
    forall i | 0 <= i < n
      ensures i + 1 in Next(g, i)
    {
      UndNext(edges, i, i + 1);
      assert edges[i] in edges && Joins(edges[i], i, i + 1);
    }
    forall x | x in nodes
      ensures Reachable(g, 0, x)
    {
      PathReachesAll(g, n, x);
    }
    ConnectedFrom(nodes, edges, 0);
  }

  /** Without a path (n == 0) the only vertex is 0, and the duplicate-free
      plan holds the pair (0, 0) at most once: at most one node. */
  lemma OneVertex(plan: seq<Pair>, nodes: seq<nat>, edges: seq<Edge>)
    requires InRange(plan, 0) && |plan| == |edges|
    requires forall k :: 0 <= k < |plan| ==> edges[k].v1 == plan[k].0 && edges[k].v2 == plan[k].1
    requires NoDup(nodes) && forall x :: x in nodes <==> x in Ends(edges)
    ensures |nodes| <= 1 && Connected(nodes, edges)
  {
    forall x | x in nodes
      ensures x == 0
    {
      var e :| e in edges && (e.v1 == x || e.v2 == x);
      var k :| 0 <= k < |edges| && edges[k] == e;
    }
    SubsetCardinality(nodes, [0]);
    forall x, y | x in nodes && y in nodes
      ensures Reachable(Und(edges), x, y)
    {
      ReachableSelf(Und(edges), x);
    }
  }

  /** `makeGraph(n, m)` of Lab6: lay out the edges, then run `prim` and then
      `kruskal`; the two chosen edge lists and Kruskal's cost stand in for the
      returned times. With a path (n >= 1) both algorithms succeed and pick n
      edges. Kruskal's join all vertices `0..n`; `prim`'s do exactly when its
      first edge is not a drawn self-loop. Without a path `prim` throws. */
  method MakeGraph(n: nat, m: nat, picks: seq<nat>, weights: seq<int>)
    returns (r: Result<(seq<Edge>, seq<Edge>, int)>)
    requires forall j :: 0 <= j < |picks| ==> picks[j] <= n
    ensures n == 0 ==> r.Failure?
    ensures r.Failure? ==> r.error == OutOfPicks || (n == 0 && r.error == TypeError)
    ensures r.Success? ==> |r.value.0| == n && |r.value.1| == n
    ensures r.Success? ==> forall x: nat, y: nat :: x <= n && y <= n ==> Reachable(Und(r.value.1), x, y)
    ensures r.Success? ==> r.value.2 == TotalWeight(r.value.1)
    ensures r.Success? ==> |r.value.0| > 0
    ensures r.Success? ==>
      ((forall x: nat, y: nat :: x <= n && y <= n ==> Reachable(Und(r.value.0), x, y)) <==> !SelfLoop(r.value.0[0]))
  {
    var plan := PlanEdges(n, m, picks, false);
    if plan.Failure? {
      return Failure(plan.error);
    }
    if |weights| < |plan.value| {
      return Failure(OutOfPicks);
    }
    var g := Build(n, plan.value, weights);
    if n == 0 {
      OneVertex(plan.value, g.nodes, g.edges);
    } else {
      BuiltConnected(n, plan.value, g.nodes, g.edges);
    }
    var prim := g.Prim();
    if prim.Failure? {
      return Failure(prim.error);
    }
    // `prim` succeeding means a path was laid, so the graph is connected and
    // `kruskal` cannot throw.
    var kruskal := g.Kruskal();
    assert kruskal.Success?;
    assert Connected(g.nodes, prim.value) <==>
      forall x: nat, y: nat :: x <= n && y <= n ==> Reachable(Und(prim.value), x, y);
    return Success((prim.value, kruskal.value.0, kruskal.value.1));
  }
}
