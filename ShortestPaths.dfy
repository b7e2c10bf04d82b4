/** lab7/index.js: the `Graph` with its node and edge lists, Floyd–Warshall
    over a matrix it fills from the edges, and Dijkstra over the nested map of
    the edges; `makeGraph` builds one graph per algorithm and runs both. */
module ShortestPaths {
  import opened Common
  import opened Relaxation
  import opened Network
  import opened Settling
  import opened Builder

  /** The matrix entries equal, read as numbers, the cells of M. */
  ghost predicate Holds(d: array2<Option<Weight>>, M: Matrix, n: nat)
    reads d
  {
    d.Length0 == n && d.Length1 == n && Square(M, n) &&
    forall a, b :: 0 <= a < n && 0 <= b < n ==> Val(d[a, b]) == M[a][b]
  }

  /** The body of the innermost loop of `_floyd`: cell (i, j) against pivot
      k. The cell and the two it reads turn from `undefined` into `Infinity`
      first, which leaves their values as numbers unchanged. */
  method FloydCell(d: array2<Option<Weight>>, n: nat, k: nat, i: nat, j: nat, ghost M: Matrix)
    requires k < n && i < n && j < n && Holds(d, M, n)
    modifies d
    ensures Holds(d, Update(M, n, k, i, j), n)
    ensures forall a, b :: 0 <= a < n && 0 <= b < n ==>
      (d[a, b].Some? <==> (a == i && b == j) || (a == i && b == k) || (a == k && b == j) || old(d[a, b].Some?))
  {
    if d[i, j].None? {
      d[i, j] := Some(Inf);
    }
    if d[i, k].None? {
      d[i, k] := Some(Inf);
    }
    if d[k, j].None? {
      d[k, j] := Some(Inf);
    }
    var via := Add(d[i, k].value, d[k, j].value);
    if Less(via, d[i, j].value) {
      d[i, j] := Some(via);
    }
  }

  /** The innermost loop of `_floyd`: row i against pivot k. */
  method FloydRow(d: array2<Option<Weight>>, n: nat, k: nat, i: nat, ghost M: Matrix)
    requires k < n && i < n && Holds(d, M, n)
    modifies d
    ensures Holds(d, RowPass(M, n, k, i, n), n)
    ensures forall a, b :: 0 <= a < n && 0 <= b < n ==>
      (d[a, b].Some? <==> a == i || a == k || old(d[a, b].Some?))
  {
    for j := 0 to n
      invariant Holds(d, RowPass(M, n, k, i, j), n)
      invariant forall a, b :: 0 <= a < n && 0 <= b < n ==>
        (d[a, b].Some? <==> ((a == i || a == k) && b < j) || (j > 0 && a == i && b == k) || old(d[a, b].Some?))
    {
      FloydCell(d, n, k, i, j, RowPass(M, n, k, i, j));
    }
  }

  /** The middle loop of `_floyd`: every row against pivot k. */
  method FloydRound(d: array2<Option<Weight>>, n: nat, k: nat, ghost M: Matrix)
    requires k < n && Holds(d, M, n)
    modifies d
    ensures Holds(d, RoundPass(M, n, k, n), n)
    ensures forall a, b :: 0 <= a < n && 0 <= b < n ==> d[a, b].Some?
  {
    for i := 0 to n
      invariant Holds(d, RoundPass(M, n, k, i), n)
      invariant forall a, b :: 0 <= a < n && 0 <= b < n ==>
        (d[a, b].Some? <==> a < i || (i > 0 && a == k) || old(d[a, b].Some?))
    {
      FloydRow(d, n, k, i, RoundPass(M, n, k, i));
    }
  }

  /** Some least element of a non-empty set of ids. */
  lemma {:induction false} HasMin(s: set<nat>) returns (m: nat)
    requires s != {}
    ensures m in s && forall y :: y in s ==> m <= y
  {
    var x :| x in s;
    if s == {x} {
      m := x;
    } else {
      var m' := HasMin(s - {x});
      m := if x < m' then x else m';
      forall y | y in s
        ensures m <= y
      {
        if y != x {
          assert y in s - {x};
        }
      }
    }
  }

  /** The order `for..in` visits an object's keys in: integer-like keys come
      in ascending numeric order. */
  method Ascending(s: set<nat>) returns (r: seq<nat>)
    ensures forall x :: x in r <==> x in s
    ensures forall a, b :: 0 <= a < b < |r| ==> r[a] < r[b]
  {
    r := [];
    var rest := s;
    while rest != {}
      invariant forall x :: x in s <==> x in r || x in rest
      invariant forall a, x :: 0 <= a < |r| && x in rest ==> r[a] < x
      invariant forall a, b :: 0 <= a < b < |r| ==> r[a] < r[b]
      decreases rest
    {
      ghost var least := HasMin(rest);
      var x :| x in rest && forall y :: y in rest ==> x <= y;
      r := r + [x];
      rest := rest - {x};
    }
  }

  /** The `for (let node in smallestNodeNeighbours)` loop of `_dijkstra`:
      every unsettled neighbour whose weight the detour through s lowers
      takes that weight with s as `prev`. A neighbour missing from the table
      throws on `dist[node].weight`. */
  method RelaxNeighbours(nbrs: map<nat, int>, s: nat, visited: seq<nat>, dist: Dist) returns (r: Result<Dist>)
    requires s in dist
    ensures r.Failure? <==> exists v :: v in nbrs && v !in visited && v !in dist
    ensures r.Failure? ==> r.error == TypeError
    ensures r.Success? ==> forall x :: x in r.value <==> x in dist
    ensures r.Success? ==> forall x :: x in visited && x in dist ==> r.value[x] == dist[x]
    ensures r.Success? ==> forall x :: x in dist ==> LessEq(r.value[x].weight, dist[x].weight)
    ensures r.Success? ==> forall x :: x in dist && r.value[x] != dist[x] ==>
      r.value[x].prev == From(s) && x in nbrs && x !in visited
    ensures r.Success? && (s in nbrs ==> nbrs[s] >= 0) ==> r.value == Relaxed(nbrs, s, visited, dist)
  {
    var order := Ascending(nbrs.Keys);
    var cur := dist;
    ghost var selfOk := s in nbrs ==> nbrs[s] >= 0;
    for t := 0 to |order|
      invariant forall x :: x in cur <==> x in dist
      invariant forall a :: 0 <= a < t ==> order[a] in visited || order[a] in dist
      invariant forall x :: x in visited && x in dist ==> cur[x] == dist[x]
      invariant forall x :: x in dist ==> LessEq(cur[x].weight, dist[x].weight)
      invariant forall x :: x in dist && cur[x] != dist[x] ==> cur[x].prev == From(s) && x in order[..t] && x !in visited
      invariant selfOk ==> cur[s] == dist[s]
      invariant selfOk ==> forall x :: x in dist && x in order[..t] ==> cur[x] == RelaxedEntry(nbrs, s, visited, dist, x)
    {
      var v := order[t];
      assert v !in order[..t];
      if v !in visited {
        if v !in cur {
          return Failure(TypeError);
        }
        var sum := Add(cur[s].weight, Fin(nbrs[v]));
        if Less(sum, cur[v].weight) {
          cur := cur[v := Entry(sum, From(s))];
        }
      }
    }
    assert order[..|order|] == order;
    if selfOk {
      RelaxedByEntries(nbrs, s, visited, dist, cur);
    }
    return Success(cur);
  }

  class Graph {
    var nodes: seq<nat>
    var edges: seq<Edge>

    /** `addNode` keeps the node list free of repeats. */
    ghost predicate Valid()
      reads this
    {
      NoDup(nodes)
    }

    constructor()
      ensures Valid() && nodes == [] && edges == []
    {
      nodes := [];
      edges := [];
    }

    /** `addNode`: push the id unless it is already there. */
    method AddNode(node: nat)
      requires Valid()
      modifies this
      ensures Valid()
      ensures nodes == AppendIfAbsent(old(nodes), node) && edges == old(edges)
    {
      nodes := AppendIfAbsent(nodes, node);
    }

    /** `addEdge`: append, repeats included. */
    method AddEdge(e: Edge)
      modifies this
      ensures edges == old(edges) + [e] && nodes == old(nodes)
    {
      edges := edges + [e];
    }

    /** The first half of `floyd`: an n-by-n matrix of `undefined`, then each
        edge's weight at (v1, v2) and zero at (t, t) for edge t < n. An edge
        leaving a node id n or above reads a missing row and throws. */
    method FloydTable() returns (r: Result<array2<Option<Weight>>>)
      ensures r.Failure? <==> exists t :: 0 <= t < |edges| && edges[t].v1 >= |nodes|
      ensures r.Failure? ==> r.error == TypeError
      ensures r.Success? ==> fresh(r.value) && Holds(r.value, StartMatrix(edges, |nodes|), |nodes|)
    {
      var n := |nodes|;
      var d := new Option<Weight>[n, n]((a, b) => None);
      for t := 0 to |edges|
        invariant forall u :: 0 <= u < t ==> edges[u].v1 < n
        invariant forall a, b :: 0 <= a < n && 0 <= b < n ==> d[a, b] == Setup(edges[..t], n, a, b)
      {
        var e := edges[t];
        if e.v1 >= n {
          return Failure(TypeError);
        }
        if e.v2 < n {
          d[e.v1, e.v2] := Some(Fin(e.w));
        }
        if t < n {
          d[t, t] := Some(Fin(0));
        }
        assert edges[..t + 1][..t] == edges[..t];
      }
      assert edges[..|edges|] == edges;
      return Success(d);
    }

    /** `_floyd`: the three nested loops, pivot outermost. */
    method RelaxAll(d: array2<Option<Weight>>, ghost M: Matrix)
      requires Holds(d, M, |nodes|)
      modifies d
      ensures Holds(d, FloydPass(M, |nodes|, |nodes|), |nodes|)
      ensures forall a, b :: 0 <= a < |nodes| && 0 <= b < |nodes| ==> d[a, b].Some?
    {
      var n := |nodes|;
      for k := 0 to n
        invariant Holds(d, FloydPass(M, n, k), n)
        invariant k > 0 ==> forall a, b :: 0 <= a < n && 0 <= b < n ==> d[a, b].Some?
      {
        FloydRound(d, n, k, FloydPass(M, n, k));
      }
    }

    /** `floyd`: the matrix it leaves behind holds, in every cell, the
        Floyd–Warshall passes over the starting matrix; with non-negative
        weights these are least walk weights (`Relaxation.FloydShortest`). */
    method Floyd() returns (r: Result<array2<Option<Weight>>>)
      ensures r.Failure? <==> exists t :: 0 <= t < |edges| && edges[t].v1 >= |nodes|
      ensures r.Failure? ==> r.error == TypeError
      ensures r.Success? ==> fresh(r.value) && Holds(r.value, FloydPass(StartMatrix(edges, |nodes|), |nodes|, |nodes|), |nodes|)
      ensures r.Success? ==> forall a, b :: 0 <= a < |nodes| && 0 <= b < |nodes| ==> r.value[a, b].Some?
    {
      r := FloydTable();
      if r.Success? {
        RelaxAll(r.value, StartMatrix(edges, |nodes|));
      }
    }
    /** `getDijkstraEdges`: `res[v1][v2] = w` edge by edge, the inner object
        created on a source's first edge. */
    method GetDijkstraEdges() returns (res: Adj)
      ensures res == Adjacency(edges)
    {
      res := map[];
      for t := 0 to |edges|
        invariant res == Adjacency(edges[..t])
      {
        var e := edges[t];
        if e.v1 !in res {
          var empty: map<nat, int> := map[];
          res := res[e.v1 := empty];
        }
        var row: map<nat, int> := res[e.v1];
        res := res[e.v1 := row[e.v2 := e.w]];
        assert edges[..t + 1][..t] == edges[..t];
      }
      assert edges[..|edges|] == edges;
    }

    /** The `forEach` of `dijkstra`: the first node at weight 0 marked
        'Start', every other node at `Infinity` with no predecessor. */
    method InitialDistances() returns (dist: Dist)
      requires Valid()
      ensures Initial(nodes, dist)
    {
      dist := map[];
      for t := 0 to |nodes|
        invariant forall x :: x in dist <==> x in nodes[..t]
        invariant t > 0 ==> dist[nodes[0]] == Entry(Fin(0), Start)
        invariant forall x :: x in dist && x != nodes[0] ==> dist[x] == Entry(Inf, Unset)
      {
        if t == 0 {
          dist := dist[nodes[t] := Entry(Fin(0), Start)];
        } else {
          dist := dist[nodes[t] := Entry(Inf, Unset)];
        }
      }
      assert nodes[..|nodes|] == nodes;
    }

    /** `smallestWeightNode`: over the table's keys in ascending order, the
        first unsettled node whose weight is strictly below the best so far.
        The result is the lightest unsettled node with a finite weight, the
        smallest id among equally light ones; with none, it throws. */
    method SmallestWeightNode(dist: Dist, visited: seq<nat>) returns (r: Result<nat>)
      ensures r.Failure? <==> forall x :: x in dist && x !in visited ==> dist[x].weight.Inf?
      ensures r.Failure? ==> r.error == NoSmallestNode
      ensures r.Success? ==> r.value in dist && r.value !in visited && dist[r.value].weight.Fin?
      ensures r.Success? ==> forall x :: x in dist && x !in visited ==> LessEq(dist[r.value].weight, dist[x].weight)
      ensures r.Success? ==> forall x :: x in dist && x !in visited && LessEq(dist[x].weight, dist[r.value].weight) ==> r.value <= x
    {
      var order := Ascending(dist.Keys);
      var res: Option<nat> := None;
      var weight := Inf;
      for t := 0 to |order|
        invariant res.None? <==> weight.Inf?
        invariant res.None? ==> forall a :: 0 <= a < t && order[a] !in visited ==> dist[order[a]].weight.Inf?
        invariant res.Some? ==> res.value in order[..t] && res.value !in visited && dist[res.value].weight == weight
        invariant forall a :: 0 <= a < t && order[a] !in visited ==> LessEq(weight, dist[order[a]].weight)
        invariant res.Some? ==> forall a :: 0 <= a < t && order[a] !in visited && LessEq(dist[order[a]].weight, weight) ==> res.value <= order[a]
      {
        var d := order[t];
        if d !in visited {
          var w := dist[d].weight;
          if Less(w, weight) {
            weight := w;
            res := Some(d);
          }
        }
      }
      if res.None? {
        return Failure(NoSmallestNode);
      }
      return Success(res.value);
    }

    /** `dijkstra` and `_dijkstra`: settle the lightest unsettled node and
        relax its neighbours until every node is settled. With no negative
        weight, success leaves each node's least walk weight from the first
        node and the neighbour that walk arrives through, and the selector
        throws only when some node is out of reach. */
    method Dijkstra() returns (r: Result<Dist>)
      requires Valid()
      ensures r.Failure? ==> r.error == NoSmallestNode || r.error == TypeError
      ensures r == Failure(TypeError) ==> exists t :: 0 <= t < |edges| && edges[t].v2 !in nodes
      ensures r.Success? ==> forall x :: x in r.value <==> x in nodes
      ensures NonNegWeights(edges) && r.Success? ==> forall x :: x in nodes ==>
        r.value[x].weight.Fin? && Shortest(Adjacency(edges), nodes[0], x, r.value[x].weight.n)
      ensures NonNegWeights(edges) && r.Success? ==> forall x :: x in nodes && x != nodes[0] ==>
        r.value[x].prev.From? &&
        var u := r.value[x].prev.node;
        u in nodes && Step(Adjacency(edges), u, x) &&
        r.value[x].weight == Add(r.value[u].weight, Fin(Adjacency(edges)[u][x]))
      ensures NonNegWeights(edges) && r == Failure(NoSmallestNode) ==>
        exists y :: y in nodes && !Reaches(Adjacency(edges), nodes[0], y)
    {
      var adj := GetDijkstraEdges();
      var dist := InitialDistances();
      ghost var nn := NonNegWeights(edges);
      if nn {
        AdjacencyNonNeg(edges);
      }
      DijkstraInit(adj, nodes, dist);
      var visited: seq<nat> := [];
      while |visited| != |nodes|
        invariant Inv(adj, nodes, dist, visited)
        invariant |visited| <= |nodes|
        decreases |nodes| - |visited|
      {
        var pick := SmallestWeightNode(dist, visited);
        if pick.Failure? {
          if nn {
            DijkstraStuck(adj, nodes, dist, visited);
          }
          return Failure(NoSmallestNode);
        }
        var s := pick.value;
        var round := RelaxNeighbours(Row(adj, s), s, visited, dist);
        if round.Failure? {
          var v :| v in Row(adj, s) && v !in visited && v !in dist;
          AdjacencyHas(edges, s, v);
          return Failure(TypeError);
        }
        DijkstraStep(adj, nodes, dist, visited, s, round.value);
        dist := round.value;
        visited := visited + [s];
        SubsetCardinality(visited, nodes);
      }
      if nn {
        DijkstraDone(adj, nodes, dist, visited);
      }
      return Success(dist);
    }
  }

  /** The walk i, i+1, ..., j along the laid path has a finite weight when
      every step does. */
  lemma {:induction false} PathWalk(M: Matrix, n: nat, i: nat, j: nat) returns (p: seq<nat>)
    requires Square(M, n) && i < j < n
    requires forall a :: i <= a < j ==> M[a][a + 1].Fin?
    ensures Relaxation.IsWalk(p, n) && p[0] == i && p[|p| - 1] == j && WalkCost(M, n, p).Fin?
  {
    if j == i + 1 {
      p := [i, j];
      assert p[..1] == [i];
    } else {
      var q := PathWalk(M, n, i, j - 1);
      p := q + [j];
      assert p[..|p| - 1] == q;
    }
  }

  /** Along the laid path every vertex `0..n` is reachable from vertex 0 in
      the adjacency map. */
  lemma PathReaches(edges: seq<Edge>, n: nat, y: nat)
    requires n <= |edges| && forall i :: 0 <= i < n ==> Joins(edges[i], i, i + 1)
    requires y <= n
    ensures Reaches(Adjacency(edges), 0, y)
  {
    var adj := Adjacency(edges);
    var p := seq(y + 1, i => i);
    forall t | 0 <= t < |p| - 1
      ensures Step(adj, p[t], p[t + 1])
    {
      AdjacencyKeeps(edges, t);
    }
    assert Settling.IsWalk(adj, p) && p[0] == 0 && p[|p| - 1] == y;
  }

  /** `makeGraph` of lab7: nodes `0..n` in both graphs, the planned edges with
      two draws of `randomNumber` per edge (the Dijkstra graph's first), then
      `floyd` and `dijkstra`. Apart from the undeclared-variable slip on an
      empty edge list, neither algorithm can throw: every id is a node, and
      the path reaches every node from node 0, so every entry above the
      diagonal of Floyd's matrix and every Dijkstra weight is finite. */
  method MakeGraph(n: nat, m: nat, picks: seq<nat>, weights: seq<int>)
    returns (r: Result<(array2<Option<Weight>>, Dist)>)
    requires forall j :: 0 <= j < |picks| ==> picks[j] <= n
    requires forall j :: 0 <= j < |weights| ==> 10 <= weights[j] < 100000
    ensures r.Failure? ==> r.error == OutOfPicks || r.error == ReferenceError
    ensures r == Failure(ReferenceError) <==> n == 0 && m > 0 && |picks| >= 2
    ensures r.Success? ==> r.value.0.Length0 == n + 1 && r.value.0.Length1 == n + 1
    ensures r.Success? ==> forall i, j :: 0 <= i < j <= n ==> r.value.0[i, j].Some? && r.value.0[i, j].value.Fin?
    ensures r.Success? ==> forall x: nat :: x in r.value.1 <==> x <= n
    ensures r.Success? ==> forall x :: x in r.value.1 ==> r.value.1[x].weight.Fin?
  {
    var plan := PlanEdges(n, m, picks, true);
    if plan.Failure? {
      return Failure(plan.error);
    }
    var es := plan.value;
    if |weights| < 2 * |es| {
      return Failure(OutOfPicks);
    }
    var gD, gF := TwoGraphs(n, es, weights);
    ghost var nodes := gD.nodes;
    var floyd := gF.Floyd();
    // Every edge leaves a vertex of `0..n`, so no row is missing.
    assert floyd.Success?;
    FloydAbovePath(gF.edges, n, floyd.value);
    var dijkstra := gD.Dijkstra();
    forall y | y in nodes
      ensures Reaches(Adjacency(gD.edges), nodes[0], y)
    {
      PathReaches(gD.edges, n, y);
    }
    // No edge leaves the nodes and the path reaches them all, so the
    // selector always finds a node.
    assert dijkstra.Success?;
    return Success((floyd.value, dijkstra.value));
  }

  /** The two graphs of `makeGraph` before the algorithms run: nodes `0..n`
      added in order, then each planned edge with its two weights. */
  method TwoGraphs(n: nat, es: seq<Pair>, weights: seq<int>) returns (gD: Graph, gF: Graph)
    requires |weights| >= 2 * |es|
    ensures fresh(gD) && fresh(gF) && gD != gF && gD.Valid() && gF.Valid()
    ensures gD.nodes == gF.nodes && |gD.nodes| == n + 1 && gD.nodes[0] == 0
    ensures forall x: nat :: x in gD.nodes <==> x <= n
    ensures |gD.edges| == |es| == |gF.edges|
    ensures forall q :: 0 <= q < |es| ==>
      gD.edges[q] == Edge(es[q].0, es[q].1, weights[2 * q]) &&
      gF.edges[q] == Edge(es[q].0, es[q].1, weights[2 * q + 1])
  {
    gD := new Graph();
    gF := new Graph();
    for i := 0 to n + 1
      invariant gD.Valid() && gF.Valid() && gD.edges == [] && gF.edges == []
      invariant |gD.nodes| == i && forall k :: 0 <= k < i ==> gD.nodes[k] == k
      invariant gF.nodes == gD.nodes
    {
      gD.AddNode(i);
      gF.AddNode(i);
    }
    ghost var nodes := gD.nodes;
    forall y: nat | y <= n
      ensures y in nodes
    {
      assert nodes[y] == y;
    }
    assert forall x :: x in nodes ==> x <= n;
    for k := 0 to |es|
      invariant gD.nodes == nodes && gF.nodes == nodes && gD.Valid() && gF.Valid()
      invariant |gD.edges| == k && |gF.edges| == k
      invariant forall q :: 0 <= q < k ==>
        gD.edges[q] == Edge(es[q].0, es[q].1, weights[2 * q]) &&
        gF.edges[q] == Edge(es[q].0, es[q].1, weights[2 * q + 1])
    {
      gD.AddEdge(Edge(es[k].0, es[k].1, weights[2 * k]));
      gF.AddEdge(Edge(es[k].0, es[k].1, weights[2 * k + 1]));
    }
  }

  /** In the built Floyd graph, the entries above the diagonal are finite:
      the path i, i+1, ..., j bounds them. */
  lemma FloydAbovePath(edges: seq<Edge>, n: nat, d: array2<Option<Weight>>)
    requires n <= |edges| && forall i :: 0 <= i < n ==> Joins(edges[i], i, i + 1)
    requires NonNegWeights(edges)
    requires Holds(d, FloydPass(StartMatrix(edges, n + 1), n + 1, n + 1), n + 1)
    requires forall a, b :: 0 <= a <= n && 0 <= b <= n ==> d[a, b].Some?
    ensures forall i, j :: 0 <= i < j <= n ==> d[i, j].Some? && d[i, j].value.Fin?
  {
    var N := n + 1;
    var M0 := StartMatrix(edges, N);
    StartNonNeg(edges, N);
    forall i, j | 0 <= i < j <= n
      ensures d[i, j].value.Fin?
    {
      FloydShortest(M0, N, i, j);
      forall a | i <= a < j
        ensures M0[a][a + 1].Fin?
      {
        SetupSome(edges, N, a, a + 1, a);
      }
      var p := PathWalk(M0, N, i, j);
    }
  }
}
