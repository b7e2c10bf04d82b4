/** lab7/index.js, `dijkstra`/`_dijkstra`: the distance table, one relaxation
    round from a settled node, and the invariant that makes the settled
    weights least walk weights when no edge weight is negative. */
module Settling {
  import opened Common

  /** `getDijkstraEdges()`: source -> (target -> weight). */
  type Adj = map<nat, map<nat, int>>

  /** The `prev` field: `'Start'`, `undefined`, or the id it was relaxed from. */
  datatype Prev = Start | Unset | From(node: nat)

  datatype Entry = Entry(weight: Weight, prev: Prev)

  /** The `dist` object: node -> {weight, prev}. */
  type Dist = map<nat, Entry>

  predicate Step(adj: Adj, u: nat, v: nat)
  {
    u in adj && v in adj[u]
  }

  /** `edges[s]`, or nothing to iterate when s has no outgoing edge. */
  function Row(adj: Adj, s: nat): map<nat, int>
  {
    if s in adj then adj[s] else map[]
  }

  ghost predicate NonNegAdj(adj: Adj)
  {
    forall u, v :: Step(adj, u, v) ==> adj[u][v] >= 0
  }

  /** A walk follows edges of the adjacency map. */
  ghost predicate IsWalk(adj: Adj, p: seq<nat>)
  {
    |p| >= 1 && forall t :: 0 <= t < |p| - 1 ==> Step(adj, p[t], p[t + 1])
  }

  /** The summed weight of a walk. */
  function Cost(adj: Adj, p: seq<nat>): int
    decreases |p|
  {
    if |p| <= 1 then 0
    else
      var u, v := p[|p| - 2], p[|p| - 1];
      Cost(adj, p[..|p| - 1]) + (if Step(adj, u, v) then adj[u][v] else 0)
  }

  ghost predicate Reaches(adj: Adj, s: nat, x: nat)
  {
    exists p :: IsWalk(adj, p) && p[0] == s && p[|p| - 1] == x
  }

  ghost predicate WalkTo(adj: Adj, s: nat, x: nat, c: int)
  {
    exists p :: IsWalk(adj, p) && p[0] == s && p[|p| - 1] == x && Cost(adj, p) == c
  }

  /** c is the least weight of a walk from s to x. */
  ghost predicate Shortest(adj: Adj, s: nat, x: nat, c: int)
  {
    WalkTo(adj, s, x, c) &&
    forall p :: IsWalk(adj, p) && p[0] == s && p[|p| - 1] == x ==> c <= Cost(adj, p)
  }

  lemma Extend(adj: Adj, p: seq<nat>, v: nat)
    requires IsWalk(adj, p) && Step(adj, p[|p| - 1], v)
    ensures IsWalk(adj, p + [v])
    ensures Cost(adj, p + [v]) == Cost(adj, p) + adj[p[|p| - 1]][v]
  {
    assert (p + [v])[..|p|] == p;
  }

  lemma WalkToExtend(adj: Adj, s: nat, u: nat, v: nat, c: int)
    requires WalkTo(adj, s, u, c) && Step(adj, u, v)
    ensures WalkTo(adj, s, v, c + adj[u][v])
  {
    var p :| IsWalk(adj, p) && p[0] == s && p[|p| - 1] == u && Cost(adj, p) == c;
    Extend(adj, p, v);
    assert (p + [v])[0] == s;
  }

  /** Entry x after relaxing from s over `nbrs`: the detour through s, when
      x is an unsettled neighbour and the detour is lighter. */
  function RelaxedEntry(nbrs: map<nat, int>, s: nat, visited: seq<nat>, dist: Dist, x: nat): Entry
    requires s in dist && x in dist
  {
    if x in nbrs && x !in visited && Less(Add(dist[s].weight, Fin(nbrs[x])), dist[x].weight)
    then Entry(Add(dist[s].weight, Fin(nbrs[x])), From(s))
    else dist[x]
  }

  /** The table after one relaxation round from s over its neighbours `nbrs`,
      when s's own weight does not move during the round. */
  function Relaxed(nbrs: map<nat, int>, s: nat, visited: seq<nat>, dist: Dist): Dist
    requires s in dist
  {
    map x | x in dist :: RelaxedEntry(nbrs, s, visited, dist, x)
  }

  /** A table agreeing with `RelaxedEntry` on every key is the relaxed table. */
  lemma RelaxedByEntries(nbrs: map<nat, int>, s: nat, visited: seq<nat>, dist: Dist, cur: Dist)
    requires s in dist && forall x :: x in cur <==> x in dist
    requires forall x :: x in dist ==> cur[x] == RelaxedEntry(nbrs, s, visited, dist, x)
    ensures cur == Relaxed(nbrs, s, visited, dist)
  {
  }

  /** The part of the loop invariant of `_dijkstra` that holds for any
      weights. */
  ghost predicate Basic(nodes: seq<nat>, dist: Dist, visited: seq<nat>)
  {
    && (forall x :: x in dist <==> x in nodes)
    && NoDup(visited)
    && (forall x :: x in visited ==> x in nodes)
    && (forall x :: x in dist && dist[x].prev.Unset? ==> dist[x].weight.Inf?)
    && (forall x :: x in dist && dist[x].prev.Start? ==> x == nodes[0])
    && (|nodes| > 0 ==> LessEq(dist[nodes[0]].weight, Fin(0)))
    && (forall x :: x in visited ==> dist[x].weight.Fin?)
  }

  /** Settled nodes are no heavier than unsettled ones. */
  ghost predicate SettledFirst(dist: Dist, visited: seq<nat>)
  {
    forall a, b :: a in visited && a in dist && b in dist && b !in visited ==> LessEq(dist[a].weight, dist[b].weight)
  }

  /** Every edge out of a node of `from` is relaxed: its target is in the
      table and no heavier than the source plus the edge. */
  ghost predicate EdgesRelaxed(adj: Adj, dist: Dist, from: seq<nat>)
  {
    forall u, v :: u in from && u in dist && Step(adj, u, v) ==>
      v in dist && LessEq(dist[v].weight, Add(dist[u].weight, Fin(adj[u][v])))
  }

  /** Every finite weight is the weight of a walk from the first node. */
  ghost predicate TableSound(adj: Adj, nodes: seq<nat>, dist: Dist)
  {
    |nodes| > 0 ==> forall x :: x in dist && dist[x].weight.Fin? ==> WalkTo(adj, nodes[0], x, dist[x].weight.n)
  }

  /** Every `prev` names a settled node whose weight plus the edge gives the
      entry. */
  ghost predicate PrevSettled(adj: Adj, dist: Dist, visited: seq<nat>)
  {
    forall x :: x in dist && dist[x].prev.From? ==>
      var u := dist[x].prev.node;
      u in visited && u in dist && Step(adj, u, x) && dist[x].weight == Add(dist[u].weight, Fin(adj[u][x]))
  }

  /** The part of the invariant that needs non-negative weights. */
  ghost predicate Good(adj: Adj, nodes: seq<nat>, dist: Dist, visited: seq<nat>)
  {
    SettledFirst(dist, visited) && EdgesRelaxed(adj, dist, visited) && TableSound(adj, nodes, dist) && PrevSettled(adj, dist, visited)
  }

  ghost predicate Inv(adj: Adj, nodes: seq<nat>, dist: Dist, visited: seq<nat>)
  {
    Basic(nodes, dist, visited) && (NonNegAdj(adj) ==> Good(adj, nodes, dist, visited))
  }

  /** The table `dijkstra` starts from: the first node at weight 0 marked
      'Start', every other node at `Infinity` with no predecessor. */
  ghost predicate Initial(nodes: seq<nat>, dist: Dist)
  {
    && (forall x :: x in dist <==> x in nodes)
    && (|nodes| > 0 ==> dist[nodes[0]] == Entry(Fin(0), Start))
    && (forall x :: x in dist && x != nodes[0] ==> dist[x] == Entry(Inf, Unset))
  }

  lemma DijkstraInit(adj: Adj, nodes: seq<nat>, dist: Dist)
    requires Initial(nodes, dist)
    ensures Inv(adj, nodes, dist, [])
  {
    if NonNegAdj(adj) {
      forall x | x in dist && dist[x].weight.Fin?
        ensures WalkTo(adj, nodes[0], x, dist[x].weight.n)
      {
        var p := [x];
        assert IsWalk(adj, p) && Cost(adj, p) == 0;
      }
    }
  }

  /** One turn of the `while` loop: settling the lightest unsettled node s and
      relaxing its neighbours keeps the invariant. */
  lemma DijkstraStep(adj: Adj, nodes: seq<nat>, dist: Dist, visited: seq<nat>, s: nat, next: Dist)
    requires Inv(adj, nodes, dist, visited)
    requires s in dist && s !in visited && dist[s].weight.Fin?
    requires forall b :: b in dist && b !in visited ==> LessEq(dist[s].weight, dist[b].weight)
    requires forall x :: x in next <==> x in dist
    requires forall x :: x in visited ==> next[x] == dist[x]
    requires forall x :: x in dist ==> LessEq(next[x].weight, dist[x].weight)
    requires forall x :: x in dist && next[x] != dist[x] ==> next[x].prev == From(s)
    requires forall v :: v in Row(adj, s) && v !in visited ==> v in dist
    requires NonNegAdj(adj) ==> next == Relaxed(Row(adj, s), s, visited, dist)
    ensures Inv(adj, nodes, next, visited + [s])
  {
    var vis := visited + [s];
    NoDupAppend(visited, s);
    forall x | x in vis
      ensures next[x].weight.Fin?
    {
      if x == s {
        assert LessEq(next[s].weight, dist[s].weight);
      }
    }
    if |nodes| > 0 {
      LessEqTransitive(next[nodes[0]].weight, dist[nodes[0]].weight, Fin(0));
    }
    assert Basic(nodes, next, vis);
    if NonNegAdj(adj) {
      assert RoundFrom(adj, nodes, dist, visited, s, next);
      GoodStep(adj, nodes, dist, visited, s, next);
    }
  }

  /** The facts about one relaxation round that the four parts of `Good`
      rest on. */
  ghost predicate RoundFrom(adj: Adj, nodes: seq<nat>, dist: Dist, visited: seq<nat>, s: nat, next: Dist)
  {
    && Basic(nodes, dist, visited) && NonNegAdj(adj)
    && s in dist && s !in visited && dist[s].weight.Fin?
    && (forall b :: b in dist && b !in visited ==> LessEq(dist[s].weight, dist[b].weight))
    && (forall v :: v in Row(adj, s) && v !in visited ==> v in dist)
    && next == Relaxed(Row(adj, s), s, visited, dist)
    && Basic(nodes, next, visited + [s])
  }

  lemma GoodStep(adj: Adj, nodes: seq<nat>, dist: Dist, visited: seq<nat>, s: nat, next: Dist)
    requires RoundFrom(adj, nodes, dist, visited, s, next) && Good(adj, nodes, dist, visited)
    ensures Good(adj, nodes, next, visited + [s])
  {
    RowNonNeg(adj, s);
    SettledStep(Row(adj, s), s, visited, dist);
    RelaxedNew(adj, nodes, dist, visited, s, next);
    RelaxedOld(adj, nodes, dist, visited, s, next);
    RelaxedJoin(adj, next, visited, [s]);
    SoundStep(adj, nodes, dist, visited, s, next);
    PrevStep(adj, nodes, dist, visited, s, next);
  }

  lemma PrevStep(adj: Adj, nodes: seq<nat>, dist: Dist, visited: seq<nat>, s: nat, next: Dist)
    requires RoundFrom(adj, nodes, dist, visited, s, next) && Good(adj, nodes, dist, visited)
    ensures PrevSettled(adj, next, visited + [s])
  {
    assert next[s] == dist[s];
    forall x | x in next && next[x].prev.From?
      ensures var u := next[x].prev.node;
        u in visited + [s] && u in next && Step(adj, u, x) && next[x].weight == Add(next[u].weight, Fin(adj[u][x]))
    {
      if next[x] == dist[x] {
        assert next[dist[x].prev.node] == dist[dist[x].prev.node];
      }
    }
  }

  /** Settling the lightest unsettled node s keeps settled nodes first. */
  lemma SettledStep(nbrs: map<nat, int>, s: nat, visited: seq<nat>, dist: Dist)
    requires s in dist && s !in visited && forall v :: v in nbrs ==> nbrs[v] >= 0
    requires forall b :: b in dist && b !in visited ==> LessEq(dist[s].weight, dist[b].weight)
    requires SettledFirst(dist, visited)
    ensures SettledFirst(Relaxed(nbrs, s, visited, dist), visited + [s])
  {
    var next := Relaxed(nbrs, s, visited, dist);
    var ws := dist[s].weight;
    assert next[s] == dist[s];
    RelaxedNoLighter(nbrs, s, visited, dist);
    forall a, b | a in visited + [s] && a in next && b in next && b !in visited + [s]
      ensures LessEq(next[a].weight, next[b].weight)
    {
      if a != s {
        LessEqTransitive(dist[a].weight, ws, next[b].weight);
      }
    }
  }

  lemma RowNonNeg(adj: Adj, s: nat)
    requires NonNegAdj(adj)
    ensures forall v :: v in Row(adj, s) ==> Row(adj, s)[v] >= 0
  {
    forall v | v in Row(adj, s)
      ensures Row(adj, s)[v] >= 0
    {
      assert Step(adj, s, v);
    }
  }

  /** With non-negative edges out of s, relaxing from the lightest unsettled
      node s leaves no unsettled node lighter than s. */
  lemma RelaxedNoLighter(nbrs: map<nat, int>, s: nat, visited: seq<nat>, dist: Dist)
    requires s in dist && forall v :: v in nbrs ==> nbrs[v] >= 0
    requires forall b :: b in dist && b !in visited ==> LessEq(dist[s].weight, dist[b].weight)
    ensures forall b :: b in dist && b !in visited ==> LessEq(dist[s].weight, Relaxed(nbrs, s, visited, dist)[b].weight)
  {
  }

  /** Edges out of the newly settled node are relaxed by the round. */
  lemma RelaxedNew(adj: Adj, nodes: seq<nat>, dist: Dist, visited: seq<nat>, s: nat, next: Dist)
    requires RoundFrom(adj, nodes, dist, visited, s, next) && Good(adj, nodes, dist, visited)
    ensures EdgesRelaxed(adj, next, [s])
  {
    var ws := dist[s].weight;
    assert next[s] == dist[s];
    assert s in adj ==> Row(adj, s) == adj[s];
    forall v | Step(adj, s, v) && v in visited
      ensures LessEq(next[v].weight, Add(next[s].weight, Fin(adj[s][v])))
    {
      LessEqTransitive(dist[v].weight, ws, Add(ws, Fin(adj[s][v])));
    }
  }

  /** Edges out of nodes settled before stay relaxed: only their targets'
      weights can drop. */
  lemma RelaxedOld(adj: Adj, nodes: seq<nat>, dist: Dist, visited: seq<nat>, s: nat, next: Dist)
    requires RoundFrom(adj, nodes, dist, visited, s, next) && Good(adj, nodes, dist, visited)
    ensures EdgesRelaxed(adj, next, visited)
  {
    forall u, v | u in visited && u in next && Step(adj, u, v)
      ensures v in next && LessEq(next[v].weight, Add(next[u].weight, Fin(adj[u][v])))
    {
      assert next[u] == dist[u];
      LessEqTransitive(next[v].weight, dist[v].weight, Add(dist[u].weight, Fin(adj[u][v])));
    }
  }

  lemma RelaxedJoin(adj: Adj, dist: Dist, a: seq<nat>, b: seq<nat>)
    requires EdgesRelaxed(adj, dist, a) && EdgesRelaxed(adj, dist, b)
    ensures EdgesRelaxed(adj, dist, a + b)
  {
  }

  lemma SoundStep(adj: Adj, nodes: seq<nat>, dist: Dist, visited: seq<nat>, s: nat, next: Dist)
    requires RoundFrom(adj, nodes, dist, visited, s, next) && Good(adj, nodes, dist, visited)
    ensures TableSound(adj, nodes, next)
  {
    forall x | x in next && next[x].weight.Fin?
      ensures WalkTo(adj, nodes[0], x, next[x].weight.n)
    {
      if next[x] != dist[x] {
        assert Step(adj, s, x);
        WalkToExtend(adj, nodes[0], s, x, dist[s].weight.n);
      }
    }
  }

  /** A walk that starts settled and ends unsettled crosses from a settled
      node to an unsettled one somewhere. */
  lemma {:induction false} Crossing(adj: Adj, p: seq<nat>, visited: seq<nat>) returns (t: nat)
    requires IsWalk(adj, p) && p[0] in visited && p[|p| - 1] !in visited
    ensures t < |p| - 1 && p[t] in visited && p[t + 1] !in visited && Step(adj, p[t], p[t + 1])
  {
    if p[|p| - 2] in visited {
      t := |p| - 2;
    } else {
      var q := p[..|p| - 1];
      assert IsWalk(adj, q);
      t := Crossing(adj, q, visited);
    }
  }

  /** Every walk from the start node weighs at least what the table says,
      once every node is settled. */
  lemma {:induction false} LowerBound(adj: Adj, nodes: seq<nat>, dist: Dist, visited: seq<nat>, p: seq<nat>)
    requires Basic(nodes, dist, visited) && NonNegAdj(adj) && Good(adj, nodes, dist, visited)
    requires forall x :: x in nodes ==> x in visited
    requires IsWalk(adj, p) && |nodes| > 0 && p[0] == nodes[0]
    ensures p[|p| - 1] in dist && LessEq(dist[p[|p| - 1]].weight, Fin(Cost(adj, p)))
  {
    if |p| > 1 {
      var q := p[..|p| - 1];
      assert IsWalk(adj, q);
      LowerBound(adj, nodes, dist, visited, q);
      var u, v := p[|p| - 2], p[|p| - 1];
      assert Step(adj, u, v);
      AddMonotone(dist[u].weight, Fin(adj[u][v]), Fin(Cost(adj, q)), Fin(adj[u][v]));
      LessEqTransitive(dist[v].weight, Add(dist[u].weight, Fin(adj[u][v])), Fin(Cost(adj, p)));
    }
  }

  /** When the loop ends with every node settled and no weight is negative,
      each entry is the least walk weight from the first node, and each
      node but the first names the neighbour its least walk comes through. */
  lemma DijkstraDone(adj: Adj, nodes: seq<nat>, dist: Dist, visited: seq<nat>)
    requires Inv(adj, nodes, dist, visited) && NoDup(nodes) && |visited| == |nodes|
    requires NonNegAdj(adj)
    ensures forall x :: x in nodes ==> dist[x].weight.Fin? && Shortest(adj, nodes[0], x, dist[x].weight.n)
    ensures forall x :: x in nodes && x != nodes[0] ==>
      dist[x].prev.From? && dist[x].prev.node in nodes && Step(adj, dist[x].prev.node, x) &&
      dist[x].weight == Add(dist[dist[x].prev.node].weight, Fin(adj[dist[x].prev.node][x]))
  {
    SubsetCardinality(visited, nodes);
    forall x | x in nodes
      ensures dist[x].weight.Fin? && Shortest(adj, nodes[0], x, dist[x].weight.n)
    {
      forall p | IsWalk(adj, p) && p[0] == nodes[0] && p[|p| - 1] == x
        ensures dist[x].weight.n <= Cost(adj, p)
      {
        LowerBound(adj, nodes, dist, visited, p);
      }
    }
  }

  /** When the selector finds no finite unsettled node, some node cannot be
      reached from the first one. */
  lemma DijkstraStuck(adj: Adj, nodes: seq<nat>, dist: Dist, visited: seq<nat>)
    requires Inv(adj, nodes, dist, visited) && NoDup(nodes) && |visited| < |nodes|
    requires forall x :: x in dist && x !in visited ==> dist[x].weight.Inf?
    requires NonNegAdj(adj)
    ensures exists y :: y in nodes && !Reaches(adj, nodes[0], y)
  {
    var y := Unsettled(nodes, visited);
    if Reaches(adj, nodes[0], y) {
      var p :| IsWalk(adj, p) && p[0] == nodes[0] && p[|p| - 1] == y;
      var t := Crossing(adj, p, visited);
      assert false;
    }
  }

  lemma Unsettled(nodes: seq<nat>, visited: seq<nat>) returns (y: nat)
    requires NoDup(nodes) && NoDup(visited) && |visited| < |nodes|
    ensures y in nodes && y !in visited
  {
    if forall x :: x in nodes ==> x in visited {
      SubsetCardinality(nodes, visited);
      assert false;
    }
    y :| y in nodes && y !in visited;
  }
}
