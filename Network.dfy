/** lab7/index.js: the edge list and the two views the shortest-path
    algorithms take of it, the matrix `floyd` fills before relaxing and the
    nested map `getDijkstraEdges` builds. */
module Network {
  import opened Common
  import opened Relaxation
  import Settling

  /** `new Edge(v1, v2, w, floydFlag)`; the ids are numbers in both graphs of
      the model (the `parseInt` of the Floyd graph is the identity on them). */
  datatype Edge = Edge(v1: nat, v2: nat, w: int)

  /** An entry of the matrix as JavaScript holds it: `undefined` or a number;
      the relaxation reads `undefined` as `Infinity`. */
  function Val(o: Option<Weight>): Weight
  {
    if o.None? then Inf else o.value
  }

  predicate Joins(e: Edge, i: nat, j: nat)
  {
    e.v1 == i && e.v2 == j
  }

  /** Entry (i, j) of `dist` after the `forEach` over the edges in `floyd`,
      on an n-node graph: edge t writes its weight at (v1, v2) and then, when
      t < n, zero at (t, t). */
  function Setup(edges: seq<Edge>, n: nat, i: nat, j: nat): Option<Weight>
  {
    if edges == [] then None
    else
      var t := |edges| - 1;
      if t < n && i == t && j == t then Some(Fin(0))
      else if Joins(edges[t], i, j) then Some(Fin(edges[t].w))
      else Setup(edges[..t], n, i, j)
  }

  /** The last write to (i, j) wins: the weight of the last edge from i to j
      when no zeroing of the diagonal comes after it. */
  lemma {:induction false} SetupLast(edges: seq<Edge>, n: nat, i: nat, j: nat, t: nat)
    requires t < |edges| && Joins(edges[t], i, j) && !(t < n && i == t && j == t)
    requires forall u :: t < u < |edges| ==> !Joins(edges[u], i, j)
    requires !(i == j && t < i < n && i < |edges|)
    ensures Setup(edges, n, i, j) == Some(Fin(edges[t].w))
  {
    if t < |edges| - 1 {
      var s := edges[..|edges| - 1];
      assert forall u :: t < u < |s| ==> s[u] == edges[u];
      SetupLast(s, n, i, j, t);
    }
  }

  /** Diagonal entry d is zero when edge d exists and no self-loop on d comes
      later; a later self-loop overwrites it. */
  lemma {:induction false} SetupZero(edges: seq<Edge>, n: nat, d: nat)
    requires d < n && d < |edges|
    requires forall u :: d < u < |edges| ==> !Joins(edges[u], d, d)
    ensures Setup(edges, n, d, d) == Some(Fin(0))
  {
    if d < |edges| - 1 {
      var s := edges[..|edges| - 1];
      assert forall u :: d < u < |s| ==> s[u] == edges[u];
      SetupZero(s, n, d);
    }
  }

  /** With no edge from i to j and no zeroing at (i, j), the entry stays
      `undefined`. */
  lemma {:induction false} SetupNone(edges: seq<Edge>, n: nat, i: nat, j: nat)
    requires forall u :: 0 <= u < |edges| ==> !Joins(edges[u], i, j)
    requires !(i == j && i < n && i < |edges|)
    ensures Setup(edges, n, i, j) == None
  {
    if edges != [] {
      var s := edges[..|edges| - 1];
      assert forall u :: 0 <= u < |s| ==> s[u] == edges[u];
      SetupNone(s, n, i, j);
    }
  }

  /** Once an edge joins (i, j), the entry is a number from then on. */
  lemma {:induction false} SetupSome(edges: seq<Edge>, n: nat, i: nat, j: nat, t: nat)
    requires t < |edges| && Joins(edges[t], i, j)
    ensures Setup(edges, n, i, j).Some? && Setup(edges, n, i, j).value.Fin?
  {
    if t < |edges| - 1 {
      var s := edges[..|edges| - 1];
      assert s[t] == edges[t];
      SetupSome(s, n, i, j, t);
    }
  }

  predicate NonNegWeights(edges: seq<Edge>)
  {
    forall t :: 0 <= t < |edges| ==> edges[t].w >= 0
  }

  lemma {:induction false} SetupNonNeg(edges: seq<Edge>, n: nat, i: nat, j: nat)
    requires NonNegWeights(edges)
    ensures NonNegative(Val(Setup(edges, n, i, j)))
  {
    if edges != [] {
      var s := edges[..|edges| - 1];
      assert forall u :: 0 <= u < |s| ==> s[u] == edges[u];
      SetupNonNeg(s, n, i, j);
    }
  }

  /** The matrix `_floyd` starts from, `undefined` read as `Infinity`. */
  function StartMatrix(edges: seq<Edge>, n: nat): (M: Matrix)
    ensures Square(M, n)
  {
    seq(n, i requires 0 <= i < n => seq(n, j requires 0 <= j < n => Val(Setup(edges, n, i, j))))
  }

  /** Non-negative weights give a non-negative starting matrix, so the
      relaxation computes least walk weights. */
  lemma StartNonNeg(edges: seq<Edge>, n: nat)
    requires NonNegWeights(edges)
    ensures NonNeg(StartMatrix(edges, n), n)
  {
    var M := StartMatrix(edges, n);
    forall i, j | 0 <= i < n && 0 <= j < n
      ensures NonNegative(M[i][j])
    {
      SetupNonNeg(edges, n, i, j);
    }
  }

  /** The object `getDijkstraEdges` returns: `res[v1][v2] = w` for each edge
      in order. */
  function Adjacency(edges: seq<Edge>): map<nat, map<nat, int>>
  {
    if edges == [] then map[]
    else
      var m := Adjacency(edges[..|edges| - 1]);
      var e := edges[|edges| - 1];
      var row := if e.v1 in m then m[e.v1] else map[];
      m[e.v1 := row[e.v2 := e.w]]
  }

  /** A pair is in the map exactly when some edge joins it, a source exactly
      when some edge leaves it. */
  lemma {:induction false} AdjacencyHas(edges: seq<Edge>, u: nat, v: nat)
    ensures u in Adjacency(edges) <==> exists t :: 0 <= t < |edges| && edges[t].v1 == u
    ensures (u in Adjacency(edges) && v in Adjacency(edges)[u]) <==> exists t :: 0 <= t < |edges| && Joins(edges[t], u, v)
  {
    if edges != [] {
      var s := edges[..|edges| - 1];
      AdjacencyHas(s, u, v);
      assert forall t :: 0 <= t < |s| ==> s[t] == edges[t];
      if exists t :: 0 <= t < |edges| && edges[t].v1 == u {
        var t :| 0 <= t < |edges| && edges[t].v1 == u;
        if t < |s| {
          assert s[t].v1 == u;
        }
      }
      if exists t :: 0 <= t < |edges| && Joins(edges[t], u, v) {
        var t :| 0 <= t < |edges| && Joins(edges[t], u, v);
        if t < |s| {
          assert Joins(s[t], u, v);
        }
      }
    }
  }

  /** Every edge's ordered pair is in the map. */
  lemma {:induction false} AdjacencyKeeps(edges: seq<Edge>, t: nat)
    requires t < |edges|
    ensures edges[t].v1 in Adjacency(edges) && edges[t].v2 in Adjacency(edges)[edges[t].v1]
  {
    if t < |edges| - 1 {
      var s := edges[..|edges| - 1];
      assert s[t] == edges[t];
      AdjacencyKeeps(s, t);
    }
  }

  /** A later edge with the same ordered pair overwrites the weight: the
      stored weight is the last such edge's. */
  lemma {:induction false} AdjacencyLastWins(edges: seq<Edge>, u: nat, v: nat, t: nat)
    requires t < |edges| && Joins(edges[t], u, v)
    requires forall s :: t < s < |edges| ==> !Joins(edges[s], u, v)
    ensures u in Adjacency(edges) && v in Adjacency(edges)[u]
    ensures Adjacency(edges)[u][v] == edges[t].w
  {
    if t < |edges| - 1 {
      var s := edges[..|edges| - 1];
      assert forall k :: t < k < |s| ==> s[k] == edges[k];
      AdjacencyLastWins(s, u, v, t);
    }
  }

  /** Non-negative edge weights give a non-negative adjacency map. */
  lemma {:induction false} AdjacencyNonNeg(edges: seq<Edge>)
    requires NonNegWeights(edges)
    ensures Settling.NonNegAdj(Adjacency(edges))
  {
    if edges != [] {
      var s := edges[..|edges| - 1];
      assert forall u :: 0 <= u < |s| ==> s[u] == edges[u];
      AdjacencyNonNeg(s);
    }
  }
}
