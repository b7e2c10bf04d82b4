/** The edge list that every `makeGraph` (Lab4/lab4.js, Lab6/index.js,
    lab7/index.js) lays out before handing the edges to its graph: vertices
    `0..n`, the path `i -> i+1`, then extra ordered pairs drawn at random and
    kept only when absent. The random indices are an input sequence `picks`,
    consumed two at a time (`u`, then `v`). */
module Builder {
  import opened Common
  import opened Reach

  type Pair = (nat, nat)

  /** The `edgeExists(u, v)` scan. */
  method EdgeExists(edges: seq<Pair>, u: nat, v: nat) returns (b: bool)
    ensures b <==> (u, v) in edges
  {
    var i := 0;
    while i < |edges|
      invariant 0 <= i <= |edges|
      invariant (u, v) !in edges[..i]
    {
      if edges[i].0 == u && edges[i].1 == v {
        return true;
      }
      assert edges[..i + 1] == edges[..i] + [edges[i]];
      i := i + 1;
    }
    assert edges[..i] == edges;
    return false;
  }

  /** The path loop: one edge from each vertex to the next. */
  method LayPath(n: nat) returns (edges: seq<Pair>)
    ensures |edges| == n
    ensures forall i :: 0 <= i < n ==> edges[i] == (i, i + 1)
  {
    edges := [];
    var i := 0;
    while i < n
      invariant 0 <= i <= n
      invariant |edges| == i
      invariant forall k :: 0 <= k < i ==> edges[k] == (k, k + 1)
    {
      edges := edges + [(i, i + 1)];
      i := i + 1;
    }
  }

  /** Every endpoint is one of the vertices `0..n`. */
  predicate InRange(edges: seq<Pair>, n: nat)
  {
    forall k :: 0 <= k < |edges| ==> edges[k].0 <= n && edges[k].1 <= n
  }

  /** Every pair after the path is two consecutive picks. */
  predicate FromPicks(edges: seq<Pair>, n: nat, picks: seq<nat>)
  {
    forall k :: n <= k < |edges| ==>
      exists j :: 0 <= j < |picks| - 1 && edges[k] == (picks[j], picks[j + 1])
  }

  /** The edge list of `makeGraph(n, m)`. `typo` selects lab7's version, whose
      first branch (taken only while the list is empty, that is when n == 0)
      decrements the undeclared `nrOConnections` and throws a ReferenceError.
      Running out of picks stands for the random loop going on forever. */
  method PlanEdges(n: nat, m: nat, picks: seq<nat>, typo: bool) returns (r: Result<seq<Pair>>)
    requires forall j :: 0 <= j < |picks| ==> picks[j] <= n
    ensures r.Success? ==> |r.value| == n + m
    ensures r.Success? ==> forall i :: 0 <= i < n ==> r.value[i] == (i, i + 1)
    ensures r.Success? ==> NoDup(r.value) && InRange(r.value, n) && FromPicks(r.value, n, picks)
    ensures r.Failure? ==> r.error == OutOfPicks || r.error == ReferenceError
    ensures r == Failure(ReferenceError) <==> typo && n == 0 && m > 0 && |picks| >= 2
  {
    var edges := LayPath(n);
    assert NoDup(edges);
    var remaining := m;
    var p := 0;
    while remaining != 0
      invariant 0 <= p <= |picks|
      invariant remaining <= m && |edges| == n + (m - remaining)
      invariant forall i :: 0 <= i < n ==> edges[i] == (i, i + 1)
      invariant NoDup(edges) && InRange(edges, n) && FromPicks(edges, n, picks)
      invariant typo && n == 0 && remaining < m ==> false
      invariant n == 0 && remaining == m ==> p == 0
      decreases |picks| - p
    {
      if p + 2 > |picks| {
        return Failure(OutOfPicks);
      }
      var u, v := picks[p], picks[p + 1];
      p := p + 2;
      if |edges| == 0 {
        edges := edges + [(u, v)];
        if typo {
          return Failure(ReferenceError);
        }
        remaining := remaining - 1;
      } else {
        var present := EdgeExists(edges, u, v);
        if !present {
          edges := edges + [(u, v)];
          remaining := remaining - 1;
        }
      }
    }
    return Success(edges);
  }

  /** Because of the path, every vertex `0..n` is reachable from vertex 0 in
      any graph that holds the planned edges. */
  lemma {:induction false} PathReachesAll(g: Succ, n: nat, t: nat)
    requires forall i :: 0 <= i < n ==> i + 1 in Next(g, i)
    requires t <= n
    ensures Reachable(g, 0, t)
  {
    if t == 0 {
      ReachableSelf(g, 0);
    } else {
      PathReachesAll(g, n, t - 1);
      ReachableStep(g, 0, t - 1, t);
    }
  }

  /** Nothing outside `0..n` is reachable from a vertex in `0..n` when every
      edge stays in `0..n`. */
  lemma ReachableInRange(g: Succ, n: nat, s: nat, t: nat)
    requires forall x, y :: y in Next(g, x) ==> y <= n
    requires s <= n && Reachable(g, s, t)
    ensures t <= n
  {
    ClosedContainsReachable(g, UpTo(n), s, t);
  }

  /** The vertex ids `0..n` as a set. */
  ghost function UpTo(n: nat): (r: set<nat>)
    ensures forall x: nat :: x in r <==> x <= n
    ensures |r| == n + 1
  {
    if n == 0 then {0} else UpTo(n - 1) + {n}
  }
}
