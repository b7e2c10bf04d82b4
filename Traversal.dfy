/** Lab4/lab4.js: an adjacency-list graph with a recursive depth-first search
    into a shared visited set and a queue-based breadth-first search that marks
    a vertex when it is enqueued. Both searches are proved to visit exactly the
    vertices reachable from the start. */
module Traversal {
  import opened Common
  import opened Reach
  import opened Builder

  /** The vertices a BFS `visited` record marks true. */
  ghost function Marked(visited: map<nat, bool>): set<nat>
  {
    set x | x in visited && visited[x]
  }

  predicate IsMarked(visited: map<nat, bool>, x: nat)
  {
    x in visited && visited[x]
  }

  class Graph {
    var graph: map<nat, seq<nat>>
    var vertices: seq<nat>

    /** `vertices` lists each vertex once and names every endpoint of an edge. */
    ghost predicate Valid()
      reads this
    {
      NoDup(vertices) &&
      forall u :: u in graph ==> u in vertices && forall v :: v in graph[u] ==> v in vertices
    }

    /** `v` occurs in `u`'s adjacency list. */
    predicate HasEdge(u: nat, v: nat)
      reads this
    {
      u in graph && v in graph[u]
    }

    /** The adjacency lists read as successor sets. */
    function Successors(): Succ
      reads this
    {
      map u | u in graph :: set v | v in graph[u]
    }

    /** The successor sets hold exactly the edges of the adjacency lists. */
    lemma SuccessorsAreEdges()
      ensures forall u, v :: v in Next(Successors(), u) <==> HasEdge(u, v)
    {
    }

    ghost function Universe(): set<nat>
      reads this
    {
      set x | x in vertices
    }

    constructor ()
      ensures Valid() && graph == map[] && vertices == []
    {
      graph := map[];
      vertices := [];
    }

    /** `addEdge(u, v)`: register both endpoints once, append `v` to `u`'s list. */
    method AddEdge(u: nat, v: nat)
      requires Valid()
      modifies this
      ensures Valid()
      ensures vertices == AppendIfAbsent(AppendIfAbsent(old(vertices), u), v)
      ensures u in old(graph) ==> graph == old(graph)[u := old(graph)[u] + [v]]
      ensures u !in old(graph) ==> graph == old(graph)[u := [v]]
      ensures forall x, y :: HasEdge(x, y) <==> old(HasEdge(x, y)) || (x == u && y == v)
    {
      vertices := AppendIfAbsent(vertices, u);
      vertices := AppendIfAbsent(vertices, v);
      if u in graph {
        graph := graph[u := graph[u] + [v]];
      } else {
        graph := graph[u := [v]];
      }
    }

    /** `dfs(v, visited)`: the returned set is the updated `visited`. Every
        vertex it adds is reachable from `v`, and no edge leaves the added
        vertices except into `visited`. */
    method Dfs(v: nat, visited: set<nat>) returns (r: set<nat>)
      requires Valid() && v !in visited
      ensures visited + {v} <= r
      ensures forall x :: x in r - visited ==> Reachable(Successors(), v, x)
      ensures forall x :: x in r - visited ==> Next(Successors(), x) <= r
      decreases Universe() + {v} - visited
    {
      ghost var G := Successors();
      ReachableSelf(G, v);
      r := visited + {v};
      if v in graph {
        var adj := graph[v];
        var i := 0;
        while i < |adj|
          invariant 0 <= i <= |adj|
          invariant visited + {v} <= r
          invariant forall x :: x in r - visited ==> Reachable(G, v, x)
          invariant forall x :: x in r - visited - {v} ==> Next(G, x) <= r
          invariant forall j :: 0 <= j < i ==> adj[j] in r
        {
          var next := adj[i];
          if next !in r {
            assert next in Next(G, v);
            var r' := Dfs(next, r);
            forall x | x in r' - r
              ensures Reachable(G, v, x)
            {
              ReachablePrepend(G, v, next, x);
            }
            forall x | x in r' - visited - {v}
              ensures Next(G, x) <= r'
            {
              if x !in r {
                assert x in r' - r;
              }
            }
            r := r';
          }
          i := i + 1;
        }
        assert forall x :: x in Next(G, v) ==> x in adj;
      }
    }

    /** `DFSTime(s)` without the timing: a depth-first search from `s` into a
        fresh set visits exactly the vertices reachable from `s`. */
    method DfsFrom(s: nat) returns (visited: set<nat>)
      requires Valid()
      ensures forall t :: t in visited <==> Reachable(Successors(), s, t)
    {
      visited := Dfs(s, {});
      forall t | Reachable(Successors(), s, t)
        ensures t in visited
      {
        ClosedContainsReachable(Successors(), visited, s, t);
      }
    }

    /** The initialisation in `BFSTime`: every vertex starts unmarked. */
    method InitVisited() returns (visited: map<nat, bool>)
      ensures visited.Keys == Universe()
      ensures forall x :: x in visited ==> !visited[x]
    {
      visited := map[];
      var i := 0;
      while i < |vertices|
        invariant 0 <= i <= |vertices|
        invariant visited.Keys == set x | x in vertices[..i]
        invariant forall x :: x in visited ==> !visited[x]
      {
        assert vertices[..i + 1] == vertices[..i] + [vertices[i]];
        visited := visited[vertices[i] := false];
        i := i + 1;
      }
      assert vertices[..i] == vertices;
    }

    /** The `for (let next of this.graph[current])` loop of `bfs`: every
        neighbour the record holds as false is marked and pushed, once each, so
        the pushed vertices are exactly the newly marked ones, and afterwards
        every neighbour with an entry is marked. */
    method VisitNeighbours(current: nat, visited0: map<nat, bool>)
      returns (pushed: seq<nat>, visited: map<nat, bool>)
      requires current in graph
      ensures visited.Keys == visited0.Keys
      ensures NoDup(pushed)
      ensures forall x :: IsMarked(visited0, x) ==> IsMarked(visited, x)
      ensures forall x :: x in pushed <==> IsMarked(visited, x) && !IsMarked(visited0, x)
      ensures forall x :: x in pushed ==> x in graph[current]
      ensures forall y :: y in graph[current] && y in visited0 ==> IsMarked(visited, y)
    {
      pushed, visited := [], visited0;
      var adj := graph[current];
      var i := 0;
      while i < |adj|
        invariant 0 <= i <= |adj|
        invariant visited.Keys == visited0.Keys
        invariant NoDup(pushed)
        invariant forall x :: IsMarked(visited0, x) ==> IsMarked(visited, x)
        invariant forall x :: x in pushed <==> IsMarked(visited, x) && !IsMarked(visited0, x)
        invariant forall x :: x in pushed ==> x in adj
        invariant forall j :: 0 <= j < i && adj[j] in visited0 ==> IsMarked(visited, adj[j])
      {
        var next := adj[i];
        if next in visited && !visited[next] {
          NoDupAppend(pushed, next);
          pushed := pushed + [next];
          visited := visited[next := true];
        }
        i := i + 1;
      }
    }

    /** `bfs(s, visited)` on a record in which every vertex is unmarked: the
        returned record marks exactly the vertices reachable from `s`. */
    method Bfs(s: nat, visited0: map<nat, bool>) returns (visited: map<nat, bool>)
      requires forall x, y :: HasEdge(x, y) ==> y in visited0
      requires forall x :: x in visited0 ==> !visited0[x]
      ensures visited.Keys == visited0.Keys + {s}
      ensures forall t :: t in Marked(visited) <==> Reachable(Successors(), s, t)
    {
      ghost var G := Successors();
      ghost var K := visited0.Keys + {s};
      SuccessorsAreEdges();
      BfsStart(G, s, visited0);
      var queue := [s];
      visited := visited0[s := true];
      ghost var done: set<nat> := {};
      while queue != []
        invariant BfsFrontier(G, s, K, queue, visited, done)
        decreases |K| - |done|
      {
        var current := queue[0];
        var pushed, visited' := [], visited;
        if current in graph {
          pushed, visited' := VisitNeighbours(current, visited);
        }
        BfsStep(G, s, K, queue, visited, done, pushed, visited');
        queue := queue[1..] + pushed;
        visited := visited';
        done := done + {current};
      }
      BfsFinish(G, s, K, visited, done);
    }

    /** `BFSTime(s)` without the timing. */
    method BfsFrom(s: nat) returns (visited: map<nat, bool>)
      requires Valid()
      ensures visited.Keys == Universe() + {s}
      ensures forall t :: t in Marked(visited) <==> Reachable(Successors(), s, t)
    {
      var init := InitVisited();
      visited := Bfs(s, init);
    }
  }

  /** The state of `bfs` at the top of its loop, with `done` the vertices
      already dequeued: the queue holds marked vertices not yet done, once
      each; every marked vertex is done or queued and reachable from `s`; and
      every successor of a done vertex is marked. */
  ghost predicate BfsFrontier(G: Succ, s: nat, K: set<nat>, queue: seq<nat>,
                              visited: map<nat, bool>, done: set<nat>)
  {
    visited.Keys == K && done <= K && IsMarked(visited, s) && NoDup(queue) &&
    (forall x :: x in queue ==> x !in done && IsMarked(visited, x)) &&
    (forall x :: x in done ==> IsMarked(visited, x)) &&
    (forall x :: IsMarked(visited, x) ==> x in done || x in queue) &&
    (forall x, y :: x in done && y in Next(G, x) ==> IsMarked(visited, y)) &&
    (forall x :: IsMarked(visited, x) ==> Reachable(G, s, x))
  }

  /** `bfs` before its loop: only `s` is marked, and it is queued. */
  lemma BfsStart(G: Succ, s: nat, visited0: map<nat, bool>)
    requires forall x :: x in visited0 ==> !visited0[x]
    ensures BfsFrontier(G, s, visited0.Keys + {s}, [s], visited0[s := true], {})
  {
    ReachableSelf(G, s);
  }

  /** `bfs` after its loop: with the queue empty the marked vertices are
      exactly those reachable from `s`. */
  lemma BfsFinish(G: Succ, s: nat, K: set<nat>, visited: map<nat, bool>, done: set<nat>)
    requires BfsFrontier(G, s, K, [], visited, done)
    requires forall x, y :: y in Next(G, x) ==> y in K
    ensures forall t :: t in Marked(visited) <==> Reachable(G, s, t)
  {
    forall x | x in Marked(visited)
      ensures Next(G, x) <= Marked(visited)
    {
      forall y | y in Next(G, x)
        ensures y in Marked(visited)
      {
        assert IsMarked(visited, y);
      }
    }
    forall t | Reachable(G, s, t)
      ensures t in Marked(visited)
    {
      ClosedContainsReachable(G, Marked(visited), s, t);
    }
  }

  /** One iteration of `bfs`: dequeue the head, mark and enqueue its unmarked
      successors. The frontier invariant survives and `done` grows by one
      vertex of K. */
  lemma BfsStep(G: Succ, s: nat, K: set<nat>, queue: seq<nat>, visited: map<nat, bool>,
                done: set<nat>, pushed: seq<nat>, visited': map<nat, bool>)
    requires BfsFrontier(G, s, K, queue, visited, done) && queue != []
    requires forall x, y :: y in Next(G, x) ==> y in K
    requires visited'.Keys == visited.Keys && NoDup(pushed)
    requires forall x :: IsMarked(visited, x) ==> IsMarked(visited', x)
    requires forall x :: x in pushed <==> IsMarked(visited', x) && !IsMarked(visited, x)
    requires forall x :: x in pushed ==> x in Next(G, queue[0])
    requires forall y :: y in Next(G, queue[0]) && y in visited ==> IsMarked(visited', y)
    ensures BfsFrontier(G, s, K, queue[1..] + pushed, visited', done + {queue[0]})
    ensures queue[0] !in done && |done + {queue[0]}| <= |K|
  {
    var current := queue[0];
    assert current !in queue[1..];
    forall x | x in pushed
      ensures x !in queue[1..] && x !in done && x != current
    {
      assert !IsMarked(visited, x);
    }
    NoDupConcat(queue[1..], pushed);
    forall x | IsMarked(visited', x)
      ensures Reachable(G, s, x)
    {
      if !IsMarked(visited, x) {
        ReachableStep(G, s, current, x);
      }
    }
    SetCardinalityMonotone(done + {current}, K);
  }

  predicate IsEnd(e: Pair, x: nat)
  {
    e.0 == x || e.1 == x
  }

  /** The graph `makeGraph` fills: one `addEdge` per planned pair, in order. */
  method Build(n: nat, edges: seq<Pair>) returns (g: Graph)
    requires n <= |edges| && InRange(edges, n)
    requires forall i :: 0 <= i < n ==> edges[i] == (i, i + 1)
    ensures fresh(g) && Built(g, edges)
    ensures forall i, j :: 0 <= i < n && j == i + 1 ==> g.HasEdge(i, j)
    ensures forall x: nat, y: nat :: g.HasEdge(x, y) ==> x <= n && y <= n
  {
    g := new Graph();
    var k := 0;
    while k < |edges|
      invariant 0 <= k <= |edges|
      invariant fresh(g) && Built(g, edges[..k])
    {
      AddPlanned(g, edges, k);
      k := k + 1;
    }
    assert edges[..k] == edges;
    forall i, j | 0 <= i < n && j == i + 1
      ensures g.HasEdge(i, j)
    {
      assert edges[i] == (i, j);
    }
  }

  /** The ends of the pairs. */
  function Ends(es: seq<Pair>): (r: set<nat>)
    ensures forall e :: e in es ==> e.0 in r && e.1 in r
  {
    if es == [] then {} else Ends(es[..|es| - 1]) + {es[|es| - 1].0, es[|es| - 1].1}
  }

  /** Every member of `Ends` is an end of some pair. */
  lemma {:induction false} EndsOnly(es: seq<Pair>, x: nat)
    requires x in Ends(es)
    ensures exists e :: e in es && IsEnd(e, x)
  {
    var init := es[..|es| - 1];
    if x in Ends(init) {
      EndsOnly(init, x);
      var e :| e in init && IsEnd(e, x);
      assert e in es;
    } else {
      assert IsEnd(es[|es| - 1], x);
    }
  }

  /** g holds exactly the pairs of es as edges, and lists exactly their ends
      as vertices, each once. */
  ghost predicate Built(g: Graph, es: seq<Pair>)
    reads g
  {
    g.Valid() &&
    (forall x: nat, y: nat :: g.HasEdge(x, y) <==> (x, y) in es) &&
    (forall x: nat :: x in g.vertices <==> x in Ends(es))
  }

  /** One iteration of the building loop: `addEdge` of the k-th pair. */
  method AddPlanned(g: Graph, edges: seq<Pair>, k: nat)
    requires k < |edges| && Built(g, edges[..k])
    modifies g
    ensures Built(g, edges[..k + 1])
  {
    var u, v := edges[k].0, edges[k].1;
    assert edges[..k + 1][..k] == edges[..k];
    assert Ends(edges[..k + 1]) == Ends(edges[..k]) + {u, v};
    assert forall x: nat, y: nat :: (x, y) in edges[..k + 1] <==> (x, y) in edges[..k] || (x == u && y == v) by {
      assert edges[..k + 1] == edges[..k] + [edges[k]];
    }
    g.AddEdge(u, v);
  }

  /** `makeGraph(n, m)`: build the graph from the planned edge list, then run
      both searches from vertex 0; the searches' results stand in for the
      returned times. Both reach every vertex `0..n` and nothing else. */
  method MakeGraph(n: nat, m: nat, picks: seq<nat>) returns (r: Result<(set<nat>, map<nat, bool>)>)
    requires forall j :: 0 <= j < |picks| ==> picks[j] <= n
    ensures r.Failure? ==> r.error == OutOfPicks
    ensures r.Success? ==> forall t: nat :: t in r.value.0 <==> t <= n
    ensures r.Success? ==> forall t: nat :: t in Marked(r.value.1) <==> t <= n
  {
    var plan := PlanEdges(n, m, picks, false);
    if plan.Failure? {
      return Failure(plan.error);
    }
    var g := Build(n, plan.value);
    var G := g.Successors();
    g.SuccessorsAreEdges();
    var d := g.DfsFrom(0);
    var b := g.BfsFrom(0);
    forall t: nat | t <= n
      ensures Reachable(G, 0, t)
    {
      PathReachesAll(G, n, t);
    }
    forall t: nat | Reachable(G, 0, t)
      ensures t <= n
    {
      ReachableInRange(G, n, 0, t);
    }
    return Success((d, b));
  }
}
