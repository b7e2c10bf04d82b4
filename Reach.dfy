/** Reachability in a directed graph given by each node's set of successors.
    The traversal, the shortest-path and the spanning-tree models all state
    their results against these definitions. */
module Reach {

  type Succ = map<nat, set<nat>>

  /** The successors of v; a node without an entry has none. */
  function Next(g: Succ, v: nat): set<nat>
  {
    if v in g then g[v] else {}
  }

  /** p is a non-empty walk along edges of g. */
  ghost predicate IsPath(g: Succ, p: seq<nat>)
  {
    |p| >= 1 && forall i :: 0 <= i < |p| - 1 ==> p[i + 1] in Next(g, p[i])
  }

  /** t can be reached from s (s itself included). */
  ghost predicate Reachable(g: Succ, s: nat, t: nat)
  {
    exists p :: IsPath(g, p) && p[0] == s && p[|p| - 1] == t
  }

  /** No edge leaves S. */
  ghost predicate Closed(g: Succ, S: set<nat>)
  {
    forall v :: v in S ==> Next(g, v) <= S
  }

  lemma ReachableSelf(g: Succ, s: nat)
    ensures Reachable(g, s, s)
  {
    assert IsPath(g, [s]);
  }

  /** Reachability extends along one more edge. */
  lemma ReachableStep(g: Succ, s: nat, u: nat, v: nat)
    requires Reachable(g, s, u) && v in Next(g, u)
    ensures Reachable(g, s, v)
  {
    var p :| IsPath(g, p) && p[0] == s && p[|p| - 1] == u;
    var q := p + [v];
    assert IsPath(g, q);
  }

  /** Reachability extends backwards along one edge. */
  lemma ReachablePrepend(g: Succ, s: nat, v: nat, t: nat)
    requires v in Next(g, s) && Reachable(g, v, t)
    ensures Reachable(g, s, t)
  {
    var p :| IsPath(g, p) && p[0] == v && p[|p| - 1] == t;
    var q := [s] + p;
    assert IsPath(g, q);
  }

  /** Adding edges keeps every reachability. */
  lemma ReachableMono(g: Succ, h: Succ, s: nat, t: nat)
    requires forall v :: Next(g, v) <= Next(h, v)
    requires Reachable(g, s, t)
    ensures Reachable(h, s, t)
  {
    var p :| IsPath(g, p) && p[0] == s && p[|p| - 1] == t;
    assert IsPath(h, p);
  }

  /** Reachability composes. */
  lemma ReachableTrans(g: Succ, a: nat, b: nat, c: nat)
    requires Reachable(g, a, b) && Reachable(g, b, c)
    ensures Reachable(g, a, c)
  {
    var p :| IsPath(g, p) && p[0] == a && p[|p| - 1] == b;
    var q :| IsPath(g, q) && q[0] == b && q[|q| - 1] == c;
    var r := p + q[1..];
    forall i | 0 <= i < |r| - 1
      ensures r[i + 1] in Next(g, r[i])
    {
      if i < |p| - 1 {
        assert r[i] == p[i] && r[i + 1] == p[i + 1];
      } else {
        assert r[i] == q[i - |p| + 1] && r[i + 1] == q[i - |p| + 2];
      }
    }
    assert IsPath(g, r);
  }

  /** A set that no edge leaves holds everything reachable from its members. */
  lemma ClosedContainsReachable(g: Succ, S: set<nat>, s: nat, t: nat)
    requires Closed(g, S) && s in S && Reachable(g, s, t)
    ensures t in S
  {
    var p :| IsPath(g, p) && p[0] == s && p[|p| - 1] == t;
    PathStaysInClosed(g, S, p, |p| - 1);
  }

  lemma {:induction false} PathStaysInClosed(g: Succ, S: set<nat>, p: seq<nat>, i: nat)
    requires Closed(g, S) && IsPath(g, p) && p[0] in S && i < |p|
    ensures p[i] in S
  {
    if i > 0 {
      PathStaysInClosed(g, S, p, i - 1);
      assert p[i] in Next(g, p[i - 1]);
    }
  }

  /** A walk that starts inside S and ends outside it crosses an edge leaving S. */
  lemma {:induction false} PathLeaves(g: Succ, S: set<nat>, p: seq<nat>)
    requires IsPath(g, p) && p[0] in S && p[|p| - 1] !in S
    ensures exists u, v :: u in S && v !in S && v in Next(g, u)
  {
    if p[|p| - 2] in S {
      assert p[|p| - 1] in Next(g, p[|p| - 2]);
    } else {
      var q := p[..|p| - 1];
      assert IsPath(g, q);
      PathLeaves(g, S, q);
    }
  }
}
