/** The disjoint-set forest `kruskal` keeps in its `subsets` map
    (Lab6/index.js): each node's record holds a `parent` and a `rank`; `find`
    compresses paths, `union` links by rank. The two record fields are kept
    here as two maps over the same keys. */
module UnionFind {

  /** x's record is sound: its parent is a node, of strictly higher rank
      unless x is a root, and x's rank is at most `bound`. */
  ghost predicate LinkUp(parent: map<nat, nat>, rank: map<nat, nat>, bound: nat, x: nat)
  {
    x in parent && x in rank && parent[x] in parent && parent[x] in rank &&
    (parent[x] != x ==> rank[x] < rank[parent[x]]) && rank[x] <= bound
  }

  /** A forest in which every parent link climbs to a strictly higher rank,
      all ranks bounded. This is what makes `find` terminate. */
  ghost predicate WellFormed(parent: map<nat, nat>, rank: map<nat, nat>, bound: nat)
  {
    parent.Keys == rank.Keys &&
    forall x {:trigger LinkUp(parent, rank, bound, x)} :: x in parent ==> LinkUp(parent, rank, bound, x)
  }

  /** The root reached from x by following parent links. */
  ghost function RootOf(parent: map<nat, nat>, rank: map<nat, nat>, bound: nat, x: nat): nat
    requires WellFormed(parent, rank, bound) && x in parent
    decreases bound - rank[x]
  {
    assert LinkUp(parent, rank, bound, x);
    if parent[x] == x then x else RootOf(parent, rank, bound, parent[x])
  }

  /** The root is a node, its own parent, and outranks every other node below it. */
  lemma {:induction false} RootIsRoot(parent: map<nat, nat>, rank: map<nat, nat>, bound: nat, x: nat)
    requires WellFormed(parent, rank, bound) && x in parent
    ensures RootOf(parent, rank, bound, x) in parent
    ensures parent[RootOf(parent, rank, bound, x)] == RootOf(parent, rank, bound, x)
    ensures x != RootOf(parent, rank, bound, x) ==> rank[x] < rank[RootOf(parent, rank, bound, x)]
    decreases bound - rank[x]
  {
    assert LinkUp(parent, rank, bound, x);
    if parent[x] != x {
      RootIsRoot(parent, rank, bound, parent[x]);
    }
  }

  /** Roots depend on the parent links only, not on the ranks that prove termination. */
  lemma {:induction false} RootOfRankFree(parent: map<nat, nat>, rank: map<nat, nat>, bound: nat,
                                          rank': map<nat, nat>, bound': nat, x: nat)
    requires WellFormed(parent, rank, bound) && WellFormed(parent, rank', bound') && x in parent
    ensures RootOf(parent, rank', bound', x) == RootOf(parent, rank, bound, x)
    decreases bound - rank[x]
  {
    assert LinkUp(parent, rank, bound, x);
    assert LinkUp(parent, rank', bound', x);
    if parent[x] != x {
      RootOfRankFree(parent, rank, bound, rank', bound', parent[x]);
    }
  }

  /** y lies on the path of parent links from n to its root (both ends
      included). */
  ghost predicate OnPath(parent: map<nat, nat>, rank: map<nat, nat>, bound: nat, n: nat, y: nat)
    requires WellFormed(parent, rank, bound) && n in parent
    decreases bound - rank[n]
  {
    assert LinkUp(parent, rank, bound, n);
    y == n || (parent[n] != n && OnPath(parent, rank, bound, parent[n], y))
  }

  /** Every node on n's path is a node and has n's root. */
  lemma {:induction false} OnPathRoot(parent: map<nat, nat>, rank: map<nat, nat>, bound: nat, n: nat, y: nat)
    requires WellFormed(parent, rank, bound) && n in parent && OnPath(parent, rank, bound, n, y)
    ensures y in parent && RootOf(parent, rank, bound, y) == RootOf(parent, rank, bound, n)
    decreases bound - rank[n]
  {
    assert LinkUp(parent, rank, bound, n);
    if y != n {
      OnPathRoot(parent, rank, bound, parent[n], y);
    }
  }

  /** Paths chain: a node on the path of a node on n's path is on n's path. */
  lemma {:induction false} OnPathTrans(parent: map<nat, nat>, rank: map<nat, nat>, bound: nat, n: nat, m: nat, y: nat)
    requires WellFormed(parent, rank, bound) && n in parent && m in parent
    requires OnPath(parent, rank, bound, n, m) && OnPath(parent, rank, bound, m, y)
    ensures OnPath(parent, rank, bound, n, y)
    decreases bound - rank[n]
  {
    assert LinkUp(parent, rank, bound, n);
    if m != n {
      OnPathTrans(parent, rank, bound, parent[n], m, y);
    }
  }

  /** The root is on every node's path. */
  lemma {:induction false} RootOnPath(parent: map<nat, nat>, rank: map<nat, nat>, bound: nat, n: nat)
    requires WellFormed(parent, rank, bound) && n in parent
    ensures OnPath(parent, rank, bound, n, RootOf(parent, rank, bound, n))
    decreases bound - rank[n]
  {
    assert LinkUp(parent, rank, bound, n);
    if parent[n] != n {
      RootOnPath(parent, rank, bound, parent[n]);
    }
  }

  /** P1 is P0 after `find` from x: the nodes on x's path point at x's
      root, every other link is kept, and so is every root. */
  ghost predicate Compressed(P0: map<nat, nat>, P1: map<nat, nat>, rank: map<nat, nat>, bound: nat, x: nat)
  {
    WellFormed(P0, rank, bound) && WellFormed(P1, rank, bound) && x in P0 && P1.Keys == P0.Keys &&
    (forall z :: z in P1 ==> P1[z] == if OnPath(P0, rank, bound, x, z) then RootOf(P0, rank, bound, x) else P0[z]) &&
    (forall z :: z in P1 ==> RootOf(P1, rank, bound, z) == RootOf(P0, rank, bound, z))
  }

  /** After compressing x's path, a path from y runs over nodes that were on
      x's path or on y's path. */
  lemma {:induction false} CompressedPathOut(P0: map<nat, nat>, P1: map<nat, nat>, rank: map<nat, nat>, bound: nat,
                                             x: nat, y: nat, z: nat)
    requires Compressed(P0, P1, rank, bound, x) && y in P0 && OnPath(P1, rank, bound, y, z)
    ensures OnPath(P0, rank, bound, x, z) || OnPath(P0, rank, bound, y, z)
    decreases bound - rank[y]
  {
    assert LinkUp(P0, rank, bound, y);
    assert LinkUp(P1, rank, bound, y);
    if z != y {
      if OnPath(P0, rank, bound, x, y) {
        var xr := RootOf(P0, rank, bound, x);
        RootIsRoot(P0, rank, bound, x);
        RootOnPath(P0, rank, bound, x);
        assert P1[y] == xr && P1[xr] == xr;
        assert z == xr;
      } else {
        CompressedPathOut(P0, P1, rank, bound, x, P0[y], z);
      }
    }
  }

  /** A node on y's path but off x's path is still on y's path after x's
      path is compressed. */
  lemma {:induction false} CompressedPathIn(P0: map<nat, nat>, P1: map<nat, nat>, rank: map<nat, nat>, bound: nat,
                                            x: nat, y: nat, z: nat)
    requires Compressed(P0, P1, rank, bound, x) && y in P0
    requires OnPath(P0, rank, bound, y, z) && !OnPath(P0, rank, bound, x, z)
    ensures OnPath(P1, rank, bound, y, z)
    decreases bound - rank[y]
  {
    assert LinkUp(P0, rank, bound, y);
    assert LinkUp(P1, rank, bound, y);
    if z != y {
      assert !OnPath(P0, rank, bound, x, y) by {
        if OnPath(P0, rank, bound, x, y) {
          OnPathTrans(P0, rank, bound, x, y, z);
        }
      }
      CompressedPathIn(P0, P1, rank, bound, x, P0[y], z);
    }
  }

  /** The links after `find` from x and then `find` from y: every node on
      either original path points at its root, every other link is kept. */
  lemma TwoFinds(P0: map<nat, nat>, P1: map<nat, nat>, P2: map<nat, nat>, rank: map<nat, nat>, bound: nat,
                 x: nat, y: nat, z: nat)
    requires Compressed(P0, P1, rank, bound, x) && Compressed(P1, P2, rank, bound, y) && z in P0
    ensures P2[z] == if OnPath(P0, rank, bound, x, z) || OnPath(P0, rank, bound, y, z)
                     then RootOf(P0, rank, bound, z) else P0[z]
  {
    if OnPath(P1, rank, bound, y, z) {
      CompressedPathOut(P0, P1, rank, bound, x, y, z);
      OnPathRoot(P1, rank, bound, y, z);
    } else if OnPath(P0, rank, bound, x, z) {
      OnPathRoot(P0, rank, bound, x, z);
    } else if OnPath(P0, rank, bound, y, z) {
      CompressedPathIn(P0, P1, rank, bound, x, y, z);
    }
  }

  /** Pointing x straight at its root keeps the forest well formed. */
  lemma CompressWellFormed(parent: map<nat, nat>, rank: map<nat, nat>, bound: nat, x: nat)
    requires WellFormed(parent, rank, bound) && x in parent
    ensures WellFormed(parent[x := RootOf(parent, rank, bound, x)], rank, bound)
  {
    var r := RootOf(parent, rank, bound, x);
    var p' := parent[x := r];
    RootIsRoot(parent, rank, bound, x);
    forall z | z in p'
      ensures LinkUp(p', rank, bound, z)
    {
      assert LinkUp(parent, rank, bound, z);
    }
  }

  /** Path compression changes no node's root. */
  lemma {:induction false} CompressKeepsRoots(parent: map<nat, nat>, rank: map<nat, nat>, bound: nat,
                                              x: nat, y: nat)
    requires WellFormed(parent, rank, bound) && x in parent && y in parent
    requires WellFormed(parent[x := RootOf(parent, rank, bound, x)], rank, bound)
    ensures RootOf(parent[x := RootOf(parent, rank, bound, x)], rank, bound, y)
         == RootOf(parent, rank, bound, y)
    decreases bound - rank[y]
  {
    var r := RootOf(parent, rank, bound, x);
    var p' := parent[x := r];
    RootIsRoot(parent, rank, bound, x);
    assert LinkUp(parent, rank, bound, y);
    assert LinkUp(p', rank, bound, y);
    if y == x {
      if r != x {
        assert LinkUp(p', rank, bound, r);
      }
    } else if parent[y] != y {
      CompressKeepsRoots(parent, rank, bound, x, parent[y]);
    }
  }

  /** Hanging root `loser` under another root `winner` (with ranks that keep the
      forest well formed) sends everything that reached `loser` to `winner`
      and leaves every other root in place. */
  lemma {:induction false} LinkMovesRoots(parent: map<nat, nat>, rank: map<nat, nat>, bound: nat,
                                          rank': map<nat, nat>, bound': nat,
                                          loser: nat, winner: nat, y: nat)
    requires WellFormed(parent, rank, bound) && loser in parent && winner in parent && y in parent
    requires parent[loser] == loser && parent[winner] == winner && loser != winner
    requires WellFormed(parent[loser := winner], rank', bound')
    ensures RootOf(parent[loser := winner], rank', bound', y)
         == if RootOf(parent, rank, bound, y) == loser then winner else RootOf(parent, rank, bound, y)
    decreases bound - rank[y]
  {
    var p' := parent[loser := winner];
    assert LinkUp(parent, rank, bound, y);
    assert LinkUp(p', rank', bound', y);
    if y == loser {
      assert LinkUp(p', rank', bound', winner);
    } else if parent[y] != y {
      LinkMovesRoots(parent, rank, bound, rank', bound', loser, winner, parent[y]);
    }
  }

  /** Linking two roots of different rank, lower under higher. */
  lemma LinkByRank(parent: map<nat, nat>, rank: map<nat, nat>, bound: nat, loser: nat, winner: nat)
    requires WellFormed(parent, rank, bound) && loser in parent && winner in parent
    requires parent[loser] == loser && parent[winner] == winner && rank[loser] < rank[winner]
    ensures WellFormed(parent[loser := winner], rank, bound)
    ensures forall z :: z in parent ==>
      RootOf(parent[loser := winner], rank, bound, z)
      == if RootOf(parent, rank, bound, z) == loser then winner else RootOf(parent, rank, bound, z)
  {
    var p' := parent[loser := winner];
    assert WellFormed(p', rank, bound) by {
      assert LinkUp(parent, rank, bound, winner);
      forall z | z in p'
        ensures LinkUp(p', rank, bound, z)
      {
        assert LinkUp(parent, rank, bound, z);
      }
    }
    forall z | z in parent
      ensures RootOf(p', rank, bound, z)
           == if RootOf(parent, rank, bound, z) == loser then winner else RootOf(parent, rank, bound, z)
    {
      LinkMovesRoots(parent, rank, bound, rank, bound, loser, winner, z);
    }
  }

  /** Linking two distinct roots of equal rank: `loser` goes under `winner`,
      whose rank grows by one. */
  lemma LinkEqualRank(parent: map<nat, nat>, rank: map<nat, nat>, bound: nat, loser: nat, winner: nat)
    requires WellFormed(parent, rank, bound) && loser in parent && winner in parent
    requires parent[loser] == loser && parent[winner] == winner && loser != winner
    requires rank[loser] == rank[winner]
    ensures WellFormed(parent[loser := winner], rank[winner := rank[winner] + 1], bound + 1)
    ensures forall z :: z in parent ==>
      RootOf(parent[loser := winner], rank[winner := rank[winner] + 1], bound + 1, z)
      == if RootOf(parent, rank, bound, z) == loser then winner else RootOf(parent, rank, bound, z)
  {
    var p', r' := parent[loser := winner], rank[winner := rank[winner] + 1];
    assert WellFormed(p', r', bound + 1) by {
      assert LinkUp(parent, rank, bound, winner);
      forall z | z in p'
        ensures LinkUp(p', r', bound + 1, z)
      {
        assert LinkUp(parent, rank, bound, z);
      }
    }
    forall z | z in parent
      ensures RootOf(p', r', bound + 1, z)
           == if RootOf(parent, rank, bound, z) == loser then winner else RootOf(parent, rank, bound, z)
    {
      LinkMovesRoots(parent, rank, bound, r', bound + 1, loser, winner, z);
    }
  }

  /** Raising a root's rank by one keeps the forest well formed and every root. */
  lemma BumpRank(parent: map<nat, nat>, rank: map<nat, nat>, bound: nat, root: nat)
    requires WellFormed(parent, rank, bound) && root in parent && parent[root] == root
    ensures WellFormed(parent, rank[root := rank[root] + 1], bound + 1)
    ensures forall z :: z in parent ==>
      RootOf(parent, rank[root := rank[root] + 1], bound + 1, z) == RootOf(parent, rank, bound, z)
  {
    var r' := rank[root := rank[root] + 1];
    assert WellFormed(parent, r', bound + 1) by {
      forall z | z in parent
        ensures LinkUp(parent, r', bound + 1, z)
      {
        assert LinkUp(parent, rank, bound, z);
      }
    }
    forall z | z in parent
      ensures RootOf(parent, r', bound + 1, z) == RootOf(parent, rank, bound, z)
    {
      RootOfRankFree(parent, rank, bound, r', bound + 1, z);
    }
  }

  /** The nodes that are their own parent. */
  ghost function RootsOf(parent: map<nat, nat>): set<nat>
  {
    set x | x in parent && parent[x] == x
  }

  /** The `subsets` map of `kruskal`. */
  class Subsets {
    var parent: map<nat, nat>
    var rank: map<nat, nat>
    ghost var bound: nat

    ghost predicate Valid()
      reads this
    {
      WellFormed(parent, rank, bound)
    }

    ghost function Root(x: nat): nat
      reads this
      requires Valid() && x in parent
    {
      RootOf(parent, rank, bound, x)
    }

    ghost function Roots(): set<nat>
      reads this
    {
      RootsOf(parent)
    }

    /** `nodes.forEach(node => subsets.set(node, {parent: node, rank: 0}))`. */
    constructor (nodes: seq<nat>)
      ensures Valid()
      ensures parent.Keys == set x | x in nodes
      ensures forall x :: x in parent ==> parent[x] == x && rank[x] == 0
      ensures Roots() == set x | x in nodes
    {
      var p: map<nat, nat>, r: map<nat, nat> := map[], map[];
      var i := 0;
      while i < |nodes|
        invariant 0 <= i <= |nodes|
        invariant p.Keys == r.Keys == set x | x in nodes[..i]
        invariant forall x :: x in p ==> p[x] == x && r[x] == 0
      {
        assert nodes[..i + 1] == nodes[..i] + [nodes[i]];
        p := p[nodes[i] := nodes[i]];
        r := r[nodes[i] := 0];
        i := i + 1;
      }
      assert nodes[..i] == nodes;
      forall x | x in p
        ensures LinkUp(p, r, 0, x)
      {
      }
      parent, rank, bound := p, r, 0;
    }

    /** `find(subsets, n)`: returns n's root, re-points every node on n's
        path at it, leaves every other parent link alone, and so leaves every
        node's root where it was. */
    method Find(n: nat) returns (root: nat)
      requires Valid() && n in parent
      modifies this
      ensures Valid() && rank == old(rank) && bound == old(bound) && parent.Keys == old(parent.Keys)
      ensures root == old(Root(n)) && parent[n] == root && root in parent && parent[root] == root
      ensures forall y :: y in parent ==> RootOf(parent, rank, bound, y) == RootOf(old(parent), rank, bound, y)
      ensures Roots() == old(Roots())
      ensures forall y :: y in parent && rank[y] < rank[n] ==> parent[y] == old(parent[y])
      ensures forall y :: y in parent ==>
                parent[y] == if OnPath(old(parent), rank, bound, n, y) then root else old(parent[y])
      decreases bound - rank[n]
    {
      assert LinkUp(parent, rank, bound, n);
      RootIsRoot(parent, rank, bound, n);
      var up := parent[n];
      if up != n {
        var r := Find(up);
        assert parent[n] == up;
        ghost var p := parent;
        RootIsRoot(p, rank, bound, n);
        CompressWellFormed(p, rank, bound, n);
        parent := parent[n := r];
        assert RootsOf(parent) == RootsOf(p);
        forall y | y in parent
          ensures RootOf(parent, rank, bound, y) == RootOf(p, rank, bound, y)
        {
          CompressKeepsRoots(p, rank, bound, n, y);
        }
      }
      root := parent[n];
    }

    /** `union(subsets, x, y)`: find both roots, hang the lower-ranked root under
        the other; on equal ranks y's root goes under x's root and x's root's
        rank grows by one. Every node of the losing tree moves to the winner;
        two distinct trees lose exactly one root between them. */
    method Union(x: nat, y: nat)
      requires Valid() && x in parent && y in parent
      modifies this
      ensures Valid() && parent.Keys == old(parent.Keys)
      ensures old(Root(x)) in old(rank) && old(Root(y)) in old(rank)
      ensures var xr, yr := old(Root(x)), old(Root(y));
              var loser := if old(rank[xr]) < old(rank[yr]) then xr else yr;
              var winner := if old(rank[xr]) < old(rank[yr]) then yr else xr;
              forall z :: z in parent ==> Root(z) == if old(Root(z)) == loser then winner else old(Root(z))
      ensures var xr, yr := old(Root(x)), old(Root(y));
              Roots() == if xr == yr then old(Roots())
                         else if old(rank[xr]) < old(rank[yr]) then old(Roots()) - {xr}
                         else old(Roots()) - {yr}
      ensures rank.Keys == old(rank.Keys)
      ensures var xr, yr := old(Root(x)), old(Root(y));
              forall z :: z in rank ==>
                rank[z] == if z == xr && old(rank[xr]) == old(rank[yr]) then old(rank[z]) + 1 else old(rank[z])
      ensures var xr, yr := old(Root(x)), old(Root(y));
              var loser := if old(rank[xr]) < old(rank[yr]) then xr else yr;
              var winner := if old(rank[xr]) < old(rank[yr]) then yr else xr;
              forall z :: z in parent ==>
                parent[z] == if xr != yr && z == loser then winner
                             else if old(OnPath(parent, rank, bound, x, z) || OnPath(parent, rank, bound, y, z))
                             then old(Root(z)) else old(parent[z])
    {
      ghost var p0, r0 := parent, rank;
      ghost var xr, yr := Root(x), Root(y);
      var xroot := Find(x);
      assert xroot in RootsOf(parent);
      ghost var pm := parent;
      var yroot := Find(y);
      assert xroot in RootsOf(parent);
      ghost var p1 := parent;
      assert xroot == xr && yroot == yr && rank == r0;
      Link(xroot, yroot);
      ghost var loser := if r0[xr] < r0[yr] then xr else yr;
      ghost var winner := if r0[xr] < r0[yr] then yr else xr;
      assert parent == if xr == yr then p1 else p1[loser := winner];
      forall z | z in parent
        ensures parent[z] == if xr != yr && z == loser then winner
                             else if OnPath(p0, r0, old(bound), x, z) || OnPath(p0, r0, old(bound), y, z)
                             then RootOf(p0, r0, old(bound), z) else p0[z]
      {
        TwoFinds(p0, pm, p1, r0, old(bound), x, y, z);
      }
      assert forall z :: z in p1 ==> RootOf(p1, old(rank), old(bound), z) == RootOf(p0, old(rank), old(bound), z);
    }

    /** The linking step of `union`, applied to two roots. */
    method Link(xroot: nat, yroot: nat)
      requires Valid() && xroot in parent && yroot in parent
      requires parent[xroot] == xroot && parent[yroot] == yroot
      modifies this
      ensures Valid() && parent.Keys == old(parent.Keys)
      ensures var loser := if old(rank[xroot]) < old(rank[yroot]) then xroot else yroot;
              var winner := if old(rank[xroot]) < old(rank[yroot]) then yroot else xroot;
              forall z :: z in parent ==> Root(z) == if old(Root(z)) == loser then winner else old(Root(z))
      ensures Roots() == if xroot == yroot then old(Roots())
                         else if old(rank[xroot]) < old(rank[yroot]) then old(Roots()) - {xroot}
                         else old(Roots()) - {yroot}
      ensures rank.Keys == old(rank.Keys)
      ensures forall z :: z in rank ==>
                rank[z] == if z == xroot && old(rank[xroot]) == old(rank[yroot]) then old(rank[z]) + 1 else old(rank[z])
      ensures var loser := if old(rank[xroot]) < old(rank[yroot]) then xroot else yroot;
              var winner := if old(rank[xroot]) < old(rank[yroot]) then yroot else xroot;
              parent == if xroot == yroot then old(parent) else old(parent)[loser := winner]
    {
      var p, r := parent, rank;
      ghost var b := bound;
      if r[xroot] < r[yroot] {
        LinkByRank(p, r, b, xroot, yroot);
        p := p[xroot := yroot];
        assert RootsOf(p) == RootsOf(parent) - {xroot};
      } else if r[xroot] > r[yroot] {
        LinkByRank(p, r, b, yroot, xroot);
        p := p[yroot := xroot];
        assert RootsOf(p) == RootsOf(parent) - {yroot};
      } else if xroot != yroot {
        LinkEqualRank(p, r, b, yroot, xroot);
        p, r, b := p[yroot := xroot], r[xroot := r[xroot] + 1], b + 1;
        assert RootsOf(p) == RootsOf(parent) - {yroot};
      } else {
        BumpRank(p, r, b, xroot);
        r, b := r[xroot := r[xroot] + 1], b + 1;
      }
      parent, rank, bound := p, r, b;
    }
  }
}
