/** The diagonal of the matrix `floyd` (lab7/index.js) builds. The setup
    zeroes `dist[i][i]` for i the index of an EDGE, not of a node: a node
    whose index is at least the number of edges keeps `undefined` on the
    diagonal, and a self-loop listed after edge d overwrites the zero at
    (d, d) with its weight. Both survive the relaxation. */
module FloydDiagonal {
  import opened Common
  import opened Relaxation
  import opened Network

  /** With no negative entry, a walk costs at least its first step. */
  lemma {:induction false} FirstStepBound(M: Matrix, n: nat, p: seq<nat>)
    requires Square(M, n) && NonNeg(M, n) && IsWalk(p, n)
    ensures LessEq(M[p[0]][p[1]], WalkCost(M, n, p))
  {
    var q := p[..|p| - 1];
    if |p| > 2 {
      assert IsWalk(q, n) && q[0] == p[0] && q[1] == p[1];
      FirstStepBound(M, n, q);
      var last := M[p[|p| - 2]][p[|p| - 1]];
      assert WalkCost(M, n, p) == Add(WalkCost(M, n, q), last);
      assert NonNegative(last);
      LessEqTransitive(M[p[0]][p[1]], WalkCost(M, n, q), WalkCost(M, n, p));
    } else {
      assert WalkCost(M, n, q) == Fin(0);
    }
  }

  /** A node whose whole row starts at `Infinity` cannot walk back to
      itself: relaxation leaves its diagonal entry at `Infinity`. */
  lemma NoWayBack(M0: Matrix, n: nat, x: nat)
    requires Square(M0, n) && NonNeg(M0, n) && x < n
    requires forall j :: 0 <= j < n ==> M0[x][j] == Inf
    ensures FloydPass(M0, n, n)[x][x] == Inf
  {
    var F: Matrix := FloydPass(M0, n, n);
    FloydShortest(M0, n, x, x);
    if F[x][x].Fin? {
      var p :| IsWalk(p, n) && p[0] == x && p[|p| - 1] == x && WalkCost(M0, n, p) == F[x][x];
      FirstStepBound(M0, n, p);
    }
  }

  /** As written, `makeGraph(1, 0)`: nodes 0 and 1 and the one path edge
      0 -> 1. Only (0, 0) is zeroed, and node 1 ends `Infinity` away from
      itself. */
  lemma LastDiagonalInfinite()
    ensures var M0 := StartMatrix([Edge(0, 1, 10)], 2);
      M0[1][1] == Inf && FloydPass(M0, 2, 2)[1][1] == Inf
  {
    var edges := [Edge(0, 1, 10)];
    SetupNone(edges, 2, 1, 0);
    SetupNone(edges, 2, 1, 1);
    StartNonNeg(edges, 2);
    NoWayBack(StartMatrix(edges, 2), 2, 1);
  }

  /** When the diagonal entry of x is the least entry of its row, every walk
      from x back to x costs at least that much, and relaxation keeps it. */
  lemma DiagonalKept(M0: Matrix, n: nat, x: nat, w: nat)
    requires Square(M0, n) && NonNeg(M0, n) && x < n
    requires M0[x][x] == Fin(w) && forall j :: 0 <= j < n ==> LessEq(Fin(w), M0[x][j])
    ensures FloydPass(M0, n, n)[x][x] == Fin(w)
  {
    var F: Matrix := FloydPass(M0, n, n);
    FloydNeverIncreases(M0, n, n);
    FloydShortest(M0, n, x, x);
    assert LessEq(F[x][x], M0[x][x]);
    var p :| IsWalk(p, n) && p[0] == x && p[|p| - 1] == x && WalkCost(M0, n, p) == F[x][x];
    FirstStepBound(M0, n, p);
  }

  /** As written, `makeGraph(2, 1)` drawing the self-loop 0 -> 0 as its extra
      connection: the loop's weight overwrites the zero at (0, 0), and the
      relaxation reports it as the distance from 0 to itself. */
  lemma SelfLoopOverwritesZero()
    ensures var M0 := StartMatrix([Edge(0, 1, 10), Edge(1, 2, 10), Edge(0, 0, 10)], 3);
      M0[0][0] == Fin(10) && FloydPass(M0, 3, 3)[0][0] == Fin(10)
  {
    var edges := [Edge(0, 1, 10), Edge(1, 2, 10), Edge(0, 0, 10)];
    SetupLast(edges, 3, 0, 0, 2);
    SetupLast(edges, 3, 0, 1, 0);
    SetupNone(edges, 3, 0, 2);
    StartNonNeg(edges, 3);
    DiagonalKept(StartMatrix(edges, 3), 3, 0, 10);
  }

  /** The matrix the setup evidently intends: each edge's weight, the last
      edge between a pair winning, and zero at (i, i) for every node. */
  function ZeroDiagonal(edges: seq<Edge>, n: nat): (M: Matrix)
    ensures Square(M, n)
  {
    seq(n, i requires 0 <= i < n => seq(n, j requires 0 <= j < n =>
      if i == j then Fin(0) else Val(Setup(edges, n, i, j))))
  }

  /** From the intended matrix, with non-negative weights, every node ends at
      distance zero from itself. */
  lemma DiagonalStaysZero(edges: seq<Edge>, n: nat, x: nat)
    requires NonNegWeights(edges) && x < n
    ensures FloydPass(ZeroDiagonal(edges, n), n, n)[x][x] == Fin(0)
  {
    var M0 := ZeroDiagonal(edges, n);
    forall i, j | 0 <= i < n && 0 <= j < n
      ensures NonNegative(M0[i][j])
    {
      SetupNonNeg(edges, n, i, j);
    }
    FloydRounds(M0, n, n);
    FloydNeverIncreases(M0, n, n);
  }

  /** The setup as written gives the intended matrix exactly when nothing
      goes wrong: at least as many edges as nodes and no self-loop. */
  lemma AgreesWithoutSelfLoops(edges: seq<Edge>, n: nat)
    requires n <= |edges|
    requires forall t :: 0 <= t < |edges| ==> edges[t].v1 != edges[t].v2
    ensures StartMatrix(edges, n) == ZeroDiagonal(edges, n)
  {
    var A, B := StartMatrix(edges, n), ZeroDiagonal(edges, n);
    forall i | 0 <= i < n
      ensures A[i] == B[i]
    {
      forall j | 0 <= j < n
        ensures A[i][j] == B[i][j]
      {
        if i == j {
          SetupZero(edges, n, i);
        }
      }
    }
  }
}
