/** The distance matrix of lab7/index.js `_floyd` as a value: an n-by-n
    matrix of JavaScript numbers (`Infinity` for no edge), the in-place
    relaxation the source performs cell by cell, and what it computes when no
    weight is negative: the least weight of a walk in the starting matrix. */
module Relaxation {
  import opened Common

  type Matrix = seq<seq<Weight>>

  predicate Square(M: Matrix, n: nat)
  {
    |M| == n && forall i :: 0 <= i < n ==> |M[i]| == n
  }

  function Min(a: Weight, b: Weight): (r: Weight)
    ensures LessEq(r, a) && LessEq(r, b) && (r == a || r == b)
  {
    if Less(b, a) then b else a
  }

  /** Line 59 on cell (i, j): replace `dist[i][j]` when going through k is
      strictly shorter. */
  function Update(M: Matrix, n: nat, k: nat, i: nat, j: nat): (r: Matrix)
    requires Square(M, n) && k < n && i < n && j < n
    ensures Square(r, n)
    ensures forall a, b :: 0 <= a < n && 0 <= b < n && (a != i || b != j) ==> r[a][b] == M[a][b]
    ensures r[i][j] == Min(M[i][j], Add(M[i][k], M[k][j]))
  {
    var via := Add(M[i][k], M[k][j]);
    if Less(via, M[i][j]) then M[i := M[i][j := via]] else M
  }

  /** The innermost loop of `_floyd`: cells (i, 0) .. (i, j - 1), in order. */
  function RowPass(M: Matrix, n: nat, k: nat, i: nat, j: nat): (r: Matrix)
    requires Square(M, n) && k < n && i < n && j <= n
    ensures Square(r, n)
  {
    if j == 0 then M else Update(RowPass(M, n, k, i, j - 1), n, k, i, j - 1)
  }

  /** The middle loop of `_floyd`: rows 0 .. i - 1, each in full. */
  function RoundPass(M: Matrix, n: nat, k: nat, i: nat): (r: Matrix)
    requires Square(M, n) && k < n && i <= n
    ensures Square(r, n)
  {
    if i == 0 then M else RowPass(RoundPass(M, n, k, i - 1), n, k, i - 1, n)
  }

  /** The outer loop of `_floyd`: rounds 0 .. k - 1. */
  function FloydPass(M: Matrix, n: nat, k: nat): (r: Matrix)
    requires Square(M, n) && k <= n
    ensures Square(r, n)
  {
    if k == 0 then M else RoundPass(FloydPass(M, n, k - 1), n, k - 1, n)
  }

  /** Every entry of M is at most the matching entry of N. */
  ghost predicate Below(M: Matrix, N: Matrix, n: nat)
    requires Square(M, n) && Square(N, n)
  {
    forall i, j :: 0 <= i < n && 0 <= j < n ==> LessEq(M[i][j], N[i][j])
  }

  ghost predicate NonNeg(M: Matrix, n: nat)
    requires Square(M, n)
  {
    forall i, j :: 0 <= i < n && 0 <= j < n ==> NonNegative(M[i][j])
  }

  lemma BelowTrans(M: Matrix, N: Matrix, P: Matrix, n: nat)
    requires Square(M, n) && Square(N, n) && Square(P, n)
    requires Below(M, N, n) && Below(N, P, n)
    ensures Below(M, P, n)
  {
    forall i, j | 0 <= i < n && 0 <= j < n
      ensures LessEq(M[i][j], P[i][j])
    {
      LessEqTransitive(M[i][j], N[i][j], P[i][j]);
    }
  }

  lemma {:induction false} RowPassBelow(M: Matrix, n: nat, k: nat, i: nat, j: nat)
    requires Square(M, n) && k < n && i < n && j <= n
    ensures Below(RowPass(M, n, k, i, j), M, n)
  {
    if j > 0 {
      var P := RowPass(M, n, k, i, j - 1);
      RowPassBelow(M, n, k, i, j - 1);
      BelowTrans(Update(P, n, k, i, j - 1), P, M, n);
    }
  }

  lemma {:induction false} RoundPassBelow(M: Matrix, n: nat, k: nat, i: nat)
    requires Square(M, n) && k < n && i <= n
    ensures Below(RoundPass(M, n, k, i), M, n)
  {
    if i > 0 {
      var P := RoundPass(M, n, k, i - 1);
      RoundPassBelow(M, n, k, i - 1);
      RowPassBelow(P, n, k, i - 1, n);
      BelowTrans(RowPass(P, n, k, i - 1, n), P, M, n);
    }
  }

  /** `_floyd` never increases an entry, whatever the weights. */
  lemma {:induction false} FloydNeverIncreases(M: Matrix, n: nat, k: nat)
    requires Square(M, n) && k <= n
    ensures Below(FloydPass(M, n, k), M, n)
  {
    if k > 0 {
      var P := FloydPass(M, n, k - 1);
      FloydNeverIncreases(M, n, k - 1);
      RoundPassBelow(P, n, k - 1, n);
      BelowTrans(RoundPass(P, n, k - 1, n), P, M, n);
    }
  }

  /** Round k of the textbook algorithm, every cell computed from the
      matrix as it was before the round. */
  function Relax(M: Matrix, n: nat, k: nat): (r: Matrix)
    requires Square(M, n) && k < n
    ensures Square(r, n)
  {
    seq(n, i requires 0 <= i < n =>
      seq(n, j requires 0 <= j < n => Min(M[i][j], Add(M[i][k], M[k][j]))))
  }

  /** Before the pass reaches cell (i, j) of round k, the cells already
      visited hold the textbook round's values and the rest are untouched. */
  ghost predicate DoneUpTo(M: Matrix, P: Matrix, n: nat, k: nat, i: nat, j: nat)
    requires Square(M, n) && Square(P, n) && k < n
  {
    forall a, b {:trigger P[a][b]} :: 0 <= a < n && 0 <= b < n ==>
      P[a][b] == if a < i || (a == i && b < j) then Min(M[a][b], Add(M[a][k], M[k][b])) else M[a][b]
  }

  /** With a non-negative diagonal entry k, row k and column k keep their
      values in round k. */
  lemma PivotFixed(x: Weight, kk: Weight)
    requires NonNegative(kk)
    ensures Min(x, Add(x, kk)) == x && Min(x, Add(kk, x)) == x
  {
  }

  lemma {:induction false} RowPassRelax(M: Matrix, P: Matrix, n: nat, k: nat, i: nat, j: nat)
    requires Square(M, n) && Square(P, n) && k < n && i < n && j <= n
    requires NonNegative(M[k][k])
    requires DoneUpTo(M, P, n, k, i, 0)
    ensures DoneUpTo(M, RowPass(P, n, k, i, j), n, k, i, j)
  {
    if j > 0 {
      RowPassRelax(M, P, n, k, i, j - 1);
      var Q := RowPass(P, n, k, i, j - 1);
      PivotFixed(M[i][k], M[k][k]);
      PivotFixed(M[k][j - 1], M[k][k]);
      assert Q[i][k] == M[i][k] && Q[k][j - 1] == M[k][j - 1];
      var R := Update(Q, n, k, i, j - 1);
      forall a, b | 0 <= a < n && 0 <= b < n
        ensures R[a][b] == if a < i || (a == i && b < j) then Min(M[a][b], Add(M[a][k], M[k][b])) else M[a][b]
      {
        if a != i || b != j - 1 {
          assert R[a][b] == Q[a][b];
          assert Q[a][b] == if a < i || (a == i && b < j - 1) then Min(M[a][b], Add(M[a][k], M[k][b])) else M[a][b];
        } else {
          assert Q[a][b] == M[a][b];
        }
      }
    }
  }

  lemma {:induction false} RoundPassRelax(M: Matrix, n: nat, k: nat, i: nat)
    requires Square(M, n) && k < n && i <= n
    requires NonNegative(M[k][k])
    ensures DoneUpTo(M, RoundPass(M, n, k, i), n, k, i, 0)
  {
    if i > 0 {
      RoundPassRelax(M, n, k, i - 1);
      var P := RoundPass(M, n, k, i - 1);
      RowPassRelax(M, P, n, k, i - 1, n);
      var Q := RowPass(P, n, k, i - 1, n);
      assert RoundPass(M, n, k, i) == Q;
      forall a, b | 0 <= a < n && 0 <= b < n
        ensures Q[a][b] == if a < i then Min(M[a][b], Add(M[a][k], M[k][b])) else M[a][b]
      {
        assert Q[a][b] == if a < i - 1 || (a == i - 1 && b < n) then Min(M[a][b], Add(M[a][k], M[k][b])) else M[a][b];
      }
    }
  }

  /** With a non-negative diagonal entry k the in-place round is the
      textbook round. */
  lemma RoundIsRelax(M: Matrix, n: nat, k: nat)
    requires Square(M, n) && k < n && NonNegative(M[k][k])
    ensures RoundPass(M, n, k, n) == Relax(M, n, k)
  {
    RoundPassRelax(M, n, k, n);
    var P, R := RoundPass(M, n, k, n), Relax(M, n, k);
    forall a | 0 <= a < n
      ensures P[a] == R[a]
    {
      assert forall b :: 0 <= b < n ==> P[a][b] == R[a][b];
    }
  }

  /** M[i][j] <= M[i][m] + M[m][j] for every pivot m below k. */
  ghost predicate Triangle(M: Matrix, n: nat, k: nat)
    requires Square(M, n)
  {
    forall i, j, m :: 0 <= i < n && 0 <= j < n && 0 <= m < k && m < n ==>
      LessEq(M[i][j], Add(M[i][m], M[m][j]))
  }

  /** The arithmetic behind one cell of RelaxTriangle, for an older pivot m. */
  lemma RelaxCell(ij: Weight, ik: Weight, kj: Weight, im: Weight, mj: Weight, mk: Weight, km: Weight)
    requires NonNegative(ik) && NonNegative(kj) && NonNegative(im) && NonNegative(mj)
    requires NonNegative(mk) && NonNegative(km)
    requires LessEq(ij, Add(im, mj)) && LessEq(ik, Add(im, mk)) && LessEq(kj, Add(km, mj))
    ensures LessEq(Min(ij, Add(ik, kj)), Add(Min(im, Add(ik, km)), Min(mj, Add(mk, kj))))
  {
  }

  /** The arithmetic behind one cell of RelaxTriangle, for the pivot k itself. */
  lemma RelaxPivotCell(ij: Weight, ik: Weight, kj: Weight, kk: Weight)
    requires NonNegative(kk)
    ensures LessEq(Min(ij, Add(ik, kj)), Add(Min(ik, Add(ik, kk)), Min(kj, Add(kk, kj))))
  {
  }

  /** A textbook round keeps entries non-negative, lowers none and adds the
      triangle inequality through its pivot. */
  lemma RelaxTriangle(M: Matrix, n: nat, k: nat)
    requires Square(M, n) && k < n && NonNeg(M, n) && Triangle(M, n, k)
    ensures NonNeg(Relax(M, n, k), n)
    ensures Triangle(Relax(M, n, k), n, k + 1)
  {
    var R: Matrix := Relax(M, n, k);
    forall i, j, m | 0 <= i < n && 0 <= j < n && 0 <= m < k + 1 && m < n
      ensures LessEq(R[i][j], Add(R[i][m], R[m][j]))
    {
      if m == k {
        RelaxPivotCell(M[i][j], M[i][k], M[k][j], M[k][k]);
      } else {
        RelaxCell(M[i][j], M[i][k], M[k][j], M[i][m], M[m][j], M[m][k], M[k][m]);
      }
    }
  }

  /** A walk through the matrix: at least one step, every index below n. */
  predicate IsWalk(p: seq<nat>, n: nat)
  {
    |p| >= 2 && forall t :: 0 <= t < |p| ==> p[t] < n
  }

  /** The sum of the matrix entries along the walk's steps. */
  function WalkCost(M: Matrix, n: nat, p: seq<nat>): Weight
    requires Square(M, n) && |p| >= 1 && forall t :: 0 <= t < |p| ==> p[t] < n
  {
    if |p| == 1 then Fin(0) else Add(WalkCost(M, n, p[..|p| - 1]), M[p[|p| - 2]][p[|p| - 1]])
  }

  lemma AddAssoc(a: Weight, b: Weight, c: Weight)
    ensures Add(Add(a, b), c) == Add(a, Add(b, c))
  {
  }

  /** Walking p and then q costs the sum. */
  lemma {:induction false} WalkCostConcat(M: Matrix, n: nat, p: seq<nat>, q: seq<nat>)
    requires Square(M, n) && IsWalk(p, n) && IsWalk(q, n) && p[|p| - 1] == q[0]
    ensures IsWalk(p + q[1..], n)
    ensures WalkCost(M, n, p + q[1..]) == Add(WalkCost(M, n, p), WalkCost(M, n, q))
    decreases |q|
  {
    var r := p + q[1..];
    if |q| == 2 {
      assert r[..|r| - 1] == p;
    } else {
      var q' := q[..|q| - 1];
      WalkCostConcat(M, n, p, q');
      assert r[..|r| - 1] == p + q'[1..];
      assert q'[..|q'|] == q';
      AddAssoc(WalkCost(M, n, p), WalkCost(M, n, q'), M[q[|q| - 2]][q[|q| - 1]]);
    }
  }

  /** Some walk from i to j costs c in M0. */
  ghost predicate WalkTo(M0: Matrix, n: nat, i: nat, j: nat, c: Weight)
    requires Square(M0, n)
  {
    exists p :: IsWalk(p, n) && p[0] == i && p[|p| - 1] == j && WalkCost(M0, n, p) == c
  }

  /** Every finite entry of M is the cost of a walk from row to column in M0. */
  ghost predicate Sound(M: Matrix, M0: Matrix, n: nat)
    requires Square(M, n) && Square(M0, n)
  {
    forall i, j :: 0 <= i < n && 0 <= j < n && M[i][j].Fin? ==> WalkTo(M0, n, i, j, M[i][j])
  }

  lemma StartSound(M0: Matrix, n: nat)
    requires Square(M0, n)
    ensures Sound(M0, M0, n)
  {
    forall i, j | 0 <= i < n && 0 <= j < n && M0[i][j].Fin?
      ensures WalkTo(M0, n, i, j, M0[i][j])
    {
      var p := [i, j];
      assert p[..1] == [i];
      assert WalkCost(M0, n, p) == M0[i][j];
    }
  }

  /** Walks through k compose. */
  lemma WalkThrough(M0: Matrix, n: nat, i: nat, k: nat, j: nat, a: Weight, b: Weight)
    requires Square(M0, n) && WalkTo(M0, n, i, k, a) && WalkTo(M0, n, k, j, b)
    ensures WalkTo(M0, n, i, j, Add(a, b))
  {
    var p :| IsWalk(p, n) && p[0] == i && p[|p| - 1] == k && WalkCost(M0, n, p) == a;
    var q :| IsWalk(q, n) && q[0] == k && q[|q| - 1] == j && WalkCost(M0, n, q) == b;
    WalkCostConcat(M0, n, p, q);
    var r := p + q[1..];
    assert r[0] == i && r[|r| - 1] == j;
    assert IsWalk(r, n) && WalkCost(M0, n, r) == Add(a, b);
  }

  /** A finite entry lowered through k is the cost of a walk through k. */
  lemma RelaxSound(M: Matrix, M0: Matrix, n: nat, k: nat)
    requires Square(M, n) && Square(M0, n) && k < n && Sound(M, M0, n)
    ensures Sound(Relax(M, n, k), M0, n)
  {
    var R: Matrix := Relax(M, n, k);
    forall i, j | 0 <= i < n && 0 <= j < n && R[i][j].Fin?
      ensures WalkTo(M0, n, i, j, R[i][j])
    {
      if R[i][j] != M[i][j] {
        WalkThrough(M0, n, i, k, j, M[i][k], M[k][j]);
      }
    }
  }

  /** What the first k rounds establish on a matrix without negative entries. */
  ghost predicate Rounds(M: Matrix, M0: Matrix, n: nat, k: nat)
    requires Square(M, n) && Square(M0, n)
  {
    NonNeg(M, n) && Triangle(M, n, k) && Sound(M, M0, n)
  }

  lemma {:induction false} FloydRounds(M0: Matrix, n: nat, k: nat)
    requires Square(M0, n) && k <= n && NonNeg(M0, n)
    ensures Rounds(FloydPass(M0, n, k), M0, n, k)
  {
    if k == 0 {
      StartSound(M0, n);
      assert FloydPass(M0, n, 0) == M0;
    } else {
      FloydRounds(M0, n, k - 1);
      NextRound(M0, n, k - 1);
    }
  }

  /** Round k of the outer loop keeps what the earlier rounds established
      and adds pivot k. */
  lemma NextRound(M0: Matrix, n: nat, k: nat)
    requires Square(M0, n) && k < n && Rounds(FloydPass(M0, n, k), M0, n, k)
    ensures Rounds(FloydPass(M0, n, k + 1), M0, n, k + 1)
  {
    var P := FloydPass(M0, n, k);
    RoundStep(P, M0, n, k);
    var F := FloydPass(M0, n, k + 1);
    assert F == RoundPass(P, n, k, n);
    assert NonNeg(F, n);
    assert Triangle(F, n, k + 1);
    assert Sound(F, M0, n);
  }

  lemma RoundStep(P: Matrix, M0: Matrix, n: nat, k: nat)
    requires Square(P, n) && Square(M0, n) && k < n && Rounds(P, M0, n, k)
    ensures Rounds(RoundPass(P, n, k, n), M0, n, k + 1)
  {
    assert NonNegative(P[k][k]);
    RoundIsRelax(P, n, k);
    RelaxTriangle(P, n, k);
    RelaxSound(P, M0, n, k);
  }

  /** A matrix below M0 that satisfies every triangle inequality is below
      the cost of every walk in M0. */
  lemma {:induction false} BelowWalks(M: Matrix, M0: Matrix, n: nat, p: seq<nat>)
    requires Square(M, n) && Square(M0, n) && Below(M, M0, n) && Triangle(M, n, n)
    requires IsWalk(p, n)
    ensures LessEq(M[p[0]][p[|p| - 1]], WalkCost(M0, n, p))
  {
    var i, x, y := p[0], p[|p| - 2], p[|p| - 1];
    if |p| == 2 {
      assert p[..1] == [i];
    } else {
      var p' := p[..|p| - 1];
      BelowWalks(M, M0, n, p');
      AddMonotone(M[i][x], M[x][y], WalkCost(M0, n, p'), M0[x][y]);
      LessEqTransitive(M[i][y], Add(M[i][x], M[x][y]), WalkCost(M0, n, p));
    }
  }

  /** With no negative entry, `_floyd` leaves in each cell the least cost of
      a walk (of one step or more) from row to column in the starting matrix,
      and `Infinity` exactly when no walk exists. */
  lemma FloydShortest(M0: Matrix, n: nat, i: nat, j: nat)
    requires Square(M0, n) && NonNeg(M0, n) && i < n && j < n
    ensures var F := FloydPass(M0, n, n);
      (forall p :: IsWalk(p, n) && p[0] == i && p[|p| - 1] == j ==> LessEq(F[i][j], WalkCost(M0, n, p))) &&
      (F[i][j].Fin? ==> WalkTo(M0, n, i, j, F[i][j]))
  {
    var F: Matrix := FloydPass(M0, n, n);
    FloydRounds(M0, n, n);
    FloydNeverIncreases(M0, n, n);
    forall p | IsWalk(p, n) && p[0] == i && p[|p| - 1] == j
      ensures LessEq(F[i][j], WalkCost(M0, n, p))
    {
      BelowWalks(F, M0, n, p);
    }
  }
}
