/** Shared vocabulary of the model: failure-carrying results, JavaScript's
    `Infinity`-extended numbers, truncating integer division and
    duplicate-free sequences. */
module Common {

  datatype Option<T> = None | Some(value: T)

  /** The ways the modelled JavaScript code throws. */
  datatype Error =
    | TypeError        // property read on `undefined`
    | RangeError       // BigInt raised to a negative power
    | ReferenceError   // read of an undeclared variable
    | NoSmallestNode   // the `Error` thrown by Dijkstra's selector
    | OutOfPicks       // the random stream given to the graph builder ran dry

  datatype Result<T> = Success(value: T) | Failure(error: Error)

  /** A JavaScript number as the algorithms use it: an integer or `Infinity`. */
  datatype Weight = Fin(n: int) | Inf

  /** `a + b` on JavaScript numbers (no `-Infinity` arises: weights are finite or `+Infinity`). */
  function Add(a: Weight, b: Weight): (r: Weight)
    ensures r.Inf? <==> a.Inf? || b.Inf?
    ensures r.Fin? ==> r.n == a.n + b.n
  {
    if a.Inf? || b.Inf? then Inf else Fin(a.n + b.n)
  }

  /** `a < b` on JavaScript numbers. */
  predicate Less(a: Weight, b: Weight)
  {
    match (a, b)
    case (Fin(x), Fin(y)) => x < y
    case (Fin(_), Inf) => true
    case (Inf, _) => false
  }

  /** `a <= b` on JavaScript numbers. */
  predicate LessEq(a: Weight, b: Weight)
  {
    !Less(b, a)
  }

  predicate NonNegative(a: Weight)
  {
    a.Fin? ==> a.n >= 0
  }

  lemma LessEqTransitive(a: Weight, b: Weight, c: Weight)
    requires LessEq(a, b) && LessEq(b, c)
    ensures LessEq(a, c)
  {
  }

  lemma AddMonotone(a: Weight, b: Weight, c: Weight, d: Weight)
    requires LessEq(a, c) && LessEq(b, d)
    ensures LessEq(Add(a, b), Add(c, d))
  {
  }

  /** Integer division truncating toward zero, as JavaScript's BigInt `/` does
      (Dafny's own `/` is Euclidean and differs for negative operands). */
  function TDiv(a: int, b: int): (r: int)
    requires b != 0
  {
    if b > 0 then
      if a >= 0 then a / b else -((-a) / b)
    else
      if a >= 0 then -(a / -b) else (-a) / -b
  }

  /** What truncation means: the magnitude of the quotient is the floor of the
      magnitudes' quotient, and a non-zero quotient is negative exactly when the
      operands' signs differ. */
  lemma TDivTruncates(a: int, b: int)
    requires b != 0
    ensures Abs(TDiv(a, b)) == Abs(a) / Abs(b)
    ensures TDiv(a, b) == 0 || (TDiv(a, b) > 0 <==> (a > 0 <==> b > 0))
  {
    NonNegativeQuotient(Abs(a), Abs(b));
  }

  lemma NonNegativeQuotient(x: int, y: int)
    requires 0 <= x && 0 < y
    ensures 0 <= x / y
    ensures x == 0 ==> x / y == 0
  {
  }

  /** `b ** e` on BigInts with a non-negative exponent. */
  function Pow(b: int, e: nat): (r: int)
    ensures b > 0 ==> r > 0
  {
    if e == 0 then 1 else b * Pow(b, e - 1)
  }

  lemma MulDistinct(m: int, x: int, y: int)
    requires m > 0 && x < y
    ensures m * x + m <= m * y
  {
    var t := y - x - 1;
    assert 0 <= m * t;
    assert m * y == m * x + m * t + m;
  }

  /** The quotient of Euclidean division is determined by the remainder's range. */
  lemma DivUnique(a: int, m: int, q: int, r: int)
    requires m > 0 && a == m * q + r && 0 <= r < m
    ensures a / m == q
  {
    var q', r' := a / m, a % m;
    assert a == m * q' + r' && 0 <= r' < m;
    if q' < q {
      MulDistinct(m, q', q);
    } else if q' > q {
      MulDistinct(m, q, q');
    }
  }

  /** Dividing twice is dividing once by the product. */
  lemma DivDiv(a: nat, p: int, d: int)
    requires p > 0 && d > 0
    ensures a / p / d == a / (p * d)
  {
    var q1, r1 := a / p, a % p;
    var q2, r2 := q1 / d, q1 % d;
    assert a == p * q1 + r1 && 0 <= r1 < p;
    assert q1 == d * q2 + r2 && 0 <= r2 < d;
    var pd := p * d;
    assert p * q1 == pd * q2 + p * r2 by {
      assert p * (d * q2 + r2) == p * (d * q2) + p * r2;
      assert p * (d * q2) == pd * q2;
    }
    assert p * r2 + p <= pd by {
      MulDistinct(p, r2, d);
    }
    assert a == pd * q2 + (p * r2 + r1);
    DivUnique(a, pd, q2, p * r2 + r1);
  }

  function Abs(x: int): (r: int)
    ensures 0 <= r && (r == x || r == -x)
  {
    if x < 0 then -x else x
  }

  /** No value occurs twice. */
  predicate NoDup<T(==)>(s: seq<T>)
  {
    forall i, j :: 0 <= i < j < |s| ==> s[i] != s[j]
  }

  lemma NoDupAppend<T>(s: seq<T>, x: T)
    requires NoDup(s) && x !in s
    ensures NoDup(s + [x])
  {
  }

  lemma NoDupConcat<T>(s: seq<T>, t: seq<T>)
    requires NoDup(s) && NoDup(t)
    requires forall x :: x in t ==> x !in s
    ensures NoDup(s + t)
  {
    forall i, j | 0 <= i < j < |s + t|
      ensures (s + t)[i] != (s + t)[j]
    {
      if i < |s| && j >= |s| {
        assert (s + t)[j] in t;
      }
    }
  }

  /** `s.push(x)` guarded by `s.includes(x)`: append only when absent. */
  function AppendIfAbsent(s: seq<nat>, x: nat): (r: seq<nat>)
    ensures x in r
    ensures NoDup(s) ==> NoDup(r)
    ensures forall y :: y in r <==> y in s || y == x
    ensures |s| <= |r| && r[..|s|] == s
  {
    if x in s then s else s + [x]
  }

  /** A duplicate-free sequence has as many elements as the set of its elements. */
  lemma {:induction false} NoDupCardinality<T>(s: seq<T>, a: set<T>)
    requires NoDup(s) && forall x :: x in a <==> x in s
    ensures |a| == |s|
  {
    if s != [] {
      var last := s[|s| - 1];
      var init := s[..|s| - 1];
      assert s == init + [last];
      assert NoDup(init);
      assert last !in init;
      NoDupCardinality(init, a - {last});
    }
  }

  lemma {:induction false} SetCardinalityMonotone<T>(a: set<T>, b: set<T>)
    requires a <= b
    ensures |a| <= |b|
    ensures a != b ==> |a| < |b|
    decreases a
  {
    if a != {} {
      var x :| x in a;
      SetCardinalityMonotone(a - {x}, b - {x});
    }
  }

  lemma SubsetCardinality<T>(s: seq<T>, t: seq<T>)
    requires NoDup(s) && NoDup(t)
    requires forall x :: x in s ==> x in t
    ensures |s| <= |t|
    ensures |s| == |t| ==> forall x :: x in t ==> x in s
  {
    var a, b := set x | x in s, set x | x in t;
    NoDupCardinality(s, a);
    NoDupCardinality(t, b);
    SetCardinalityMonotone(a, b);
    if |s| == |t| {
      assert a == b;
      forall x | x in t ensures x in s {
        assert x in b;
      }
    }
  }
}
