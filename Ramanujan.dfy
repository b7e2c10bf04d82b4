/** `ramanujanPi` (Lab5/ramanujan.js): pi = 6 * arcsin(1/2) summed in fixed
    point on BigInts. `x` is the current term, scaled by 3 * 10^n, and `i`
    runs over the odd numbers. Every value stays non-negative, so BigInt
    division coincides with Dafny's `/` here. */
module Ramanujan {
  import opened Common

  /** Initial `x = pi = 3 * 10 ** n`. */
  function Start(n: nat): (x: int)
    ensures x > 0
  {
    3 * Pow(10, n)
  }

  /** `x` at the start of iteration k: `x = x * i / ((i + 1) * 4)` with `i = 2k + 1`. */
  function Term(n: nat, k: nat): (x: int)
    ensures x >= 0
  {
    if k == 0 then Start(n)
    else
      var i := 2 * k - 1;
      NonNegativeQuotient(Term(n, k - 1) * i, (i + 1) * 4);
      Term(n, k - 1) * i / ((i + 1) * 4)
  }

  /** The sum the loop adds to `pi` from iteration k on: each iteration adds
      the new term divided by `i + 2`; the loop stops once the term is 0. */
  function Tail(n: nat, k: nat): int
    decreases Term(n, k)
  {
    if Term(n, k) == 0 then 0
    else
      TermShrinks(n, k);
      Term(n, k + 1) / (2 * k + 3) + Tail(n, k + 1)
  }

  /** The model of `ramanujanPi(n)`. A negative `n` is a RangeError of `**` on BigInts. */
  method RamanujanPi(n: int) returns (r: Result<int>)
    ensures n < 0 <==> r == Failure(RangeError)
    ensures n >= 0 ==> r == Success((Start(n) + Tail(n, 0)) / 1000)
    ensures n >= 0 ==> r.value >= Start(n) / 1000
  {
    if n < 0 {
      return Failure(RangeError);
    }
    var pi := SumSeries(n);
    return Success(pi / Pow(10, 3));
  }

  /** The `while (x > 0)` loop of `ramanujanPi`, from `i = 1`, `x = pi = 3 * 10^n` on. */
  method SumSeries(n: nat) returns (pi: int)
    ensures pi == Start(n) + Tail(n, 0)
    ensures pi >= Start(n)
  {
    var i := 1;
    var x := Start(n);
    pi := x;
    ghost var k: nat := 0;
    while x > 0
      invariant i == 2 * k + 1
      invariant x == Term(n, k)
      invariant pi + Tail(n, k) == Start(n) + Tail(n, 0)
      invariant pi >= Start(n)
      decreases x
    {
      TailStep(n, k);
      x := x * i / ((i + 1) * 4);
      pi := pi + x / (i + 2);
      i := i + 2;
      k := k + 1;
    }
  }

  /** One iteration of the loop, seen through the functions above. */
  lemma TailStep(n: nat, k: nat)
    requires Term(n, k) > 0
    ensures Term(n, k + 1) == Term(n, k) * (2 * k + 1) / ((2 * k + 2) * 4)
    ensures Term(n, k + 1) < Term(n, k)
    ensures Tail(n, k) == Term(n, k + 1) / (2 * k + 3) + Tail(n, k + 1)
    ensures Term(n, k + 1) / (2 * k + 3) >= 0
  {
    TermShrinks(n, k);
    NonNegativeQuotient(Term(n, k + 1), 2 * k + 3);
  }

  /** While positive, the term strictly shrinks: x * i < x * 4 * (i + 1). */
  lemma TermShrinks(n: nat, k: nat)
    requires Term(n, k) > 0
    ensures Term(n, k + 1) < Term(n, k)
  {
    var x, i := Term(n, k), 2 * k + 1;
    var q := x * i / ((i + 1) * 4);
    assert Term(n, k + 1) == q;
    assert (i + 1) * 4 * q <= x * i;
    assert x * i < x * ((i + 1) * 4) by {
      MulDistinct(x, i, (i + 1) * 4);
    }
    if q >= x {
      assert (i + 1) * 4 * q >= (i + 1) * 4 * x by {
        if q > x {
          MulDistinct((i + 1) * 4, x, q);
        }
      }
    }
  }

  /** Every addend `x / (i + 2)` is non-negative, so the series never pulls `pi` below 3 * 10^n. */
  lemma {:induction false} TailNonNegative(n: nat, k: nat)
    ensures Tail(n, k) >= 0
    decreases Term(n, k)
  {
    if Term(n, k) > 0 {
      TermShrinks(n, k);
      TailNonNegative(n, k + 1);
      NonNegativeQuotient(Term(n, k + 1), 2 * k + 3);
    }
  }
}
