/** `leibnizPi` (Lab5/Leibniz.js): despite its name, Euler's identity
    pi = 4 * (arctan(1/2) + arctan(1/3)) summed in fixed point on BigInts.
    `arg1` carries the arctan(1/2) numerators (divided by -4 each step),
    `arg2` the arctan(1/3) numerators (divided by -9), `inc1` the odd
    denominators; every BigInt division truncates toward zero. */
module Leibniz {
  import opened Common

  /** `n = BigInt(n) / BigInt(2)` followed by `++n`: the power of 100 that scales the sum. */
  function ScaleExponent(n: int): int
  {
    TDiv(n, 2) + 1
  }

  /** Initial `arg1 = 100 ** e * 2`. */
  function FirstArg1(e: nat): int
  {
    Pow(100, e) * 2
  }

  /** Initial `arg2 = arg1 - arg1 / 3`. */
  function FirstArg2(e: nat): int
  {
    FirstArg1(e) - TDiv(FirstArg1(e), 3)
  }

  /** `x` after k executions of `x = x / d` with truncating division. */
  function Iterate(x: int, d: int, k: nat): int
    requires d != 0
  {
    if k == 0 then x else TDiv(Iterate(x, d, k - 1), d)
  }

  /** `arg1` and `arg2` at the start of iteration k (counting from 0). */
  function Arg1(e: nat, k: nat): int
  {
    Iterate(FirstArg1(e), -4, k)
  }

  function Arg2(e: nat, k: nat): int
  {
    Iterate(FirstArg2(e), -9, k)
  }

  /** The sum the loop adds to `pi` from iteration k on. The iteration that
      finds `inc2 == 0` adds `0 / inc1`, that is nothing, and is the last. */
  /** The quantity every iteration that does not stop the loop shrinks. */
  function Size(e: nat, k: nat): nat
  {
    Abs(Arg1(e, k)) + Abs(Arg2(e, k))
  }

  function Tail(e: nat, k: nat): int
    decreases Size(e, k)
  {
    var inc2 := Arg1(e, k) + Arg2(e, k);
    if inc2 == 0 then 0
    else
      ArgsShrink(e, k);
      TDiv(inc2, 2 * k + 1) + Tail(e, k + 1)
  }

  /** The model of `leibnizPi(n)`. A negative exponent is a RangeError of `**` on BigInts. */
  method LeibnizPi(n: int) returns (r: Result<int>)
    ensures ScaleExponent(n) < 0 <==> r == Failure(RangeError)
    ensures ScaleExponent(n) >= 0 ==> r == Success(TDiv(Tail(ScaleExponent(n), 0), Pow(10, 5)))
  {
    var exponent := ScaleExponent(n);
    if exponent < 0 {
      return Failure(RangeError);
    }
    var pi := SumSeries(exponent);
    return Success(TDiv(pi, Pow(10, 5)));
  }

  /** The `while (inc2 !== 0)` loop of `leibnizPi`, from the initial values on. */
  method SumSeries(e: nat) returns (pi: int)
    ensures pi == Tail(e, 0)
  {
    var arg1 := FirstArg1(e);
    var arg2 := FirstArg2(e);
    var inc1, inc2 := 1, 1;
    pi := 0;
    ghost var k: nat := 0;
    while inc2 != 0
      invariant inc1 == 2 * k + 1
      invariant arg1 == Arg1(e, k) && arg2 == Arg2(e, k)
      invariant inc2 != 0 ==> pi + Tail(e, k) == Tail(e, 0)
      invariant inc2 == 0 ==> pi == Tail(e, 0)
      decreases Size(e, k) + (if inc2 == 0 then 0 else 1)
    {
      TailStep(e, k);
      inc2 := arg1 + arg2;
      pi := pi + TDiv(inc2, inc1);
      arg1 := TDiv(arg1, -4);
      arg2 := TDiv(arg2, -9);
      inc1 := inc1 + 2;
      k := k + 1;
    }
  }

  /** One iteration of the loop, seen through the functions above. */
  lemma TailStep(e: nat, k: nat)
    ensures Arg1(e, k + 1) == TDiv(Arg1(e, k), -4) && Arg2(e, k + 1) == TDiv(Arg2(e, k), -9)
    ensures Arg1(e, k) + Arg2(e, k) == 0 ==> Tail(e, k) == 0
    ensures Arg1(e, k) + Arg2(e, k) != 0 ==>
      Tail(e, k) == TDiv(Arg1(e, k) + Arg2(e, k), 2 * k + 1) + Tail(e, k + 1)
      && Size(e, k + 1) < Size(e, k)
  {
    if Arg1(e, k) != 0 || Arg2(e, k) != 0 {
      ArgsShrink(e, k);
    }
  }

  /** Closed form of the numerators: after k truncating divisions by d < 0,
      a non-negative x has become (-1)^k * floor(x / |d|^k). */
  lemma {:induction false} IterateClosedForm(x: nat, d: int, k: nat)
    requires d < 0
    ensures Iterate(x, d, k) == if k % 2 == 0 then x / Pow(-d, k) else -(x / Pow(-d, k))
  {
    if k > 0 {
      IterateClosedForm(x, d, k - 1);
      var y := x / Pow(-d, k - 1);
      NonNegativeQuotient(x, Pow(-d, k - 1));
      DivPowStep(x, -d, k);
      assert Iterate(x, d, k) == TDiv(Iterate(x, d, k - 1), d);
      if k % 2 == 1 {
        assert Iterate(x, d, k - 1) == y;
      } else {
        assert Iterate(x, d, k - 1) == -y;
      }
    }
  }

  lemma DivPowStep(x: nat, m: int, k: nat)
    requires m > 0 && k > 0
    ensures x / Pow(m, k - 1) / m == x / Pow(m, k)
  {
    var p := Pow(m, k - 1);
    DivDiv(x, p, m);
    assert Pow(m, k) == p * m;
  }

  /** Both numerators start positive. */
  lemma FirstArgsPositive(e: nat)
    ensures FirstArg1(e) > 0 && FirstArg2(e) > 0
  {
  }

  /** After k iterations `arg1` and `arg2` are each 0 or of sign (-1)^k, so
      `inc2 = arg1 + arg2` is 0 exactly when both are: the loop stops only once
      both series have run out of digits at this scale. */
  lemma ArgsVanishTogether(e: nat, k: nat)
    ensures Arg1(e, k) == 0 || (Arg1(e, k) > 0 <==> k % 2 == 0)
    ensures Arg2(e, k) == 0 || (Arg2(e, k) > 0 <==> k % 2 == 0)
    ensures Arg1(e, k) + Arg2(e, k) == 0 <==> Arg1(e, k) == 0 && Arg2(e, k) == 0
  {
    FirstArgsPositive(e);
    var y1, y2 := FirstArg1(e) / Pow(4, k), FirstArg2(e) / Pow(9, k);
    NonNegativeQuotient(FirstArg1(e), Pow(4, k));
    NonNegativeQuotient(FirstArg2(e), Pow(9, k));
    IterateClosedForm(FirstArg1(e), -4, k);
    IterateClosedForm(FirstArg2(e), -9, k);
    if k % 2 == 0 {
      assert Arg1(e, k) == y1 && Arg2(e, k) == y2;
    } else {
      assert Arg1(e, k) == -y1 && Arg2(e, k) == -y2;
    }
  }

  /** Each iteration that does not stop the loop strictly shrinks |arg1| + |arg2|. */
  lemma ArgsShrink(e: nat, k: nat)
    requires Arg1(e, k) != 0 || Arg2(e, k) != 0
    ensures Size(e, k + 1) < Size(e, k)
  {
    TDivTruncates(Arg1(e, k), -4);
    TDivTruncates(Arg2(e, k), -9);
  }
}
