/** The integer helpers of fn.go: minimum, maximum, sign, absolute value and
factorial. Go's `int` is modelled by Dafny's unbounded `int`. */
module Fn {
  import opened Outcomes

  /** `imin`: the smaller of two integers (the second one on a tie). */
  function IMin(a: int, b: int): (r: int)
    ensures r == a || r == b
    ensures r <= a && r <= b
  {
    if a < b then a else b
  }

  /** `imax`: the larger of two integers (the second one on a tie). */
  function IMax(a: int, b: int): (r: int)
    ensures r == a || r == b
    ensures r >= a && r >= b
  {
    if a > b then a else b
  }

  /** Together the two helpers split a pair: one gets each argument. */
  lemma MinPlusMax(a: int, b: int)
    ensures IMin(a, b) + IMax(a, b) == a + b
    ensures IMin(a, b) <= IMax(a, b)
  {
  }

  /** `iSign`: -1, 0 or 1 according to the sign of `a`. */
  function ISign(a: int): (r: int)
    ensures r == 0 <==> a == 0
    ensures r == -1 <==> a < 0
    ensures r == 1 <==> a > 0
  {
    if a == 0 then 0
    else if a < 0 then -1
    else 1
  }

  /** `iAbs`: the absolute value, which is `n` with its sign removed. */
  function IAbs(n: int): (r: int)
    ensures r >= 0
    ensures r == n || r == -n
    ensures r == ISign(n) * n
  {
    if n < 0 then -n
    else if n == 0 then 0
    else n
  }

  /** The factorial n! = 1 * 2 * ... * n, the reference definition that the
      comment on `fact` promises. */
  function Factorial(n: nat): nat
  {
    if n == 0 then 1 else n * Factorial(n - 1)
  }

  lemma {:induction false} FactorialAtLeast(n: nat)
    ensures Factorial(n) >= 1
    ensures Factorial(n) >= n
  {
    if n > 0 {
      FactorialAtLeast(n - 1);
    }
  }

  /** The loop of `fact` as written: `n - i` more rounds of `f *= f`.
      Squaring keeps 0 and 1 where they are. */
  function SquareRounds(f: int, i: int, n: int): (r: int)
    decreases n - i
    ensures f == 0 || f == 1 ==> r == f
    ensures f >= 0 ==> r >= 0
  {
    if i < n then SquareRounds(f * f, i + 1, n) else f
  }

  /** `fact` exactly as written: it panics on a negative argument, returns 1 for
      0, and otherwise squares `f` starting from 1, so it always yields 1. */
  function FactAsWritten(n: int): (r: Result<int>)
    ensures r.Panic? <==> n < 0
    ensures r.Panic? ==> r.fault == NegativeFactorial
    ensures n >= 0 ==> r == Ok(1)
  {
    if n < 0 then Panic(NegativeFactorial)
    else if n == 0 then Ok(1)
    else Ok(SquareRounds(1, 0, n))
  }

  /** The defect: for every n >= 2 the value `fact` returns is not n!. */
  lemma FactAsWrittenIsNotFactorial(n: nat)
    requires n >= 2
    ensures FactAsWritten(n) != Ok(Factorial(n))
  {
    FactorialAtLeast(n);
  }

  /** A concrete witness of the defect: fact(3) is 1 where 3! is 6. */
  lemma FactOfThree()
    ensures FactAsWritten(3) == Ok(1)
    ensures Factorial(3) == 6
  {
  }

  /** `fact` with the loop body corrected to multiply by the next factor. */
  method Fact(n: int) returns (r: Result<int>)
    ensures r.Panic? <==> n < 0
    ensures r.Panic? ==> r.fault == NegativeFactorial
    ensures n >= 0 ==> r == Ok(Factorial(n))
  {
    if n < 0 {
      return Panic(NegativeFactorial);
    }
    if n == 0 {
      return Ok(1);
    }
    var f := 1;
    var i := 0;
    while i < n
      invariant 0 <= i <= n
      invariant f == Factorial(i)
    {
      f := f * (i + 1);
      i := i + 1;
    }
    return Ok(f);
  }
}
