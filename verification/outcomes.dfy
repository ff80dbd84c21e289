/** Outcomes of the library's operations.

A Go `panic` (a runtime index error, a negative `make` length, or one of the
library's own `panic(...)` calls) becomes a `Panic` value carrying the kind of
fault; a normal return becomes `Ok`.
 */
module Outcomes {

  /** The reasons an operation of the library can panic. */
  datatype Fault =
    | IndexOutOfRange     // a slice index outside the slice (e.g. `a[0]` on an empty matrix)
    | NegativeLength      // `make` asked for a negative length
    | BadDimensions       // Clr's own "bad dimensions" panic
    | NegativeFactorial   // fact's own "factorial not defined for negative numbers" panic

  /** A normal return or a panic; failure-compatible, so `:-` propagates panics. */
  datatype Result<+T> = Ok(value: T) | Panic(fault: Fault) {

    predicate IsFailure() {
      Panic?
    }

    function PropagateFailure<U>(): Result<U>
      requires Panic?
    {
      Panic(fault)
    }

    function Extract(): T
      requires Ok?
    {
      value
    }
  }
}
