/**
 Shared vocabulary of the five root finders: Python's `abs`, the literal
 threshold of the bracketing methods, and the outcome of one run.

 A Python float is modelled as a Dafny `real` (exact arithmetic). The
 source loops `while True` without a bound; every run here carries a
 `fuel` bound on the number of iterations, and a run that would need more
 ends in `OutOfFuel` with the rows produced so far.
 */
module Numeric {

  /** Python's built-in `abs` on a float. */
  function Abs(x: real): (r: real)
    ensures r >= 0.0
    ensures r == x || r == -x
  {
    if x < 0.0 then -x else x
  }

  /** `a * b` on floats. Products and quotients of values of `f` are written
      through these two names so that rows and proofs refer to the source's
      `fxl * fxm` and its divisions by one name each; Dafny unfolds them
      like any other function. */
  function Times(a: real, b: real): real
  {
    a * b
  }

  function Quotient(a: real, b: real): real
    requires b != 0.0
  {
    a / b
  }

  /** The literal `0.0000004` the bisection and regula falsi loops compare
      `abs(f(xl) * f(xm))` against. */
  const ProductTolerance: real := 0.0000004

  /** What one run of a root finder ends with.
      - `Converged`: the pair `(iteration_data, root)` the Python function returns;
      - `ZeroDenominator`: the step numbered `iteration` divides by zero
        (the run is aborted and keeps no table);
      - `OutOfFuel`: the fuel bound was reached before the stopping rule held. */
  datatype Outcome<Row> =
    | Converged(trace: seq<Row>, root: real)
    | ZeroDenominator(iteration: nat)
    | OutOfFuel(trace: seq<Row>)

  /** Puts `rows` in front of the table of `o`; an aborted run stays aborted. */
  function Prepend<Row>(rows: seq<Row>, o: Outcome<Row>): Outcome<Row>
  {
    match o
    case Converged(t, root) => Converged(rows + t, root)
    case ZeroDenominator(k) => o
    case OutOfFuel(t) => OutOfFuel(rows + t)
  }

  lemma PrependTwice<Row>(a: seq<Row>, b: seq<Row>, o: Outcome<Row>)
    ensures Prepend(a, Prepend(b, o)) == Prepend(a + b, o)
  {
    match o
    case Converged(t, root) => assert a + (b + t) == (a + b) + t;
    case ZeroDenominator(k) =>
    case OutOfFuel(t) => assert a + (b + t) == (a + b) + t;
  }

  function Last<T>(s: seq<T>): T
    requires s != []
  {
    s[|s| - 1]
  }
}
