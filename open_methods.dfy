/**
 `fixed_point`, `newton` and `secant`: the three open root finders. Each
 keeps one or two iterates, computes the next, appends a row to the table,
 and stops once the step between successive iterates is at most `tol`,
 returning the newest iterate.

 As for the bracketing methods, each method is proved equal to a recursive
 definition of its run, and lemmas relate that run to a declarative
 description of its table in both directions.
 */
module OpenMethods {
  import opened Numeric

  // =====================================================================
  // Fixed point

  /** One row of the fixed-point table: `[iteration, x0, g(x0), abs(x1 - x0)]`. */
  datatype FixedPointRow = FixedPointRow(iteration: nat, xn: real, gxn: real, error: real)

  /** The iteration function `g(x) = x - f(x) / f'(x)` of `fixed_point`. */
  function FixedPointMap(f: real -> real, df: real -> real, x: real): real
    requires df(x) != 0.0
  {
    x - Quotient(f(x), df(x))
  }

  /** The run from the iterate `x0`, numbering rows from `first`, with at
      most `fuel` steps; `g` divides by `f'(x0)`, so a zero derivative aborts. */
  function FixedPointFrom(f: real -> real, df: real -> real, x0: real, tol: real, first: nat, fuel: nat)
    : Outcome<FixedPointRow>
    decreases fuel
  {
    if fuel == 0 then OutOfFuel([])
    else if df(x0) == 0.0 then ZeroDenominator(first)
    else
      var x1 := FixedPointMap(f, df, x0);
      var row := FixedPointRow(first, x0, x1, Abs(x1 - x0));
      if Abs(x1 - x0) <= tol then Converged([row], x1)
      else Prepend([row], FixedPointFrom(f, df, x1, tol, first + 1, fuel - 1))
  }

  /** The run as the loop carries it out: `done` holds the rows already in
      `iteration_data`, and each pass appends one more. */
  function FixedPointLoop(f: real -> real, df: real -> real, done: seq<FixedPointRow>, x0: real, tol: real,
                          first: nat, fuel: nat): Outcome<FixedPointRow>
    decreases fuel
  {
    if fuel == 0 then OutOfFuel(done)
    else if df(x0) == 0.0 then ZeroDenominator(first)
    else
      var x1 := FixedPointMap(f, df, x0);
      var row := FixedPointRow(first, x0, x1, Abs(x1 - x0));
      if Abs(x1 - x0) <= tol then Converged(done + [row], x1)
      else FixedPointLoop(f, df, done + [row], x1, tol, first + 1, fuel - 1)
  }

  /** Carrying the rows along gives the run from the current iterate with
      those rows in front. */
  lemma {:induction false} FixedPointLoopIsFrom(f: real -> real, df: real -> real, done: seq<FixedPointRow>,
                                                x0: real, tol: real, first: nat, fuel: nat)
    ensures FixedPointLoop(f, df, done, x0, tol, first, fuel)
      == Prepend(done, FixedPointFrom(f, df, x0, tol, first, fuel))
    decreases fuel
  {
    if fuel == 0 {
      assert done + [] == done;
    } else if df(x0) != 0.0 {
      var x1 := FixedPointMap(f, df, x0);
      var row := FixedPointRow(first, x0, x1, Abs(x1 - x0));
      if Abs(x1 - x0) > tol {
        FixedPointLoopIsFrom(f, df, done + [row], x1, tol, first + 1, fuel - 1);
        PrependTwice(done, [row], FixedPointFrom(f, df, x1, tol, first + 1, fuel - 1));
      }
    }
  }

  /** From the first step on, the loop's run is `FixedPointFrom`. */
  lemma FixedPointLoopStarts(f: real -> real, df: real -> real, guess: real, tol: real, fuel: nat)
    ensures FixedPointLoop(f, df, [], guess, tol, 1, fuel) == FixedPointFrom(f, df, guess, tol, 1, fuel)
  {
    FixedPointLoopIsFrom(f, df, [], guess, tol, 1, fuel);
    assert Prepend([], FixedPointFrom(f, df, guess, tol, 1, fuel)) == FixedPointFrom(f, df, guess, tol, 1, fuel);
  }

  /** `fixed_point(f_lambda, f_prime_lambda, x0, tol)`, with at most `fuel`
      passes through its `while True` loop. */
  method FixedPoint(f: real -> real, df: real -> real, guess: real, tol: real, fuel: nat)
    returns (r: Outcome<FixedPointRow>)
    ensures r == FixedPointFrom(f, df, guess, tol, 1, fuel)
  {
    FixedPointLoopStarts(f, df, guess, tol, fuel);
    var iterationData: seq<FixedPointRow> := [];
    var iteration: nat := 0;
    var x0 := guess;
    ghost var left: nat := fuel;
    while iteration < fuel
      invariant iteration <= fuel && left == fuel - iteration
      invariant FixedPointLoop(f, df, [], guess, tol, 1, fuel)
        == FixedPointLoop(f, df, iterationData, x0, tol, iteration + 1, left)
    {
      if df(x0) == 0.0 {
        return ZeroDenominator(iteration + 1);
      }
      var x1 := FixedPointMap(f, df, x0);
      iteration := iteration + 1;
      iterationData := iterationData + [FixedPointRow(iteration, x0, FixedPointMap(f, df, x0), Abs(x1 - x0))];
      if Abs(x1 - x0) <= tol {
        return Converged(iterationData, x1);
      }
      x0 := x1;
      left := left - 1;
    }
    r := OutOfFuel(iterationData);
  }

  /** What a well-formed fixed-point row holds. */
  ghost predicate IsFixedPointRow(f: real -> real, df: real -> real, row: FixedPointRow)
  {
    df(row.xn) != 0.0 && row.gxn == FixedPointMap(f, df, row.xn) && row.error == Abs(row.gxn - row.xn)
  }

  /** Row `i - 1` did not stop and row `i` starts from its `g(xn)`. */
  ghost predicate FixedPointLinked(t: seq<FixedPointRow>, tol: real, i: nat)
    requires 0 < i < |t|
  {
    t[i - 1].error > tol && t[i].xn == t[i - 1].gxn
  }

  /** The table of a fixed-point run started at `x0`, numbered from `first`. */
  ghost predicate FixedPointTrace(f: real -> real, df: real -> real, x0: real, tol: real, first: nat,
                                  t: seq<FixedPointRow>)
  {
    (forall i :: 0 <= i < |t| ==> t[i].iteration == first + i && IsFixedPointRow(f, df, t[i])) &&
    (|t| > 0 ==> t[0].xn == x0) &&
    (forall i :: 0 < i < |t| ==> FixedPointLinked(t, tol, i))
  }

  lemma FixedPointTraceTail(f: real -> real, df: real -> real, x0: real, tol: real, first: nat,
                            t: seq<FixedPointRow>)
    requires FixedPointTrace(f, df, x0, tol, first, t) && |t| > 1
    ensures t[0].error > tol && t[1].xn == t[0].gxn
    ensures FixedPointTrace(f, df, t[1].xn, tol, first + 1, t[1..])
  {
    assert FixedPointLinked(t, tol, 1);
    var rest := t[1..];
    forall i | 0 < i < |rest|
      ensures FixedPointLinked(rest, tol, i)
    {
      assert FixedPointLinked(t, tol, i + 1);
    }
  }

  lemma FixedPointTraceCons(f: real -> real, df: real -> real, tol: real, row: FixedPointRow, first: nat,
                            rest: seq<FixedPointRow>)
    requires row.iteration == first && IsFixedPointRow(f, df, row) && row.error > tol
    requires rest == [] || FixedPointTrace(f, df, row.gxn, tol, first + 1, rest)
    ensures FixedPointTrace(f, df, row.xn, tol, first, [row] + rest)
  {
    var t := [row] + rest;
    forall i | 0 < i < |t|
      ensures FixedPointLinked(t, tol, i)
    {
      if i > 1 {
        assert FixedPointLinked(rest, tol, i - 1);
      }
    }
  }

  /** Every run of `fixed_point` that is not aborted hands back a table as described. */
  lemma {:induction false} FixedPointRunIsTrace(f: real -> real, df: real -> real, x0: real, tol: real,
                                                first: nat, fuel: nat)
    ensures var r := FixedPointFrom(f, df, x0, tol, first, fuel);
      !r.ZeroDenominator? ==> FixedPointTrace(f, df, x0, tol, first, r.trace)
    decreases fuel
  {
    if fuel > 0 && df(x0) != 0.0 {
      var x1 := FixedPointMap(f, df, x0);
      var row := FixedPointRow(first, x0, x1, Abs(x1 - x0));
      if Abs(x1 - x0) > tol {
        var rest := FixedPointFrom(f, df, x1, tol, first + 1, fuel - 1);
        FixedPointRunIsTrace(f, df, x1, tol, first + 1, fuel - 1);
        assert FixedPointFrom(f, df, x0, tol, first, fuel) == Prepend([row], rest);
        assert IsFixedPointRow(f, df, row);
        if !rest.ZeroDenominator? {
          FixedPointTraceCons(f, df, tol, row, first, rest.trace);
        }
      }
    }
  }

  /** A converged run has at most `fuel` rows, the last with error at most
      `tol`, and returns that row's `g(xn)`; a run out of fuel has `fuel`
      rows, none within `tol`; an aborted run failed at a step within the fuel. */
  lemma {:induction false} FixedPointRunEnds(f: real -> real, df: real -> real, x0: real, tol: real,
                                             first: nat, fuel: nat)
    ensures var r := FixedPointFrom(f, df, x0, tol, first, fuel);
      (r.ZeroDenominator? ==> first <= r.iteration < first + fuel) &&
      (r.Converged? ==> 0 < |r.trace| <= fuel && Last(r.trace).error <= tol && r.root == Last(r.trace).gxn) &&
      (r.OutOfFuel? ==> |r.trace| == fuel && forall i :: 0 <= i < fuel ==> r.trace[i].error > tol)
    decreases fuel
  {
    if fuel > 0 && df(x0) != 0.0 {
      var x1 := FixedPointMap(f, df, x0);
      var row := FixedPointRow(first, x0, x1, Abs(x1 - x0));
      if Abs(x1 - x0) > tol {
        var rest := FixedPointFrom(f, df, x1, tol, first + 1, fuel - 1);
        FixedPointRunEnds(f, df, x1, tol, first + 1, fuel - 1);
        assert FixedPointFrom(f, df, x0, tol, first, fuel) == Prepend([row], rest);
        if !rest.ZeroDenominator? {
          var t := [row] + rest.trace;
          assert forall i :: 0 < i < |t| ==> t[i] == rest.trace[i - 1];
          if rest.Converged? {
            assert Last(t) == Last(rest.trace);
          }
        }
      }
    }
  }

  /** Conversely, a table as described whose last row is within `tol`, and
      that fits in `fuel` steps, is exactly what the run returns. */
  lemma {:induction false} FixedPointTraceIsRun(f: real -> real, df: real -> real, x0: real, tol: real,
                                                first: nat, t: seq<FixedPointRow>, fuel: nat)
    requires FixedPointTrace(f, df, x0, tol, first, t)
    requires 0 < |t| <= fuel && Last(t).error <= tol
    ensures FixedPointFrom(f, df, x0, tol, first, fuel) == Converged(t, Last(t).gxn)
    decreases fuel
  {
    assert IsFixedPointRow(f, df, t[0]);
    if |t| > 1 {
      FixedPointTraceTail(f, df, x0, tol, first, t);
      FixedPointTraceIsRun(f, df, t[1].xn, tol, first + 1, t[1..], fuel - 1);
      assert [t[0]] + t[1..] == t;
    }
  }

  /** The iterate the loop holds once the rows `t` are in the table: the
      guess when there are none, else the last row's `g(xn)`. */
  function FixedPointIterateAfter(x0: real, t: seq<FixedPointRow>): real
  {
    if t == [] then x0 else Last(t).gxn
  }

  /** A run aborts at step `k` exactly when the steps before `k` all ran
      without stopping and the iterate they lead to has `f'(x) == 0`, the
      denominator of `g`. */
  lemma {:induction false} FixedPointAbortsExactly(f: real -> real, df: real -> real, x0: real, tol: real,
                                                   first: nat, fuel: nat, k: nat)
    ensures FixedPointFrom(f, df, x0, tol, first, fuel) == ZeroDenominator(k) <==>
      (first <= k < first + fuel &&
       var pre := FixedPointFrom(f, df, x0, tol, first, k - first);
       pre.OutOfFuel? && df(FixedPointIterateAfter(x0, pre.trace)) == 0.0)
    decreases fuel
  {
    if fuel > 0 && df(x0) != 0.0 {
      var x1 := FixedPointMap(f, df, x0);
      var row := FixedPointRow(first, x0, x1, Abs(x1 - x0));
      if Abs(x1 - x0) > tol {
        FixedPointAbortsExactly(f, df, x1, tol, first + 1, fuel - 1, k);
        assert FixedPointFrom(f, df, x0, tol, first, fuel)
          == Prepend([row], FixedPointFrom(f, df, x1, tol, first + 1, fuel - 1));
        if k > first {
          var rest := FixedPointFrom(f, df, x1, tol, first + 1, k - first - 1);
          assert FixedPointFrom(f, df, x0, tol, first, k - first) == Prepend([row], rest);
          if rest.OutOfFuel? {
            if rest.trace != [] {
              assert Last([row] + rest.trace) == Last(rest.trace);
            } else {
              assert [row] + rest.trace == [row];
            }
          }
        }
      }
    }
  }

  // =====================================================================
  // Newton

  /** One row of the Newton table: `[iteration, x0, f(x0), f'(x0), x1]`. */
  datatype NewtonRow = NewtonRow(iteration: nat, xn: real, fxn: real, dfxn: real, next: real)

  /** The run from the iterate `x0`, numbering rows from `first`; a zero
      derivative aborts. */
  function NewtonFrom(f: real -> real, df: real -> real, x0: real, tol: real, first: nat, fuel: nat)
    : Outcome<NewtonRow>
    decreases fuel
  {
    if fuel == 0 then OutOfFuel([])
    else if df(x0) == 0.0 then ZeroDenominator(first)
    else
      var x1 := x0 - Quotient(f(x0), df(x0));
      var row := NewtonRow(first, x0, f(x0), df(x0), x1);
      if Abs(x1 - x0) <= tol then Converged([row], x1)
      else Prepend([row], NewtonFrom(f, df, x1, tol, first + 1, fuel - 1))
  }

  /** The run as the loop carries it out: `done` holds the rows already in
      `iteration_data`, and each pass appends one more. */
  function NewtonLoop(f: real -> real, df: real -> real, done: seq<NewtonRow>, x0: real, tol: real,
                      first: nat, fuel: nat): Outcome<NewtonRow>
    decreases fuel
  {
    if fuel == 0 then OutOfFuel(done)
    else if df(x0) == 0.0 then ZeroDenominator(first)
    else
      var x1 := x0 - Quotient(f(x0), df(x0));
      var row := NewtonRow(first, x0, f(x0), df(x0), x1);
      if Abs(x1 - x0) <= tol then Converged(done + [row], x1)
      else NewtonLoop(f, df, done + [row], x1, tol, first + 1, fuel - 1)
  }

  /** Carrying the rows along gives the run from the current iterate with
      those rows in front. */
  lemma {:induction false} NewtonLoopIsFrom(f: real -> real, df: real -> real, done: seq<NewtonRow>,
                                            x0: real, tol: real, first: nat, fuel: nat)
    ensures NewtonLoop(f, df, done, x0, tol, first, fuel) == Prepend(done, NewtonFrom(f, df, x0, tol, first, fuel))
    decreases fuel
  {
    if fuel == 0 {
      assert done + [] == done;
    } else if df(x0) != 0.0 {
      var x1 := x0 - Quotient(f(x0), df(x0));
      var row := NewtonRow(first, x0, f(x0), df(x0), x1);
      if Abs(x1 - x0) > tol {
        NewtonLoopIsFrom(f, df, done + [row], x1, tol, first + 1, fuel - 1);
        PrependTwice(done, [row], NewtonFrom(f, df, x1, tol, first + 1, fuel - 1));
      }
    }
  }

  /** From the first step on, the loop's run is `NewtonFrom`. */
  lemma NewtonLoopStarts(f: real -> real, df: real -> real, guess: real, tol: real, fuel: nat)
    ensures NewtonLoop(f, df, [], guess, tol, 1, fuel) == NewtonFrom(f, df, guess, tol, 1, fuel)
  {
    NewtonLoopIsFrom(f, df, [], guess, tol, 1, fuel);
    assert Prepend([], NewtonFrom(f, df, guess, tol, 1, fuel)) == NewtonFrom(f, df, guess, tol, 1, fuel);
  }

  /** `newton(f_lambda, f_prime_lambda, x0, tol)`, with at most `fuel`
      passes through its `while True` loop. */
  method Newton(f: real -> real, df: real -> real, guess: real, tol: real, fuel: nat)
    returns (r: Outcome<NewtonRow>)
    ensures r == NewtonFrom(f, df, guess, tol, 1, fuel)
  {
    NewtonLoopStarts(f, df, guess, tol, fuel);
    var iterationData: seq<NewtonRow> := [];
    var iteration: nat := 0;
    var x0 := guess;
    ghost var left: nat := fuel;
    while iteration < fuel
      invariant iteration <= fuel && left == fuel - iteration
      invariant NewtonLoop(f, df, [], guess, tol, 1, fuel)
        == NewtonLoop(f, df, iterationData, x0, tol, iteration + 1, left)
    {
      var fx0, dfx0 := f(x0), df(x0);
      if dfx0 == 0.0 {
        return ZeroDenominator(iteration + 1);
      }
      var x1 := x0 - Quotient(fx0, dfx0);
      iteration := iteration + 1;
      iterationData := iterationData + [NewtonRow(iteration, x0, fx0, dfx0, x1)];
      if Abs(x1 - x0) <= tol {
        return Converged(iterationData, x1);
      }
      x0 := x1;
      left := left - 1;
    }
    r := OutOfFuel(iterationData);
  }

  /** What a well-formed Newton row holds. */
  ghost predicate IsNewtonRow(f: real -> real, df: real -> real, row: NewtonRow)
  {
    row.fxn == f(row.xn) && row.dfxn == df(row.xn) && row.dfxn != 0.0 &&
    row.next == row.xn - Quotient(row.fxn, row.dfxn)
  }

  /** Newton's stopping rule on a row. */
  predicate NewtonStops(row: NewtonRow, tol: real)
  {
    Abs(row.next - row.xn) <= tol
  }

  /** Row `i - 1` did not stop and its last column is row `i`'s `xn`. */
  ghost predicate NewtonLinked(t: seq<NewtonRow>, tol: real, i: nat)
    requires 0 < i < |t|
  {
    !NewtonStops(t[i - 1], tol) && t[i].xn == t[i - 1].next
  }

  /** The table of a Newton run started at `x0`, numbered from `first`. */
  ghost predicate NewtonTrace(f: real -> real, df: real -> real, x0: real, tol: real, first: nat,
                              t: seq<NewtonRow>)
  {
    (forall i :: 0 <= i < |t| ==> t[i].iteration == first + i && IsNewtonRow(f, df, t[i])) &&
    (|t| > 0 ==> t[0].xn == x0) &&
    (forall i :: 0 < i < |t| ==> NewtonLinked(t, tol, i))
  }

  lemma NewtonTraceTail(f: real -> real, df: real -> real, x0: real, tol: real, first: nat, t: seq<NewtonRow>)
    requires NewtonTrace(f, df, x0, tol, first, t) && |t| > 1
    ensures !NewtonStops(t[0], tol) && t[1].xn == t[0].next
    ensures NewtonTrace(f, df, t[1].xn, tol, first + 1, t[1..])
  {
    assert NewtonLinked(t, tol, 1);
    var rest := t[1..];
    forall i | 0 < i < |rest|
      ensures NewtonLinked(rest, tol, i)
    {
      assert NewtonLinked(t, tol, i + 1);
    }
  }

  lemma NewtonTraceCons(f: real -> real, df: real -> real, tol: real, row: NewtonRow, first: nat,
                        rest: seq<NewtonRow>)
    requires row.iteration == first && IsNewtonRow(f, df, row) && !NewtonStops(row, tol)
    requires rest == [] || NewtonTrace(f, df, row.next, tol, first + 1, rest)
    ensures NewtonTrace(f, df, row.xn, tol, first, [row] + rest)
  {
    var t := [row] + rest;
    forall i | 0 < i < |t|
      ensures NewtonLinked(t, tol, i)
    {
      if i > 1 {
        assert NewtonLinked(rest, tol, i - 1);
      }
    }
  }

  /** Every run of `newton` that is not aborted hands back a table as described. */
  lemma {:induction false} NewtonRunIsTrace(f: real -> real, df: real -> real, x0: real, tol: real,
                                            first: nat, fuel: nat)
    ensures var r := NewtonFrom(f, df, x0, tol, first, fuel);
      !r.ZeroDenominator? ==> NewtonTrace(f, df, x0, tol, first, r.trace)
    decreases fuel
  {
    if fuel > 0 && df(x0) != 0.0 {
      var x1 := x0 - Quotient(f(x0), df(x0));
      var row := NewtonRow(first, x0, f(x0), df(x0), x1);
      if Abs(x1 - x0) > tol {
        var rest := NewtonFrom(f, df, x1, tol, first + 1, fuel - 1);
        NewtonRunIsTrace(f, df, x1, tol, first + 1, fuel - 1);
        assert NewtonFrom(f, df, x0, tol, first, fuel) == Prepend([row], rest);
        if !rest.ZeroDenominator? {
          NewtonTraceCons(f, df, tol, row, first, rest.trace);
        }
      }
    }
  }

  /** A converged run has at most `fuel` rows, the last within `tol`, and
      returns that row's last column; a run out of fuel has `fuel` rows,
      none within `tol`; an aborted run failed at a step within the fuel. */
  lemma {:induction false} NewtonRunEnds(f: real -> real, df: real -> real, x0: real, tol: real,
                                         first: nat, fuel: nat)
    ensures var r := NewtonFrom(f, df, x0, tol, first, fuel);
      (r.ZeroDenominator? ==> first <= r.iteration < first + fuel) &&
      (r.Converged? ==> 0 < |r.trace| <= fuel && NewtonStops(Last(r.trace), tol) && r.root == Last(r.trace).next) &&
      (r.OutOfFuel? ==> |r.trace| == fuel && forall i :: 0 <= i < fuel ==> !NewtonStops(r.trace[i], tol))
    decreases fuel
  {
    if fuel > 0 && df(x0) != 0.0 {
      var x1 := x0 - Quotient(f(x0), df(x0));
      var row := NewtonRow(first, x0, f(x0), df(x0), x1);
      if Abs(x1 - x0) > tol {
        var rest := NewtonFrom(f, df, x1, tol, first + 1, fuel - 1);
        NewtonRunEnds(f, df, x1, tol, first + 1, fuel - 1);
        assert NewtonFrom(f, df, x0, tol, first, fuel) == Prepend([row], rest);
        if !rest.ZeroDenominator? {
          var t := [row] + rest.trace;
          assert forall i :: 0 < i < |t| ==> t[i] == rest.trace[i - 1];
          if rest.Converged? {
            assert Last(t) == Last(rest.trace);
          }
        }
      }
    }
  }

  /** Conversely, a table as described whose last row stops, and that fits
      in `fuel` steps, is exactly what the run returns. */
  lemma {:induction false} NewtonTraceIsRun(f: real -> real, df: real -> real, x0: real, tol: real,
                                            first: nat, t: seq<NewtonRow>, fuel: nat)
    requires NewtonTrace(f, df, x0, tol, first, t)
    requires 0 < |t| <= fuel && NewtonStops(Last(t), tol)
    ensures NewtonFrom(f, df, x0, tol, first, fuel) == Converged(t, Last(t).next)
    decreases fuel
  {
    assert IsNewtonRow(f, df, t[0]);
    if |t| > 1 {
      NewtonTraceTail(f, df, x0, tol, first, t);
      NewtonTraceIsRun(f, df, t[1].xn, tol, first + 1, t[1..], fuel - 1);
      assert [t[0]] + t[1..] == t;
    }
  }

  /** The iterate the loop holds once the rows `t` are in the table: the
      guess when there are none, else the last row's new iterate. */
  function NewtonIterateAfter(x0: real, t: seq<NewtonRow>): real
  {
    if t == [] then x0 else Last(t).next
  }

  /** A run aborts at step `k` exactly when the steps before `k` all ran
      without stopping and the iterate they lead to has `f'(x) == 0`, the
      denominator of Newton's step. */
  lemma {:induction false} NewtonAbortsExactly(f: real -> real, df: real -> real, x0: real, tol: real,
                                               first: nat, fuel: nat, k: nat)
    ensures NewtonFrom(f, df, x0, tol, first, fuel) == ZeroDenominator(k) <==>
      (first <= k < first + fuel &&
       var pre := NewtonFrom(f, df, x0, tol, first, k - first);
       pre.OutOfFuel? && df(NewtonIterateAfter(x0, pre.trace)) == 0.0)
    decreases fuel
  {
    if fuel > 0 && df(x0) != 0.0 {
      var x1 := x0 - Quotient(f(x0), df(x0));
      var row := NewtonRow(first, x0, f(x0), df(x0), x1);
      if Abs(x1 - x0) > tol {
        NewtonAbortsExactly(f, df, x1, tol, first + 1, fuel - 1, k);
        assert NewtonFrom(f, df, x0, tol, first, fuel)
          == Prepend([row], NewtonFrom(f, df, x1, tol, first + 1, fuel - 1));
        if k > first {
          var rest := NewtonFrom(f, df, x1, tol, first + 1, k - first - 1);
          assert NewtonFrom(f, df, x0, tol, first, k - first) == Prepend([row], rest);
          if rest.OutOfFuel? {
            if rest.trace != [] {
              assert Last([row] + rest.trace) == Last(rest.trace);
            } else {
              assert [row] + rest.trace == [row];
            }
          }
        }
      }
    }
  }

  // =====================================================================
  // Newton and fixed point compute the same iterates

  /** The fixed-point row a Newton row corresponds to: same step, same
      iterate, `g(xn)` is Newton's next iterate. */
  function AsFixedPointRow(row: NewtonRow): FixedPointRow
  {
    FixedPointRow(row.iteration, row.xn, row.next, Abs(row.next - row.xn))
  }

  function AsFixedPointRows(t: seq<NewtonRow>): (u: seq<FixedPointRow>)
    ensures |u| == |t|
    ensures forall i :: 0 <= i < |t| ==> u[i] == AsFixedPointRow(t[i])
  {
    seq(|t|, i requires 0 <= i < |t| => AsFixedPointRow(t[i]))
  }

  function AsFixedPointOutcome(o: Outcome<NewtonRow>): Outcome<FixedPointRow>
  {
    match o
    case Converged(t, root) => Converged(AsFixedPointRows(t), root)
    case ZeroDenominator(k) => ZeroDenominator(k)
    case OutOfFuel(t) => OutOfFuel(AsFixedPointRows(t))
  }

  lemma AsFixedPointPrepend(row: NewtonRow, o: Outcome<NewtonRow>)
    ensures AsFixedPointOutcome(Prepend([row], o)) == Prepend([AsFixedPointRow(row)], AsFixedPointOutcome(o))
  {
    match o
    case Converged(t, root) =>
      assert AsFixedPointRows([row] + t) == [AsFixedPointRow(row)] + AsFixedPointRows(t);
    case ZeroDenominator(k) =>
    case OutOfFuel(t) =>
      assert AsFixedPointRows([row] + t) == [AsFixedPointRow(row)] + AsFixedPointRows(t);
  }

  /** Given the same `f`, `f'`, `x0` and `tol`, `fixed_point` and `newton`
      end the same way, after the same number of rows, through the same
      iterates, with the same root: the fixed-point table is the Newton
      table with `f(xn)` and `f'(xn)` dropped and the step size added. */
  lemma {:induction false} NewtonMatchesFixedPoint(f: real -> real, df: real -> real, x0: real, tol: real,
                                                   first: nat, fuel: nat)
    ensures FixedPointFrom(f, df, x0, tol, first, fuel) == AsFixedPointOutcome(NewtonFrom(f, df, x0, tol, first, fuel))
    decreases fuel
  {
    if fuel > 0 && df(x0) != 0.0 {
      var x1 := x0 - Quotient(f(x0), df(x0));
      var row := NewtonRow(first, x0, f(x0), df(x0), x1);
      assert FixedPointMap(f, df, x0) == x1;
      if Abs(x1 - x0) > tol {
        var rest := NewtonFrom(f, df, x1, tol, first + 1, fuel - 1);
        assert NewtonFrom(f, df, x0, tol, first, fuel) == Prepend([row], rest);
        assert FixedPointFrom(f, df, x0, tol, first, fuel)
          == Prepend([AsFixedPointRow(row)], FixedPointFrom(f, df, x1, tol, first + 1, fuel - 1));
        NewtonMatchesFixedPoint(f, df, x1, tol, first + 1, fuel - 1);
        AsFixedPointPrepend(row, rest);
      } else {
        assert AsFixedPointRows([row]) == [AsFixedPointRow(row)];
      }
    }
  }

  // =====================================================================
  // Secant

  /** One row of the secant table: `[iteration, x1, f(x1), x0, f(x0), x2]`. */
  datatype SecantRow = SecantRow(iteration: nat, x1: real, fx1: real, x0: real, fx0: real, x2: real)

  /** The secant point through `(x0, f(x0))` and `(x1, f(x1))`. */
  function SecantPoint(f: real -> real, x0: real, x1: real): real
    requires f(x1) != f(x0)
  {
    x1 - Quotient(Times(f(x1), x1 - x0), f(x1) - f(x0))
  }

  /** The run from the iterates `x0`, `x1`, numbering rows from `first`;
      equal values of `f` at both iterates abort. */
  function SecantFrom(f: real -> real, x0: real, x1: real, tol: real, first: nat, fuel: nat)
    : Outcome<SecantRow>
    decreases fuel
  {
    if fuel == 0 then OutOfFuel([])
    else if f(x1) == f(x0) then ZeroDenominator(first)
    else
      var x2 := SecantPoint(f, x0, x1);
      var row := SecantRow(first, x1, f(x1), x0, f(x0), x2);
      if Abs(x2 - x1) <= tol then Converged([row], x2)
      else Prepend([row], SecantFrom(f, x1, x2, tol, first + 1, fuel - 1))
  }

  /** The run as the loop carries it out: `done` holds the rows already in
      `iteration_data`, and each pass appends one more. */
  function SecantLoop(f: real -> real, done: seq<SecantRow>, x0: real, x1: real, tol: real,
                      first: nat, fuel: nat): Outcome<SecantRow>
    decreases fuel
  {
    if fuel == 0 then OutOfFuel(done)
    else if f(x1) == f(x0) then ZeroDenominator(first)
    else
      var x2 := SecantPoint(f, x0, x1);
      var row := SecantRow(first, x1, f(x1), x0, f(x0), x2);
      if Abs(x2 - x1) <= tol then Converged(done + [row], x2)
      else SecantLoop(f, done + [row], x1, x2, tol, first + 1, fuel - 1)
  }

  /** Carrying the rows along gives the run from the current iterates with
      those rows in front. */
  lemma {:induction false} SecantLoopIsFrom(f: real -> real, done: seq<SecantRow>, x0: real, x1: real,
                                            tol: real, first: nat, fuel: nat)
    ensures SecantLoop(f, done, x0, x1, tol, first, fuel) == Prepend(done, SecantFrom(f, x0, x1, tol, first, fuel))
    decreases fuel
  {
    if fuel == 0 {
      assert done + [] == done;
    } else if f(x1) != f(x0) {
      var x2 := SecantPoint(f, x0, x1);
      var row := SecantRow(first, x1, f(x1), x0, f(x0), x2);
      if Abs(x2 - x1) > tol {
        SecantLoopIsFrom(f, done + [row], x1, x2, tol, first + 1, fuel - 1);
        PrependTwice(done, [row], SecantFrom(f, x1, x2, tol, first + 1, fuel - 1));
      }
    }
  }

  /** From the first step on, the loop's run is `SecantFrom`. */
  lemma SecantLoopStarts(f: real -> real, start0: real, start1: real, tol: real, fuel: nat)
    ensures SecantLoop(f, [], start0, start1, tol, 1, fuel) == SecantFrom(f, start0, start1, tol, 1, fuel)
  {
    SecantLoopIsFrom(f, [], start0, start1, tol, 1, fuel);
    assert Prepend([], SecantFrom(f, start0, start1, tol, 1, fuel)) == SecantFrom(f, start0, start1, tol, 1, fuel);
  }

  /** `secant(f_lambda, x0, x1, tol)`, with at most `fuel` passes through
      its `while True` loop. */
  method Secant(f: real -> real, start0: real, start1: real, tol: real, fuel: nat)
    returns (r: Outcome<SecantRow>)
    ensures r == SecantFrom(f, start0, start1, tol, 1, fuel)
  {
    SecantLoopStarts(f, start0, start1, tol, fuel);
    var iterationData: seq<SecantRow> := [];
    var iteration: nat := 0;
    var x0, x1 := start0, start1;
    ghost var left: nat := fuel;
    while iteration < fuel
      invariant iteration <= fuel && left == fuel - iteration
      invariant SecantLoop(f, [], start0, start1, tol, 1, fuel)
        == SecantLoop(f, iterationData, x0, x1, tol, iteration + 1, left)
    {
      var fx0 := f(x0);
      var fx1 := f(x1);
      if fx1 - fx0 == 0.0 {
        return ZeroDenominator(iteration + 1);
      }
      var x2 := x1 - Quotient(Times(fx1, x1 - x0), fx1 - fx0);
      assert x2 == SecantPoint(f, x0, x1);
      iteration := iteration + 1;
      iterationData := iterationData + [SecantRow(iteration, x1, fx1, x0, fx0, x2)];
      if Abs(x2 - x1) <= tol {
        return Converged(iterationData, x2);
      }
      x0, x1 := x1, x2;
      left := left - 1;
    }
    r := OutOfFuel(iterationData);
  }

  /** What a well-formed secant row holds. */
  ghost predicate IsSecantRow(f: real -> real, row: SecantRow)
  {
    row.fx1 == f(row.x1) && row.fx0 == f(row.x0) && row.fx1 != row.fx0 &&
    row.x2 == row.x1 - Quotient(Times(row.fx1, row.x1 - row.x0), row.fx1 - row.fx0)
  }

  /** The secant stopping rule on a row. */
  predicate SecantStops(row: SecantRow, tol: real)
  {
    Abs(row.x2 - row.x1) <= tol
  }

  /** Row `i - 1` did not stop; row `i`'s `x0` is its `x1` and row `i`'s `x1` its `x2`. */
  ghost predicate SecantLinked(t: seq<SecantRow>, tol: real, i: nat)
    requires 0 < i < |t|
  {
    !SecantStops(t[i - 1], tol) && t[i].x0 == t[i - 1].x1 && t[i].x1 == t[i - 1].x2
  }

  /** The table of a secant run started at `x0`, `x1`, numbered from `first`. */
  ghost predicate SecantTrace(f: real -> real, x0: real, x1: real, tol: real, first: nat, t: seq<SecantRow>)
  {
    (forall i :: 0 <= i < |t| ==> t[i].iteration == first + i && IsSecantRow(f, t[i])) &&
    (|t| > 0 ==> t[0].x0 == x0 && t[0].x1 == x1) &&
    (forall i :: 0 < i < |t| ==> SecantLinked(t, tol, i))
  }

  lemma SecantTraceTail(f: real -> real, x0: real, x1: real, tol: real, first: nat, t: seq<SecantRow>)
    requires SecantTrace(f, x0, x1, tol, first, t) && |t| > 1
    ensures !SecantStops(t[0], tol) && t[1].x0 == t[0].x1 && t[1].x1 == t[0].x2
    ensures SecantTrace(f, t[1].x0, t[1].x1, tol, first + 1, t[1..])
  {
    assert SecantLinked(t, tol, 1);
    var rest := t[1..];
    forall i | 0 < i < |rest|
      ensures SecantLinked(rest, tol, i)
    {
      assert SecantLinked(t, tol, i + 1);
    }
  }

  lemma SecantTraceCons(f: real -> real, tol: real, row: SecantRow, first: nat, rest: seq<SecantRow>)
    requires row.iteration == first && IsSecantRow(f, row) && !SecantStops(row, tol)
    requires rest == [] || SecantTrace(f, row.x1, row.x2, tol, first + 1, rest)
    ensures SecantTrace(f, row.x0, row.x1, tol, first, [row] + rest)
  {
    var t := [row] + rest;
    forall i | 0 < i < |t|
      ensures SecantLinked(t, tol, i)
    {
      if i > 1 {
        assert SecantLinked(rest, tol, i - 1);
      }
    }
  }

  /** Every run of `secant` that is not aborted hands back a table as described. */
  lemma {:induction false} SecantRunIsTrace(f: real -> real, x0: real, x1: real, tol: real, first: nat, fuel: nat)
    ensures var r := SecantFrom(f, x0, x1, tol, first, fuel);
      !r.ZeroDenominator? ==> SecantTrace(f, x0, x1, tol, first, r.trace)
    decreases fuel
  {
    if fuel > 0 && f(x1) != f(x0) {
      var x2 := SecantPoint(f, x0, x1);
      var row := SecantRow(first, x1, f(x1), x0, f(x0), x2);
      if Abs(x2 - x1) > tol {
        var rest := SecantFrom(f, x1, x2, tol, first + 1, fuel - 1);
        SecantRunIsTrace(f, x1, x2, tol, first + 1, fuel - 1);
        assert SecantFrom(f, x0, x1, tol, first, fuel) == Prepend([row], rest);
        if !rest.ZeroDenominator? {
          SecantTraceCons(f, tol, row, first, rest.trace);
        }
      }
    }
  }

  /** A converged run has at most `fuel` rows, the last within `tol`, and
      returns that row's `x2`; a run out of fuel has `fuel` rows, none within
      `tol`; an aborted run failed at a step within the fuel. */
  lemma {:induction false} SecantRunEnds(f: real -> real, x0: real, x1: real, tol: real, first: nat, fuel: nat)
    ensures var r := SecantFrom(f, x0, x1, tol, first, fuel);
      (r.ZeroDenominator? ==> first <= r.iteration < first + fuel) &&
      (r.Converged? ==> 0 < |r.trace| <= fuel && SecantStops(Last(r.trace), tol) && r.root == Last(r.trace).x2) &&
      (r.OutOfFuel? ==> |r.trace| == fuel && forall i :: 0 <= i < fuel ==> !SecantStops(r.trace[i], tol))
    decreases fuel
  {
    if fuel > 0 && f(x1) != f(x0) {
      var x2 := SecantPoint(f, x0, x1);
      var row := SecantRow(first, x1, f(x1), x0, f(x0), x2);
      if Abs(x2 - x1) > tol {
        var rest := SecantFrom(f, x1, x2, tol, first + 1, fuel - 1);
        SecantRunEnds(f, x1, x2, tol, first + 1, fuel - 1);
        assert SecantFrom(f, x0, x1, tol, first, fuel) == Prepend([row], rest);
        if !rest.ZeroDenominator? {
          var t := [row] + rest.trace;
          assert forall i :: 0 < i < |t| ==> t[i] == rest.trace[i - 1];
          if rest.Converged? {
            assert Last(t) == Last(rest.trace);
          }
        }
      }
    }
  }

  /** Conversely, a table as described whose last row stops, and that fits
      in `fuel` steps, is exactly what the run returns. */
  lemma {:induction false} SecantTraceIsRun(f: real -> real, x0: real, x1: real, tol: real, first: nat,
                                            t: seq<SecantRow>, fuel: nat)
    requires SecantTrace(f, x0, x1, tol, first, t)
    requires 0 < |t| <= fuel && SecantStops(Last(t), tol)
    ensures SecantFrom(f, x0, x1, tol, first, fuel) == Converged(t, Last(t).x2)
    decreases fuel
  {
    assert IsSecantRow(f, t[0]);
    var row := SecantRow(first, x1, f(x1), x0, f(x0), SecantPoint(f, x0, x1));
    assert t[0] == row;
    if |t| > 1 {
      SecantTraceTail(f, x0, x1, tol, first, t);
      SecantTraceIsRun(f, t[1].x0, t[1].x1, tol, first + 1, t[1..], fuel - 1);
      assert Last(t[1..]) == Last(t);
      assert SecantFrom(f, x0, x1, tol, first, fuel) == Prepend([row], SecantFrom(f, x1, row.x2, tol, first + 1, fuel - 1));
      assert [t[0]] + t[1..] == t;
    }
  }

  /** The iterates `(x0, x1)` the loop holds once the rows `t` are in the
      table: the two guesses when there are none, else the last row's
      `(x1, x2)`. */
  function SecantIteratesAfter(x0: real, x1: real, t: seq<SecantRow>): (real, real)
  {
    if t == [] then (x0, x1) else (Last(t).x1, Last(t).x2)
  }

  /** A run aborts at step `k` exactly when the steps before `k` all ran
      without stopping and the iterates they lead to have `f(x1) == f(x0)`,
      the denominator of the secant formula. */
  lemma {:induction false} SecantAbortsExactly(f: real -> real, x0: real, x1: real, tol: real,
                                               first: nat, fuel: nat, k: nat)
    ensures SecantFrom(f, x0, x1, tol, first, fuel) == ZeroDenominator(k) <==>
      (first <= k < first + fuel &&
       var pre := SecantFrom(f, x0, x1, tol, first, k - first);
       pre.OutOfFuel? &&
       f(SecantIteratesAfter(x0, x1, pre.trace).1) == f(SecantIteratesAfter(x0, x1, pre.trace).0))
    decreases fuel
  {
    if fuel > 0 && f(x1) != f(x0) {
      var x2 := SecantPoint(f, x0, x1);
      var row := SecantRow(first, x1, f(x1), x0, f(x0), x2);
      if Abs(x2 - x1) > tol {
        SecantAbortsExactly(f, x1, x2, tol, first + 1, fuel - 1, k);
        assert SecantFrom(f, x0, x1, tol, first, fuel)
          == Prepend([row], SecantFrom(f, x1, x2, tol, first + 1, fuel - 1));
        if k > first {
          var rest := SecantFrom(f, x1, x2, tol, first + 1, k - first - 1);
          assert SecantFrom(f, x0, x1, tol, first, k - first) == Prepend([row], rest);
          if rest.OutOfFuel? {
            if rest.trace != [] {
              assert Last([row] + rest.trace) == Last(rest.trace);
            } else {
              assert [row] + rest.trace == [row];
            }
          }
        }
      }
    }
  }
}
