/**
 `bisection_method` and `regula_falsi_method`: the two bracketing root
 finders. Both keep a bracket `[xl, xu]`, compute a point `xm` inside it,
 append the row `[iteration, xl, f(xl), xm, f(xm), xu, f(xu), f(xl)*f(xm)]`,
 stop once `abs(f(xl)*f(xm)) <= 0.0000004` and return that `xm`, and
 otherwise replace one end of the bracket by `xm`.

 Each method is proved equal to a recursive definition of its run
 (`BisectionFrom`, `RegulaFalsiFrom`); the lemmas then relate that run to a
 declarative description of its table (`BisectionTrace`, `RegulaFalsiTrace`)
 in both directions and prove what the table promises.
 */
module Bracketing {
  import opened Numeric

  /** One row of the table: `[iteration, xl, f(xl), xm, f(xm), xu, f(xu), f(xl)*f(xm)]`. */
  datatype BracketRow = BracketRow(
    iteration: nat,
    xl: real, fxl: real,
    xm: real, fxm: real,
    xu: real, fxu: real,
    product: real)

  /** The stopping rule shared by both methods. */
  predicate Stops(row: BracketRow)
  {
    Abs(row.product) <= ProductTolerance
  }

  /** From a sign change of `f` over `[a, b]` and `f(a)*f(m) > 0`, the sign
      change is over `[m, b]`: `a*b <= 0` and `a*m > 0` give `m*b <= 0`. */
  lemma SameSideKeepsSignChange(fa: real, fb: real, fm: real)
    requires Times(fa, fb) <= 0.0 && Times(fa, fm) > 0.0
    ensures Times(fm, fb) <= 0.0
  {
    if fa > 0.0 {
      assert fm > 0.0 && fb <= 0.0;
    } else {
      assert fa < 0.0 && fm < 0.0 && fb >= 0.0;
    }
  }

  // =====================================================================
  // Bisection

  /** The row computed for bracket `[xl, xu]` at step `iteration`. */
  function BisectionRow(f: real -> real, iteration: nat, xl: real, xu: real): BracketRow
  {
    var xm := (xl + xu) / 2.0;
    BracketRow(iteration, xl, f(xl), xm, f(xm), xu, f(xu), Times(f(xl), f(xm)))
  }

  /** The bracket after a row that did not stop, by the `if`/`elif`/`elif`
      chain: a positive product replaces `xl` by `xm`, a negative one `xu`;
      with neither, the bracket would stay as it is. */
  function NextBisectionBracket(row: BracketRow): (real, real)
  {
    if row.product > 0.0 then (row.xm, row.xu)
    else if row.product < 0.0 then (row.xl, row.xm)
    else (row.xl, row.xu)
  }

  /** The run from bracket `[xl, xu]`, numbering rows from `first`, with at
      most `fuel` steps. */
  function BisectionFrom(f: real -> real, xl: real, xu: real, first: nat, fuel: nat): Outcome<BracketRow>
    decreases fuel
  {
    if fuel == 0 then OutOfFuel([])
    else
      var row := BisectionRow(f, first, xl, xu);
      if Stops(row) then Converged([row], row.xm)
      else
        var (l, u) := NextBisectionBracket(row);
        Prepend([row], BisectionFrom(f, l, u, first + 1, fuel - 1))
  }

  /** The run as the loop carries it out: `done` holds the rows already in
      `iteration_data`, and each pass appends one more. */
  function BisectionLoop(f: real -> real, done: seq<BracketRow>, xl: real, xu: real, first: nat, fuel: nat)
    : Outcome<BracketRow>
    decreases fuel
  {
    if fuel == 0 then OutOfFuel(done)
    else
      var row := BisectionRow(f, first, xl, xu);
      if Stops(row) then Converged(done + [row], row.xm)
      else BisectionLoop(f, done + [row], NextBisectionBracket(row).0, NextBisectionBracket(row).1, first + 1, fuel - 1)
  }

  /** Carrying the rows along gives the run from the current bracket with
      those rows in front. */
  lemma {:induction false} BisectionLoopIsFrom(f: real -> real, done: seq<BracketRow>, xl: real, xu: real,
                                               first: nat, fuel: nat)
    ensures BisectionLoop(f, done, xl, xu, first, fuel) == Prepend(done, BisectionFrom(f, xl, xu, first, fuel))
    decreases fuel
  {
    if fuel == 0 {
      assert done + [] == done;
    } else {
      var row := BisectionRow(f, first, xl, xu);
      if !Stops(row) {
        var (l, u) := NextBisectionBracket(row);
        BisectionLoopIsFrom(f, done + [row], l, u, first + 1, fuel - 1);
        PrependTwice(done, [row], BisectionFrom(f, l, u, first + 1, fuel - 1));
      }
    }
  }

  /** From the first step on, the loop's run is `BisectionFrom`. */
  lemma BisectionLoopStarts(f: real -> real, lower: real, upper: real, fuel: nat)
    ensures BisectionLoop(f, [], lower, upper, 1, fuel) == BisectionFrom(f, lower, upper, 1, fuel)
  {
    BisectionLoopIsFrom(f, [], lower, upper, 1, fuel);
    assert Prepend([], BisectionFrom(f, lower, upper, 1, fuel)) == BisectionFrom(f, lower, upper, 1, fuel);
  }

  /** `bisection_method(interval1, interval2, f_lambda)`, with at most `fuel`
      passes through its `while True` loop. */
  method Bisection(f: real -> real, lower: real, upper: real, fuel: nat)
    returns (r: Outcome<BracketRow>)
    ensures r == BisectionFrom(f, lower, upper, 1, fuel)
  {
    BisectionLoopStarts(f, lower, upper, fuel);
    var iterationData: seq<BracketRow> := [];
    var iteration: nat := 0;
    var interval1, interval2 := lower, upper;
    ghost var left: nat := fuel;
    while iteration < fuel
      invariant iteration <= fuel && left == fuel - iteration
      invariant BisectionLoop(f, [], lower, upper, 1, fuel)
        == BisectionLoop(f, iterationData, interval1, interval2, iteration + 1, left)
    {
      var xl := interval1;
      var fxl := f(xl);
      var xu := interval2;
      var fxu := f(xu);
      var xm := (xl + xu) / 2.0;
      var fxm := f(xm);
      var fxlxfxm := Times(fxl, fxm);
      iteration := iteration + 1;
      var row := BracketRow(iteration, xl, fxl, xm, fxm, xu, fxu, fxlxfxm);
      assert row == BisectionRow(f, iteration, xl, xu);
      iterationData := iterationData + [row];
      if Abs(fxlxfxm) <= ProductTolerance {
        return Converged(iterationData, xm);
      } else if fxlxfxm > 0.0 {
        interval1 := xm;
      } else if fxlxfxm < 0.0 {
        interval2 := xm;
      }
      assert (interval1, interval2) == NextBisectionBracket(row);
      left := left - 1;
    }
    r := OutOfFuel(iterationData);
  }

  /** What a well-formed bisection row holds. */
  ghost predicate IsBisectionRow(f: real -> real, row: BracketRow)
  {
    row.xm == (row.xl + row.xu) / 2.0 &&
    row.fxl == f(row.xl) && row.fxm == f(row.xm) && row.fxu == f(row.xu) &&
    row.product == Times(row.fxl, row.fxm)
  }

  /** How one bisection row leads to the next: a positive product moves `xl`
      to `xm`, a negative one moves `xu` to `xm`. */
  ghost predicate BisectionStep(row: BracketRow, next: BracketRow)
  {
    (row.product > 0.0 ==> next.xl == row.xm && next.xu == row.xu) &&
    (row.product < 0.0 ==> next.xl == row.xl && next.xu == row.xm)
  }

  /** Row `i - 1` did not stop and led to row `i`. */
  ghost predicate BisectionLinked(t: seq<BracketRow>, i: nat)
    requires 0 < i < |t|
  {
    !Stops(t[i - 1]) && BisectionStep(t[i - 1], t[i])
  }

  /** The table of a bisection run started on `[xl, xu]` whose first row is
      numbered `first`: rows numbered `first, first+1, ...` in order, each
      computed from its bracket, the first on `[xl, xu]`, and each row but
      the last failing the stopping rule and leading to the next. */
  ghost predicate BisectionTrace(f: real -> real, xl: real, xu: real, first: nat, t: seq<BracketRow>)
  {
    (forall i :: 0 <= i < |t| ==> t[i].iteration == first + i && IsBisectionRow(f, t[i])) &&
    (|t| > 0 ==> t[0].xl == xl && t[0].xu == xu) &&
    (forall i :: 0 < i < |t| ==> BisectionLinked(t, i))
  }

  /** A bisection table with more than one row is its first row followed by
      the table of the run from the bracket that row leads to. */
  lemma BisectionTraceTail(f: real -> real, xl: real, xu: real, first: nat, t: seq<BracketRow>)
    requires BisectionTrace(f, xl, xu, first, t) && |t| > 1
    ensures !Stops(t[0]) && BisectionStep(t[0], t[1])
    ensures BisectionTrace(f, t[1].xl, t[1].xu, first + 1, t[1..])
  {
    assert BisectionLinked(t, 1);
    var rest := t[1..];
    forall i | 0 < i < |rest|
      ensures BisectionLinked(rest, i)
    {
      assert BisectionLinked(t, i + 1);
    }
  }

  /** Putting a well-formed row in front of a table that starts where the row leads. */
  lemma BisectionTraceCons(f: real -> real, row: BracketRow, first: nat, rest: seq<BracketRow>)
    requires row.iteration == first && IsBisectionRow(f, row) && !Stops(row)
    requires rest != [] ==> BisectionStep(row, rest[0])
    requires rest == [] || BisectionTrace(f, rest[0].xl, rest[0].xu, first + 1, rest)
    ensures BisectionTrace(f, row.xl, row.xu, first, [row] + rest)
  {
    var t := [row] + rest;
    forall i | 0 < i < |t|
      ensures BisectionLinked(t, i)
    {
      if i > 1 {
        assert BisectionLinked(rest, i - 1);
      }
    }
  }

  /** Every run of bisection hands back a table as described; bisection
      never divides by zero. */
  lemma {:induction false} BisectionRunIsTrace(f: real -> real, xl: real, xu: real, first: nat, fuel: nat)
    ensures var r := BisectionFrom(f, xl, xu, first, fuel);
      !r.ZeroDenominator? && BisectionTrace(f, xl, xu, first, r.trace)
    decreases fuel
  {
    if fuel > 0 {
      var row := BisectionRow(f, first, xl, xu);
      if !Stops(row) {
        var (l, u) := NextBisectionBracket(row);
        var rest := BisectionFrom(f, l, u, first + 1, fuel - 1);
        BisectionRunIsTrace(f, l, u, first + 1, fuel - 1);
        assert BisectionFrom(f, xl, xu, first, fuel) == Prepend([row], rest);
        BisectionTraceCons(f, row, first, rest.trace);
      }
    }
  }

  /** A converged run has at most `fuel` rows, the last of which satisfies
      the stopping rule and carries the root as its `xm`; a run that runs out
      of fuel has `fuel` rows, none of which stops. */
  lemma {:induction false} BisectionRunEnds(f: real -> real, xl: real, xu: real, first: nat, fuel: nat)
    ensures var r := BisectionFrom(f, xl, xu, first, fuel);
      (r.Converged? ==> 0 < |r.trace| <= fuel && Stops(Last(r.trace)) && r.root == Last(r.trace).xm) &&
      (r.OutOfFuel? ==> |r.trace| == fuel && forall i :: 0 <= i < fuel ==> !Stops(r.trace[i]))
    decreases fuel
  {
    if fuel > 0 {
      var row := BisectionRow(f, first, xl, xu);
      if !Stops(row) {
        var (l, u) := NextBisectionBracket(row);
        var rest := BisectionFrom(f, l, u, first + 1, fuel - 1);
        BisectionRunEnds(f, l, u, first + 1, fuel - 1);
        assert BisectionFrom(f, xl, xu, first, fuel) == Prepend([row], rest);
        if !rest.ZeroDenominator? {
          var t := [row] + rest.trace;
          assert forall i :: 0 < i < |t| ==> t[i] == rest.trace[i - 1];
          if rest.Converged? {
            assert Last(t) == Last(rest.trace);
          }
        }
      }
    }
  }

  /** Conversely, a table as described whose last row stops, and that fits
      in `fuel` steps, is exactly what the run returns. */
  lemma {:induction false} BisectionTraceIsRun(f: real -> real, xl: real, xu: real, first: nat,
                                               t: seq<BracketRow>, fuel: nat)
    requires BisectionTrace(f, xl, xu, first, t)
    requires 0 < |t| <= fuel && Stops(Last(t))
    ensures BisectionFrom(f, xl, xu, first, fuel) == Converged(t, Last(t).xm)
    decreases fuel
  {
    assert t[0] == BisectionRow(f, first, xl, xu);
    if |t| > 1 {
      BisectionTraceTail(f, xl, xu, first, t);
      BisectionTraceIsRun(f, t[1].xl, t[1].xu, first + 1, t[1..], fuel - 1);
      assert [t[0]] + t[1..] == t;
    }
  }

  /** 2 to the power `n`, as a real. */
  function Pow2(n: nat): (p: real)
    ensures p >= 1.0
  {
    if n == 0 then 1.0 else 2.0 * Pow2(n - 1)
  }

  /** The bracket halves at every step: row `i`'s width is the initial width over `2^i`. */
  lemma {:induction false} BisectionHalvesWidth(f: real -> real, xl: real, xu: real, first: nat, t: seq<BracketRow>)
    requires BisectionTrace(f, xl, xu, first, t)
    ensures forall i :: 0 <= i < |t| ==> t[i].xu - t[i].xl == (xu - xl) / Pow2(i)
    decreases |t|
  {
    if |t| > 1 {
      var rest := t[1..];
      BisectionTraceTail(f, xl, xu, first, t);
      BisectionHalvesWidth(f, t[1].xl, t[1].xu, first + 1, rest);
      var w := xu - xl;
      assert t[1].xu - t[1].xl == w / 2.0;
      forall i | 1 <= i < |t|
        ensures t[i].xu - t[i].xl == w / Pow2(i)
      {
        assert t[i] == rest[i - 1];
        HalfOverPow2(w, i);
      }
    }
  }

  lemma HalfOverPow2(w: real, i: nat)
    requires i >= 1
    ensures (w / 2.0) / Pow2(i - 1) == w / Pow2(i)
  {
    var p := Pow2(i - 1);
    assert Pow2(i) == 2.0 * p;
    assert (w / 2.0) / p == w / (2.0 * p);
  }

  /** On a bracket with `xl < xu`, every row's midpoint lies strictly inside its bracket. */
  lemma BisectionMidpointInside(f: real -> real, xl: real, xu: real, first: nat, t: seq<BracketRow>)
    requires BisectionTrace(f, xl, xu, first, t)
    requires xl < xu
    ensures forall i :: 0 <= i < |t| ==> t[i].xl < t[i].xm < t[i].xu
  {
    BisectionHalvesWidth(f, xl, xu, first, t);
    forall i | 0 <= i < |t|
      ensures t[i].xl < t[i].xm < t[i].xu
    {
      assert IsBisectionRow(f, t[i]);
      assert (xu - xl) / Pow2(i) > 0.0;
    }
  }

  /** Started on a sign change (`f(xl) * f(xu) <= 0`), every row still has one. */
  lemma {:induction false} BisectionKeepsSignChange(f: real -> real, xl: real, xu: real, first: nat,
                                                    t: seq<BracketRow>)
    requires BisectionTrace(f, xl, xu, first, t)
    requires Times(f(xl), f(xu)) <= 0.0
    ensures forall i :: 0 <= i < |t| ==> Times(t[i].fxl, t[i].fxu) <= 0.0
    decreases |t|
  {
    if |t| > 1 {
      var rest := t[1..];
      BisectionTraceTail(f, xl, xu, first, t);
      assert IsBisectionRow(f, t[0]);
      if t[0].product > 0.0 {
        SameSideKeepsSignChange(f(xl), f(xu), t[0].fxm);
      }
      BisectionKeepsSignChange(f, t[1].xl, t[1].xu, first + 1, rest);
      assert forall i :: 1 <= i < |t| ==> t[i] == rest[i - 1];
    } else if |t| == 1 {
      assert IsBisectionRow(f, t[0]);
    }
  }

  // =====================================================================
  // Regula falsi

  /** The false-position point `xu - f(xu)*(xl - xu)/(f(xl) - f(xu))`: where
      the chord through `(xl, f(xl))` and `(xu, f(xu))` meets zero. */
  function FalsePosition(f: real -> real, xl: real, xu: real): real
    requires f(xl) != f(xu)
  {
    xu - Quotient(Times(f(xu), xl - xu), f(xl) - f(xu))
  }

  /** The row computed for bracket `[xl, xu]` at step `iteration`; the
      false-position point needs `f(xl) != f(xu)`. */
  function RegulaFalsiRow(f: real -> real, iteration: nat, xl: real, xu: real): BracketRow
    requires f(xl) != f(xu)
  {
    var xm := FalsePosition(f, xl, xu);
    BracketRow(iteration, xl, f(xl), xm, f(xm), xu, f(xu), Times(f(xl), f(xm)))
  }

  /** The bracket after a row that did not stop, by the `if`/`else`: a
      positive product replaces `xl` by `xm`; anything else (zero included)
      replaces `xu`. */
  function NextRegulaFalsiBracket(row: BracketRow): (real, real)
  {
    if row.product > 0.0 then (row.xm, row.xu) else (row.xl, row.xm)
  }

  /** The run from bracket `[xl, xu]`. The stopping rule uses the literal
      threshold; `tol` is accepted and never read. */
  function RegulaFalsiFrom(f: real -> real, xl: real, xu: real, tol: real, first: nat, fuel: nat)
    : Outcome<BracketRow>
    decreases fuel
  {
    if fuel == 0 then OutOfFuel([])
    else if f(xl) == f(xu) then ZeroDenominator(first)
    else
      var row := RegulaFalsiRow(f, first, xl, xu);
      if Stops(row) then Converged([row], row.xm)
      else
        var (l, u) := NextRegulaFalsiBracket(row);
        Prepend([row], RegulaFalsiFrom(f, l, u, tol, first + 1, fuel - 1))
  }

  /** The run as the loop carries it out: `done` holds the rows already in
      `iteration_data`, and each pass appends one more. */
  function RegulaFalsiLoop(f: real -> real, done: seq<BracketRow>, xl: real, xu: real, tol: real,
                           first: nat, fuel: nat): Outcome<BracketRow>
    decreases fuel
  {
    if fuel == 0 then OutOfFuel(done)
    else if f(xl) == f(xu) then ZeroDenominator(first)
    else
      var row := RegulaFalsiRow(f, first, xl, xu);
      if Stops(row) then Converged(done + [row], row.xm)
      else RegulaFalsiLoop(f, done + [row], NextRegulaFalsiBracket(row).0, NextRegulaFalsiBracket(row).1, tol,
                           first + 1, fuel - 1)
  }

  /** Carrying the rows along gives the run from the current bracket with
      those rows in front. */
  lemma {:induction false} RegulaFalsiLoopIsFrom(f: real -> real, done: seq<BracketRow>, xl: real, xu: real,
                                                 tol: real, first: nat, fuel: nat)
    ensures RegulaFalsiLoop(f, done, xl, xu, tol, first, fuel)
      == Prepend(done, RegulaFalsiFrom(f, xl, xu, tol, first, fuel))
    decreases fuel
  {
    if fuel == 0 {
      assert done + [] == done;
    } else if f(xl) != f(xu) {
      var row := RegulaFalsiRow(f, first, xl, xu);
      if !Stops(row) {
        var (l, u) := NextRegulaFalsiBracket(row);
        RegulaFalsiLoopIsFrom(f, done + [row], l, u, tol, first + 1, fuel - 1);
        PrependTwice(done, [row], RegulaFalsiFrom(f, l, u, tol, first + 1, fuel - 1));
      }
    }
  }

  /** From the first step on, the loop's run is `RegulaFalsiFrom`. */
  lemma RegulaFalsiLoopStarts(f: real -> real, lower: real, upper: real, tol: real, fuel: nat)
    ensures RegulaFalsiLoop(f, [], lower, upper, tol, 1, fuel) == RegulaFalsiFrom(f, lower, upper, tol, 1, fuel)
  {
    RegulaFalsiLoopIsFrom(f, [], lower, upper, tol, 1, fuel);
    assert Prepend([], RegulaFalsiFrom(f, lower, upper, tol, 1, fuel)) == RegulaFalsiFrom(f, lower, upper, tol, 1, fuel);
  }

  /** `regula_falsi_method(interval1, interval2, f_lambda, tol)`, with at most
      `fuel` passes through its `while True` loop. */
  method RegulaFalsi(f: real -> real, lower: real, upper: real, tol: real, fuel: nat)
    returns (r: Outcome<BracketRow>)
    ensures r == RegulaFalsiFrom(f, lower, upper, tol, 1, fuel)
  {
    RegulaFalsiLoopStarts(f, lower, upper, tol, fuel);
    var iterationData: seq<BracketRow> := [];
    var iteration: nat := 0;
    var interval1, interval2 := lower, upper;
    ghost var left: nat := fuel;
    while iteration < fuel
      invariant iteration <= fuel && left == fuel - iteration
      invariant RegulaFalsiLoop(f, [], lower, upper, tol, 1, fuel)
        == RegulaFalsiLoop(f, iterationData, interval1, interval2, tol, iteration + 1, left)
    {
      var xl := interval1;
      var fxl := f(xl);
      var xu := interval2;
      var fxu := f(xu);
      if fxl - fxu == 0.0 {
        return ZeroDenominator(iteration + 1);
      }
      var xm := xu - Quotient(Times(fxu, xl - xu), fxl - fxu);
      var fxm := f(xm);
      var fxlxfxm := Times(fxl, fxm);
      iteration := iteration + 1;
      var row := BracketRow(iteration, xl, fxl, xm, fxm, xu, fxu, fxlxfxm);
      assert row == RegulaFalsiRow(f, iteration, xl, xu);
      iterationData := iterationData + [row];
      if Abs(fxlxfxm) <= ProductTolerance {
        return Converged(iterationData, xm);
      } else if fxlxfxm > 0.0 {
        interval1 := xm;
      } else {
        interval2 := xm;
      }
      assert (interval1, interval2) == NextRegulaFalsiBracket(row);
      left := left - 1;
    }
    r := OutOfFuel(iterationData);
  }

  /** The `tol` argument has no effect on the run. */
  lemma {:induction false} RegulaFalsiIgnoresTol(f: real -> real, xl: real, xu: real, tol1: real, tol2: real,
                                                 first: nat, fuel: nat)
    ensures RegulaFalsiFrom(f, xl, xu, tol1, first, fuel) == RegulaFalsiFrom(f, xl, xu, tol2, first, fuel)
    decreases fuel
  {
    if fuel > 0 && f(xl) != f(xu) {
      var (l, u) := NextRegulaFalsiBracket(RegulaFalsiRow(f, first, xl, xu));
      RegulaFalsiIgnoresTol(f, l, u, tol1, tol2, first + 1, fuel - 1);
    }
  }

  /** What a well-formed regula falsi row holds. */
  ghost predicate IsRegulaFalsiRow(f: real -> real, row: BracketRow)
  {
    row.fxl == f(row.xl) && row.fxu == f(row.xu) && row.fxl != row.fxu &&
    row.xm == row.xu - Quotient(Times(row.fxu, row.xl - row.xu), row.fxl - row.fxu) &&
    row.fxm == f(row.xm) && row.product == Times(row.fxl, row.fxm)
  }

  /** A positive product moves `xl` to `xm`; any other moves `xu` to `xm`. */
  ghost predicate RegulaFalsiStep(row: BracketRow, next: BracketRow)
  {
    (row.product > 0.0 ==> next.xl == row.xm && next.xu == row.xu) &&
    (row.product <= 0.0 ==> next.xl == row.xl && next.xu == row.xm)
  }

  /** Row `i - 1` did not stop and led to row `i`. */
  ghost predicate RegulaFalsiLinked(t: seq<BracketRow>, i: nat)
    requires 0 < i < |t|
  {
    !Stops(t[i - 1]) && RegulaFalsiStep(t[i - 1], t[i])
  }

  /** The table of a regula falsi run started on `[xl, xu]`, numbered from `first`. */
  ghost predicate RegulaFalsiTrace(f: real -> real, xl: real, xu: real, first: nat, t: seq<BracketRow>)
  {
    (forall i :: 0 <= i < |t| ==> t[i].iteration == first + i && IsRegulaFalsiRow(f, t[i])) &&
    (|t| > 0 ==> t[0].xl == xl && t[0].xu == xu) &&
    (forall i :: 0 < i < |t| ==> RegulaFalsiLinked(t, i))
  }

  /** A regula falsi table with more than one row is its first row followed
      by the table of the run from the bracket that row leads to. */
  lemma RegulaFalsiTraceTail(f: real -> real, xl: real, xu: real, first: nat, t: seq<BracketRow>)
    requires RegulaFalsiTrace(f, xl, xu, first, t) && |t| > 1
    ensures !Stops(t[0]) && RegulaFalsiStep(t[0], t[1])
    ensures RegulaFalsiTrace(f, t[1].xl, t[1].xu, first + 1, t[1..])
  {
    assert RegulaFalsiLinked(t, 1);
    var rest := t[1..];
    forall i | 0 < i < |rest|
      ensures RegulaFalsiLinked(rest, i)
    {
      assert RegulaFalsiLinked(t, i + 1);
    }
  }

  /** Putting a well-formed row in front of a table that starts where the row leads. */
  lemma RegulaFalsiTraceCons(f: real -> real, row: BracketRow, first: nat, rest: seq<BracketRow>)
    requires row.iteration == first && IsRegulaFalsiRow(f, row) && !Stops(row)
    requires rest != [] ==> RegulaFalsiStep(row, rest[0])
    requires rest == [] || RegulaFalsiTrace(f, rest[0].xl, rest[0].xu, first + 1, rest)
    ensures RegulaFalsiTrace(f, row.xl, row.xu, first, [row] + rest)
  {
    var t := [row] + rest;
    forall i | 0 < i < |t|
      ensures RegulaFalsiLinked(t, i)
    {
      if i > 1 {
        assert RegulaFalsiLinked(rest, i - 1);
      }
    }
  }

  /** Every run of regula falsi that is not aborted hands back a table as described. */
  lemma {:induction false} RegulaFalsiRunIsTrace(f: real -> real, xl: real, xu: real, tol: real,
                                                 first: nat, fuel: nat)
    ensures var r := RegulaFalsiFrom(f, xl, xu, tol, first, fuel);
      !r.ZeroDenominator? ==> RegulaFalsiTrace(f, xl, xu, first, r.trace)
    decreases fuel
  {
    if fuel > 0 && f(xl) != f(xu) {
      var row := RegulaFalsiRow(f, first, xl, xu);
      if !Stops(row) {
        var (l, u) := NextRegulaFalsiBracket(row);
        var rest := RegulaFalsiFrom(f, l, u, tol, first + 1, fuel - 1);
        RegulaFalsiRunIsTrace(f, l, u, tol, first + 1, fuel - 1);
        assert RegulaFalsiFrom(f, xl, xu, tol, first, fuel) == Prepend([row], rest);
        if !rest.ZeroDenominator? {
          RegulaFalsiTraceCons(f, row, first, rest.trace);
        }
      }
    }
  }

  /** A converged run has at most `fuel` rows, the last stopping and carrying
      the root; a run out of fuel has `fuel` rows, none stopping; an aborted
      run failed at a step within the fuel. */
  lemma {:induction false} RegulaFalsiRunEnds(f: real -> real, xl: real, xu: real, tol: real,
                                              first: nat, fuel: nat)
    ensures var r := RegulaFalsiFrom(f, xl, xu, tol, first, fuel);
      (r.ZeroDenominator? ==> first <= r.iteration < first + fuel) &&
      (r.Converged? ==> 0 < |r.trace| <= fuel && Stops(Last(r.trace)) && r.root == Last(r.trace).xm) &&
      (r.OutOfFuel? ==> |r.trace| == fuel && forall i :: 0 <= i < fuel ==> !Stops(r.trace[i]))
    decreases fuel
  {
    if fuel > 0 && f(xl) != f(xu) {
      var row := RegulaFalsiRow(f, first, xl, xu);
      if !Stops(row) {
        var (l, u) := NextRegulaFalsiBracket(row);
        var rest := RegulaFalsiFrom(f, l, u, tol, first + 1, fuel - 1);
        RegulaFalsiRunEnds(f, l, u, tol, first + 1, fuel - 1);
        assert RegulaFalsiFrom(f, xl, xu, tol, first, fuel) == Prepend([row], rest);
        if !rest.ZeroDenominator? {
          var t := [row] + rest.trace;
          assert forall i :: 0 < i < |t| ==> t[i] == rest.trace[i - 1];
          if rest.Converged? {
            assert Last(t) == Last(rest.trace);
          }
        }
      }
    }
  }

  /** Conversely, a table as described whose last row stops and that fits in
      `fuel` steps is exactly what the run returns. */
  lemma {:induction false} RegulaFalsiTraceIsRun(f: real -> real, xl: real, xu: real, tol: real, first: nat,
                                                 t: seq<BracketRow>, fuel: nat)
    requires RegulaFalsiTrace(f, xl, xu, first, t)
    requires 0 < |t| <= fuel && Stops(Last(t))
    ensures RegulaFalsiFrom(f, xl, xu, tol, first, fuel) == Converged(t, Last(t).xm)
    decreases fuel
  {
    assert IsRegulaFalsiRow(f, t[0]);
    assert t[0] == RegulaFalsiRow(f, first, xl, xu);
    if |t| > 1 {
      RegulaFalsiTraceTail(f, xl, xu, first, t);
      RegulaFalsiTraceIsRun(f, t[1].xl, t[1].xu, tol, first + 1, t[1..], fuel - 1);
      assert [t[0]] + t[1..] == t;
    }
  }

  /** The bracket the loop holds once the rows `t` are in the table: the
      starting bracket when there are none, else the update after the last. */
  function RegulaFalsiBracketAfter(xl: real, xu: real, t: seq<BracketRow>): (real, real)
  {
    if t == [] then (xl, xu) else NextRegulaFalsiBracket(Last(t))
  }

  /** A run aborts at step `k` exactly when the steps before `k` all ran
      without stopping and the bracket they lead to has `f(xl) == f(xu)`,
      the denominator of the false-position formula. */
  lemma {:induction false} RegulaFalsiAbortsExactly(f: real -> real, xl: real, xu: real, tol: real,
                                                    first: nat, fuel: nat, k: nat)
    ensures RegulaFalsiFrom(f, xl, xu, tol, first, fuel) == ZeroDenominator(k) <==>
      (first <= k < first + fuel &&
       var pre := RegulaFalsiFrom(f, xl, xu, tol, first, k - first);
       pre.OutOfFuel? &&
       f(RegulaFalsiBracketAfter(xl, xu, pre.trace).0) == f(RegulaFalsiBracketAfter(xl, xu, pre.trace).1))
    decreases fuel
  {
    if fuel > 0 && f(xl) != f(xu) {
      var row := RegulaFalsiRow(f, first, xl, xu);
      if !Stops(row) {
        var (l, u) := NextRegulaFalsiBracket(row);
        RegulaFalsiAbortsExactly(f, l, u, tol, first + 1, fuel - 1, k);
        assert RegulaFalsiFrom(f, xl, xu, tol, first, fuel)
          == Prepend([row], RegulaFalsiFrom(f, l, u, tol, first + 1, fuel - 1));
        if k > first {
          var rest := RegulaFalsiFrom(f, l, u, tol, first + 1, k - first - 1);
          assert RegulaFalsiFrom(f, xl, xu, tol, first, k - first) == Prepend([row], rest);
          if rest.OutOfFuel? {
            if rest.trace != [] {
              assert Last([row] + rest.trace) == Last(rest.trace);
            } else {
              assert [row] + rest.trace == [row];
            }
          }
        }
      }
    }
  }

  /** Started on a sign change (`f(xl) * f(xu) <= 0`), every row still has one. */
  lemma {:induction false} RegulaFalsiKeepsSignChange(f: real -> real, xl: real, xu: real, first: nat,
                                                      t: seq<BracketRow>)
    requires RegulaFalsiTrace(f, xl, xu, first, t)
    requires Times(f(xl), f(xu)) <= 0.0
    ensures forall i :: 0 <= i < |t| ==> Times(t[i].fxl, t[i].fxu) <= 0.0
    decreases |t|
  {
    if |t| > 1 {
      var rest := t[1..];
      RegulaFalsiTraceTail(f, xl, xu, first, t);
      assert IsRegulaFalsiRow(f, t[0]);
      if t[0].product > 0.0 {
        SameSideKeepsSignChange(f(xl), f(xu), t[0].fxm);
      }
      RegulaFalsiKeepsSignChange(f, t[1].xl, t[1].xu, first + 1, rest);
      assert forall i :: 1 <= i < |t| ==> t[i] == rest[i - 1];
    } else if |t| == 1 {
      assert IsRegulaFalsiRow(f, t[0]);
    }
  }
}
