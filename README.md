# Root finder core in Dafny

This project models the computational core of a small root-finding tool.
`RootFinder.py` (GUI) and `rootfinder_Console.py` (console) hold line-for-line
identical copies of this core, at lines 9-105 and 10-106 respectively. The
model is written once, and citations below use `RootFinder.py`. The core has
two parts:

- `preprocess_equation` turns the user's notation into Python syntax with four
  ordered rewrites:
  - `x^d` to `x**d` when the `x` starts a word;
  - `<digits>x^<digits>` to `<digits>*x**<digits>`;
  - `<digits>x` not followed by `^` to `<digits>*x`;
  - every remaining `^` to `**`.

  Each `re.sub` is modelled as a leftmost, non-overlapping, left-to-right scan
  over a `string` (`seq<char>`). After a match the scan resumes at the end of
  that match. Look-behind and look-ahead inspect the original characters.
  `\d` is an ASCII digit; a word character is an ASCII letter, digit or `_`.
  This is `equation.dfy`, module `Equation`.
- Five root finders: `bisection_method`, `regula_falsi_method`,
  `fixed_point`, `newton` and `secant`. Each is an imperative Dafny method
  with the source's `while True` loop:
  - it updates its bracket or iterates;
  - it increments `iteration`;
  - it appends one row per pass to `iteration_data`;
  - it returns the table and the root.

  Floats are `real`. The function `f` and its derivative are given
  parameters of type `real -> real`. The methods are in `bracketing.dfy`
  (module `Bracketing`) and `open_methods.dfy` (module `OpenMethods`). They
  share `numeric.dfy` (module `Numeric`): `abs`, the literal threshold, and
  the `Outcome` of a run.

Every root finder is proved in the same way:

1. The method is proved equal to a recursive definition of the run it
   performs. The definition is `XFrom` (for example `BisectionFrom`), and the
   method's `ensures` is `r == XFrom(...)`. The loop invariant uses an
   accumulating form `XLoop`, which mirrors the loop. A lemma `XLoopIsFrom`
   shows it is the same run.
2. Declarative predicates state what each row holds and how consecutive rows
   are linked (`XTrace`).
3. Lemmas prove that every run yields such a table (`XRunIsTrace`), how and
   with what a run ends (`XRunEnds`), and, conversely, that every such table
   ending in a stopping row is what the run returns (`XTraceIsRun`).
4. Method-specific properties come on top:
   - bisection halves its bracket and keeps the midpoint inside it;
   - both bracketing methods keep a sign change;
   - regula falsi ignores `tol`;
   - Newton and fixed point compute the same iterates.

The loops have no bound in the source. Each run here has a `fuel: nat` limit
on the number of passes. A run that reaches the limit ends in
`OutOfFuel(table)`. A run whose step would divide by zero ends in
`ZeroDenominator(step)`:
- `f'(x0) == 0` in `fixed_point` and `newton`;
- `f(xl) == f(xu)` in `regula_falsi_method`;
- `f(x1) == f(x0)` in `secant`.

Three behaviours of the code are worth stating explicitly:
- `regula_falsi_method` takes `tol` but never reads it. Its stopping rule
  compares `abs(f(xl)*f(xm))` with the literal `0.0000004`
  (`RootFinder.py:64`; `RegulaFalsiIgnoresTol`).
- `preprocess_equation` is not idempotent. `"2x^(3)"` gives `"2x**(3)"`,
  and a second pass gives `"2*x**(3)"` (`ExampleNotIdempotent`).
  `PreprocessTwice` states exactly when a second pass changes the output.
- The code divides without checking the denominator. A zero denominator
  ends the modelled run in `ZeroDenominator`, and the `XAbortsExactly`
  lemmas state exactly when that happens.

## Model

| member | source | states |
|---|---|---|
| Numeric.Abs | RootFinder.py:41 | Python's `abs` on a float: the result is non-negative and is `x` or `-x` |
| Numeric.Prepend | RootFinder.py:40 | puts rows in front of a run's table, as `append` builds it pass by pass; an aborted run (`Outcome.ZeroDenominator`) stays aborted |
| Equation.DigitRunEnd | RootFinder.py:10-12 | a greedy `\d+` starting at `i` ends at a position within the string where the text ends or a non-digit stands |
| Equation.DigitRunIsDigits | RootFinder.py:10-12 | every character a greedy `\d+` covers is a digit |
| Equation.BarePowerAt | RootFinder.py:10 | where `\bx\^(\d+)` matches: an `x` at the start of a word, then `^`, then a digit |
| Equation.BarePowerFrom | RootFinder.py:10 | the scan of rule 1 from position `i`: at a match it emits `x**` and the digits, then resumes after the whole digit run; elsewhere it copies one character |
| Equation.BarePower | RootFinder.py:10 | rule 1 on the whole string: the scan from position 0 |
| Equation.CoefficientPowerAt | RootFinder.py:11 | where `(\d+)(x)\^(\d+)` matches: a greedy digit run, then `x`, `^` and a digit |
| Equation.CoefficientPowerFrom | RootFinder.py:11 | the scan of rule 2 from position `i`: at a match it emits the digits, `*x**` and the exponent digits, then resumes after the exponent; elsewhere it copies one character |
| Equation.CoefficientPower | RootFinder.py:11 | rule 2 on the whole string: the scan from position 0 |
| Equation.ImplicitProductAt | RootFinder.py:12 | where `(\d+)(x)(?![\^])` matches: a greedy digit run, then `x` not followed by `^` |
| Equation.ImplicitProductFrom | RootFinder.py:12 | the scan of rule 3 from position `i`: at a match it emits the digits and `*x`, then resumes after the `x`; elsewhere it copies one character |
| Equation.ImplicitProduct | RootFinder.py:12 | rule 3 on the whole string: the scan from position 0 |
| Equation.ReplaceCaret | RootFinder.py:13 | `replace('^', '**')` leaves no `^` |
| Equation.PreprocessEquation | RootFinder.py:9-14 | the output of the four rewrites never contains `^` |
| Equation.BarePowerKeepsOperands | RootFinder.py:10 | rule 1 changes only operators: with `*` and `^` deleted, its output equals its input |
| Equation.CoefficientPowerKeepsOperands | RootFinder.py:11 | rule 2 changes only operators: with `*` and `^` deleted, its output equals its input |
| Equation.ImplicitProductKeepsOperands | RootFinder.py:12 | rule 3 changes only operators: with `*` and `^` deleted, its output equals its input |
| Equation.ReplaceCaretKeepsOperands | RootFinder.py:13 | the caret replacement changes only operators |
| Equation.PreprocessInsertsOnlyStars | RootFinder.py:10-13 | deleting every `*` from the output equals deleting every `*` and `^` from the input |
| Equation.BarePowerWithoutCaret | RootFinder.py:10 | rule 1 leaves a text without `^` unchanged |
| Equation.CoefficientPowerWithoutCaret | RootFinder.py:11 | rule 2 leaves a text without `^` unchanged |
| Equation.ImplicitProductWithoutDigitBeforeX | RootFinder.py:12 | rule 3 leaves a text with no digit right before `x` unchanged |
| Equation.ReplaceCaretWithoutCaret | RootFinder.py:13 | the caret replacement leaves a text without `^` unchanged |
| Equation.ReplaceOneCaret | RootFinder.py:13 | a single `^` between caret-free texts becomes `**` and nothing else changes |
| Equation.PreprocessIdentity | RootFinder.py:10-13 | an input with no `^` and no digit right before `x` is returned unchanged |
| Equation.MatchIsDigitBeforeX | RootFinder.py:12 | wherever rule 3 matches, the text has a digit right before `x` |
| Equation.DigitXIsMatch | RootFinder.py:12 | in a text without `^`, a digit right before `x` is a place where rule 3 matches |
| Equation.ImplicitProductKeepsCaretOut | RootFinder.py:12 | rule 3 introduces no `^` |
| Equation.ImplicitProductNeverShrinks | RootFinder.py:12 | rule 3 never shortens the text |
| Equation.ImplicitProductGrowsAt | RootFinder.py:12 | rule 3 lengthens a caret-free text that has a digit right before `x` |
| Equation.PreprocessWithoutCaret | RootFinder.py:10-13 | on a text without `^`, only rule 3 changes anything |
| Equation.PreprocessTwice | rootfinder_Console.py:11-14 | a second pass leaves the output unchanged exactly when the output has no digit right before `x` |
| Equation.ExampleCoefficientAndProduct | RootFinder.py:9-14 | `"2x^2+3x"` becomes `"2*x**2+3*x"` |
| Equation.ExampleBarePower | RootFinder.py:9-14 | `"x^2-4"` becomes `"x**2-4"` |
| Equation.ExampleResumeAfterMatch | RootFinder.py:9-14 | `"2x^2x^3"` becomes `"2*x**2x**3"`, because each scan resumes after its match |
| Equation.ExampleNotIdempotent | rootfinder_Console.py:11-14 | `"2x^(3)"` becomes `"2x**(3)"`, and a second pass turns that into `"2*x**(3)"` |
| Bracketing.SameSideKeepsSignChange | RootFinder.py:43-44 | if `f(a)*f(b) <= 0` and `f(a)*f(m) > 0`, then `f(m)*f(b) <= 0` |
| Bracketing.BisectionRow | RootFinder.py:29-40 | the row `[iteration, xl, f(xl), xm, f(xm), xu, f(xu), f(xl)*f(xm)]` with `xm = (xl+xu)/2` |
| Bracketing.NextBisectionBracket | RootFinder.py:43-46 | the bracket update: a positive product moves `xl` to `xm`, a negative one moves `xu`, and neither update fires otherwise |
| Bracketing.BisectionFrom | RootFinder.py:28-46 | the run from a bracket: one row per pass, stop with that row's `xm` once `abs(product) <= 0.0000004`, else continue from the updated bracket; at most `fuel` passes |
| Bracketing.BisectionLoopIsFrom | RootFinder.py:26-46 | continuing the loop with rows already in `iteration_data` equals those rows followed by the run from the current bracket |
| Bracketing.BisectionLoopStarts | RootFinder.py:26-28 | from an empty table and step 1, the loop's run is `BisectionFrom` |
| Bracketing.Bisection | RootFinder.py:25-46 | `bisection_method` returns exactly the run `BisectionFrom(f, lower, upper, 1, fuel)` |
| Bracketing.BisectionTraceTail | RootFinder.py:41-46 | in a bisection table, the first row did not stop and led to the second; the rest is the table of the run from the second row's bracket |
| Bracketing.BisectionTraceCons | RootFinder.py:40-46 | a well-formed non-stopping row, in front of the table from the bracket it leads to, is a bisection table |
| Bracketing.BisectionRunIsTrace | RootFinder.py:35-46 | bisection never aborts. Rows are numbered 1, 2, … in order. Each row has `xm = (xl+xu)/2`, the values of `f`, and last column `f(xl)*f(xm)`. The first row is on the given bracket. A positive product moves `xl` to `xm`, a negative one moves `xu`. Every row but the last fails the stopping rule |
| Bracketing.BisectionRunEnds | RootFinder.py:41-42 | a returned table is non-empty and fits the fuel. Its last row has `abs(product) <= 0.0000004`, and the returned root is that row's `xm`. A run out of fuel has no stopping row |
| Bracketing.BisectionTraceIsRun | RootFinder.py:25-46 | any table satisfying the trace predicate whose last row stops is exactly what bisection returns, with that row's `xm` |
| Bracketing.BisectionHalvesWidth | RootFinder.py:35-46 | row `i`'s bracket width is the initial width over `2^i` |
| Bracketing.BisectionMidpointInside | RootFinder.py:35 | starting from `xl < xu`, every row has `xl < xm < xu` |
| Bracketing.BisectionKeepsSignChange | RootFinder.py:43-46 | starting on a sign change `f(xl)*f(xu) <= 0`, every row's bracket still has one |
| Bracketing.FalsePosition | RootFinder.py:58 | the point `xu - f(xu)*(xl-xu)/(f(xl)-f(xu))`, defined when `f(xl) != f(xu)` |
| Bracketing.RegulaFalsiRow | RootFinder.py:52-63 | the row `[iteration, xl, f(xl), xm, f(xm), xu, f(xu), f(xl)*f(xm)]` with `xm` the false-position point |
| Bracketing.NextRegulaFalsiBracket | RootFinder.py:66-69 | the bracket update: a positive product moves `xl` to `xm`; any other product, zero included, moves `xu` |
| Bracketing.RegulaFalsiFrom | RootFinder.py:51-69 | the run from a bracket: abort with `ZeroDenominator` when `f(xl) == f(xu)`, else one row per pass, stop once `abs(product) <= 0.0000004`, else continue from the updated bracket |
| Bracketing.RegulaFalsiLoopIsFrom | RootFinder.py:49-69 | continuing the loop with rows already in `iteration_data` equals those rows followed by the run from the current bracket |
| Bracketing.RegulaFalsiLoopStarts | RootFinder.py:49-51 | from an empty table and step 1, the loop's run is `RegulaFalsiFrom` |
| Bracketing.RegulaFalsi | RootFinder.py:48-69 | `regula_falsi_method` returns exactly the run `RegulaFalsiFrom(f, lower, upper, tol, 1, fuel)` |
| Bracketing.RegulaFalsiIgnoresTol | RootFinder.py:48-69 | the run is the same whatever `tol` is |
| Bracketing.RegulaFalsiTraceTail | RootFinder.py:64-69 | in a regula falsi table, the first row did not stop and led to the second; the rest is the table of the run from the second row's bracket |
| Bracketing.RegulaFalsiTraceCons | RootFinder.py:63-69 | a well-formed non-stopping row, in front of the table from the bracket it leads to, is a regula falsi table |
| Bracketing.RegulaFalsiRunIsTrace | RootFinder.py:58-69 | rows are numbered 1, 2, … and have `xm = xu - f(xu)*(xl-xu)/(f(xl)-f(xu))`. A positive product moves `xl`; any other product, zero included, moves `xu`. Every row but the last fails the stopping rule |
| Bracketing.RegulaFalsiRunEnds | RootFinder.py:64-65 | a returned table is non-empty and fits the fuel. Its last row has `abs(product) <= 0.0000004`, and the root is that row's `xm`. An abort happens at a step within the fuel |
| Bracketing.RegulaFalsiTraceIsRun | RootFinder.py:48-69 | any table satisfying the trace predicate whose last row stops is exactly what regula falsi returns |
| Bracketing.RegulaFalsiBracketAfter | RootFinder.py:66-69 | the bracket the loop holds after a table: the starting bracket for an empty table, else the update after the last row |
| Bracketing.RegulaFalsiAbortsExactly | RootFinder.py:58 | a run aborts at step `k` if and only if `k` is within the fuel, the steps before `k` ran without stopping, and the bracket they lead to has `f(xl) == f(xu)` |
| Bracketing.RegulaFalsiKeepsSignChange | RootFinder.py:66-69 | starting on a sign change, every row's bracket still has one |
| OpenMethods.FixedPointMap | RootFinder.py:74 | `g(x) = x - f(x)/f'(x)`, defined when `f'(x) != 0` |
| OpenMethods.FixedPointFrom | RootFinder.py:75-81 | the run from an iterate: abort with `ZeroDenominator` when `f'(x0) == 0`, else the row `[k, x0, g(x0), abs(g(x0)-x0)]`, stop with `g(x0)` once the error is at most `tol`, else continue from `g(x0)` |
| OpenMethods.FixedPointLoopIsFrom | RootFinder.py:72-81 | continuing the loop with rows already in `iteration_data` equals those rows followed by the run from the current iterate |
| OpenMethods.FixedPointLoopStarts | RootFinder.py:72-75 | from an empty table and step 1, the loop's run is `FixedPointFrom` |
| OpenMethods.FixedPoint | RootFinder.py:71-81 | `fixed_point` returns exactly the run `FixedPointFrom(f, df, guess, tol, 1, fuel)` |
| OpenMethods.FixedPointTraceTail | RootFinder.py:79-81 | in a fixed-point table, the first row's error exceeds `tol` and its `g(xn)` is the second row's `xn` |
| OpenMethods.FixedPointTraceCons | RootFinder.py:78-81 | a well-formed row with error above `tol`, in front of the table from its `g(xn)`, is a fixed-point table |
| OpenMethods.FixedPointRunIsTrace | RootFinder.py:74-81 | each row is `[k, xn, g(xn), abs(g(xn)-xn)]` with `g(x) = x - f(x)/f'(x)`. Rows are numbered 1, 2, …. Row `k+1`'s `xn` is row `k`'s `g(xn)`. Every row but the last has error above `tol` |
| OpenMethods.FixedPointRunEnds | RootFinder.py:79-80 | a returned table is non-empty and fits the fuel. Its last row has error at most `tol`, and the root is that row's `g(xn)` |
| OpenMethods.FixedPointTraceIsRun | RootFinder.py:71-81 | any table satisfying the trace predicate whose last row is within `tol` is exactly what `fixed_point` returns |
| OpenMethods.FixedPointIterateAfter | RootFinder.py:81 | the iterate the loop holds after a table: the guess for an empty table, else the last row's `g(xn)` |
| OpenMethods.FixedPointAbortsExactly | RootFinder.py:74 | a run aborts at step `k` if and only if `k` is within the fuel, the steps before `k` ran without stopping, and the iterate they lead to has `f'(x) == 0` |
| OpenMethods.NewtonFrom | RootFinder.py:86-92 | the run from an iterate: abort with `ZeroDenominator` when `f'(x0) == 0`, else the row `[k, x0, f(x0), f'(x0), x1]` with `x1 = x0 - f(x0)/f'(x0)`, stop with `x1` once `abs(x1-x0) <= tol`, else continue from `x1` |
| OpenMethods.NewtonLoopIsFrom | RootFinder.py:84-92 | continuing the loop with rows already in `iteration_data` equals those rows followed by the run from the current iterate |
| OpenMethods.NewtonLoopStarts | RootFinder.py:84-86 | from an empty table and step 1, the loop's run is `NewtonFrom` |
| OpenMethods.Newton | RootFinder.py:83-92 | `newton` returns exactly the run `NewtonFrom(f, df, guess, tol, 1, fuel)` |
| OpenMethods.NewtonTraceTail | RootFinder.py:90-92 | in a Newton table, the first row did not stop and its last column is the second row's `xn` |
| OpenMethods.NewtonTraceCons | RootFinder.py:89-92 | a well-formed non-stopping row, in front of the table from its last column, is a Newton table |
| OpenMethods.NewtonRunIsTrace | RootFinder.py:87-92 | each row is `[k, xn, f(xn), f'(xn), xn - f(xn)/f'(xn)]`. Rows are numbered 1, 2, …. Row `k`'s last column is row `k+1`'s `xn`. Every row but the last fails `abs(x1 - x0) <= tol` |
| OpenMethods.NewtonRunEnds | RootFinder.py:90-91 | a returned table is non-empty and fits the fuel. Its last row satisfies `abs(x1 - x0) <= tol`, and the root is that row's last column |
| OpenMethods.NewtonTraceIsRun | RootFinder.py:83-92 | any table satisfying the trace predicate whose last row stops is exactly what `newton` returns |
| OpenMethods.NewtonIterateAfter | RootFinder.py:92 | the iterate the loop holds after a table: the guess for an empty table, else the last row's new iterate |
| OpenMethods.NewtonAbortsExactly | RootFinder.py:87 | a run aborts at step `k` if and only if `k` is within the fuel, the steps before `k` ran without stopping, and the iterate they lead to has `f'(x) == 0` |
| OpenMethods.NewtonMatchesFixedPoint | RootFinder.py:74-92 | on the same `f`, `f'`, `x0` and `tol`, `fixed_point` and `newton` produce the same iterates, the same number of rows, the same outcome and the same root |
| OpenMethods.SecantPoint | RootFinder.py:100 | the point `x1 - f(x1)*(x1-x0)/(f(x1)-f(x0))`, defined when `f(x1) != f(x0)` |
| OpenMethods.SecantFrom | RootFinder.py:97-105 | the run from two iterates: abort with `ZeroDenominator` when `f(x1) == f(x0)`, else the row `[k, x1, f(x1), x0, f(x0), x2]`, stop with `x2` once `abs(x2-x1) <= tol`, else continue from `(x1, x2)` |
| OpenMethods.SecantLoopIsFrom | RootFinder.py:95-105 | continuing the loop with rows already in `iteration_data` equals those rows followed by the run from the current iterates |
| OpenMethods.SecantLoopStarts | RootFinder.py:95-97 | from an empty table and step 1, the loop's run is `SecantFrom` |
| OpenMethods.Secant | RootFinder.py:94-105 | `secant` returns exactly the run `SecantFrom(f, start0, start1, tol, 1, fuel)` |
| OpenMethods.SecantTraceTail | RootFinder.py:103-105 | in a secant table, the first row did not stop; the second row's `x0` is the first row's `x1`, and its `x1` is the first row's `x2` |
| OpenMethods.SecantTraceCons | RootFinder.py:102-105 | a well-formed non-stopping row, in front of the table from its `x1` and `x2`, is a secant table |
| OpenMethods.SecantRunIsTrace | RootFinder.py:98-105 | each row is `[k, x1, f(x1), x0, f(x0), x2]` with `x2 = x1 - f(x1)*(x1-x0)/(f(x1)-f(x0))`. Rows are numbered 1, 2, …. Row `k+1` has `x0` equal to row `k`'s `x1` and `x1` equal to row `k`'s `x2` |
| OpenMethods.SecantRunEnds | RootFinder.py:103-104 | a returned table is non-empty and fits the fuel. Its last row satisfies `abs(x2 - x1) <= tol`, and the root is that row's `x2` |
| OpenMethods.SecantTraceIsRun | RootFinder.py:94-105 | any table satisfying the trace predicate whose last row stops is exactly what `secant` returns |
| OpenMethods.SecantIteratesAfter | RootFinder.py:105 | the iterates `(x0, x1)` the loop holds after a table: the two guesses for an empty table, else the last row's `(x1, x2)` |
| OpenMethods.SecantAbortsExactly | RootFinder.py:100 | a run aborts at step `k` if and only if `k` is within the fuel, the steps before `k` ran without stopping, and the iterates they lead to have `f(x1) == f(x0)` |

## Left out

- Parsing the equation with `sympify`, `lambdify` and `diff` (`RootFinder.py:16-23`) is not part of this model. These are foreign symbolic and numeric libraries; `f` and `f'` are parameters.
- The Tkinter window and the console front end are not part of this model (`RootFinder.py:107-263`, `rootfinder_Console.py:108-213`). This covers `show_results`, `process_input`, `main` and the other UI functions, `input`/`print`, and rounding to six places for display.
- Floating point: `real` arithmetic is exact. The model has no IEEE rounding, overflow, NaN or infinity. In particular it does not capture the NaN product under which none of bisection's updates fires and the bracket stays as it is. On reals, the case where neither update fires (the third case of `NextBisectionBracket`) is reached only by a zero product, which already stops the run.
- Bisection, RegulaFalsi, FixedPoint, Newton, Secant: the unbounded `while True` loop is bounded by `fuel`. A run that has not stopped after `fuel` passes ends in `OutOfFuel` with its table. Whether a loop terminates for a given `f` is not modelled.
- RegulaFalsi, FixedPoint, Newton, Secant: a zero denominator ends the run in `ZeroDenominator(step)` with no table. In the source this is a `ZeroDivisionError`, or with numpy values an infinity or NaN that propagates. The model does not follow such values further.
- Newton: `f(x0)` and `f'(x0)` are evaluated once per pass and reused for the row; the source calls them again for the row. `f` and `f'` are pure here, so the values are the same.
- Equation: `\d` and `\b` are ASCII only, so Unicode digits and word characters are not modelled.
