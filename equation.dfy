/**
 `preprocess_equation`: four textual rewrites that turn the user's notation
 (caret exponents, a coefficient written right before `x`) into Python's
 power and multiplication syntax, applied in this order:

   1. `\bx\^(\d+)`          ->  `x**<digits>`
   2. `(\d+)(x)\^(\d+)`     ->  `<digits>*x**<digits>`
   3. `(\d+)(x)(?![\^])`    ->  `<digits>*x`
   4. every remaining `^`   ->  `**`

 Each `re.sub` is a scan over the ORIGINAL string from left to right that
 takes the leftmost match, emits its replacement, and resumes right after
 the match; characters where no match starts are copied. Look-behind (`\b`)
 and look-ahead (`(?!\^)`) therefore look at the original characters.
 `\d` is an ASCII digit and a word character is an ASCII letter, digit or `_`.
 */
module Equation {

  predicate IsDigit(c: char)
  {
    '0' <= c <= '9'
  }

  predicate IsWordChar(c: char)
  {
    'a' <= c <= 'z' || 'A' <= c <= 'Z' || IsDigit(c) || c == '_'
  }

  /** Where a greedy `\d+` that starts at `i` stops: the end of the longest
      run of digits beginning at `i` (`i` itself when `s[i]` is no digit). */
  function DigitRunEnd(s: string, i: nat): (j: nat)
    requires i <= |s|
    ensures i <= j <= |s|
    ensures j == |s| || !IsDigit(s[j])
    decreases |s| - i
  {
    if i < |s| && IsDigit(s[i]) then DigitRunEnd(s, i + 1) else i
  }

  /** Every character the run covers is a digit. */
  lemma {:induction false} DigitRunIsDigits(s: string, i: nat)
    requires i <= |s|
    ensures forall k :: i <= k < DigitRunEnd(s, i) ==> IsDigit(s[k])
    decreases |s| - i
  {
    if i < |s| && IsDigit(s[i]) {
      DigitRunIsDigits(s, i + 1);
    }
  }

  // ---------------------------------------------------------------------
  // Rule 1: `\bx\^(\d+)` -> `x**\1`

  /** `\bx\^(\d+)` matches at `i`: an `x` that starts a word, a caret, a digit. */
  predicate BarePowerAt(s: string, i: nat)
  {
    i + 2 < |s| && s[i] == 'x' && s[i + 1] == '^' && IsDigit(s[i + 2]) &&
    (i == 0 || !IsWordChar(s[i - 1]))
  }

  function BarePowerFrom(s: string, i: nat): string
    requires i <= |s|
    decreases |s| - i
  {
    if i == |s| then []
    else if BarePowerAt(s, i) then
      var j := DigitRunEnd(s, i + 2);
      "x**" + s[i + 2..j] + BarePowerFrom(s, j)
    else [s[i]] + BarePowerFrom(s, i + 1)
  }

  function BarePower(s: string): string
  {
    BarePowerFrom(s, 0)
  }

  // ---------------------------------------------------------------------
  // Rule 2: `(\d+)(x)\^(\d+)` -> `\1*\2**\3`

  /** `(\d+)(x)\^(\d+)` matches at `i`. Backtracking `\d+` to fewer digits
      would leave a digit where `x` is needed, so only the greedy run counts. */
  predicate CoefficientPowerAt(s: string, i: nat)
  {
    i < |s| && IsDigit(s[i]) &&
    var j := DigitRunEnd(s, i);
    j + 2 < |s| && s[j] == 'x' && s[j + 1] == '^' && IsDigit(s[j + 2])
  }

  function CoefficientPowerFrom(s: string, i: nat): string
    requires i <= |s|
    decreases |s| - i
  {
    if i == |s| then []
    else if CoefficientPowerAt(s, i) then
      var j := DigitRunEnd(s, i);
      var k := DigitRunEnd(s, j + 2);
      s[i..j] + "*x**" + s[j + 2..k] + CoefficientPowerFrom(s, k)
    else [s[i]] + CoefficientPowerFrom(s, i + 1)
  }

  function CoefficientPower(s: string): string
  {
    CoefficientPowerFrom(s, 0)
  }

  // ---------------------------------------------------------------------
  // Rule 3: `(\d+)(x)(?![\^])` -> `\1*\2`

  /** `(\d+)(x)(?![\^])` matches at `i`: digits, then `x` not followed by `^`. */
  predicate ImplicitProductAt(s: string, i: nat)
  {
    i < |s| && IsDigit(s[i]) &&
    var j := DigitRunEnd(s, i);
    j < |s| && s[j] == 'x' && !(j + 1 < |s| && s[j + 1] == '^')
  }

  function ImplicitProductFrom(s: string, i: nat): string
    requires i <= |s|
    decreases |s| - i
  {
    if i == |s| then []
    else if ImplicitProductAt(s, i) then
      var j := DigitRunEnd(s, i);
      s[i..j] + "*x" + ImplicitProductFrom(s, j + 1)
    else [s[i]] + ImplicitProductFrom(s, i + 1)
  }

  function ImplicitProduct(s: string): string
  {
    ImplicitProductFrom(s, 0)
  }

  // ---------------------------------------------------------------------
  // Rule 4: `str.replace('^', '**')`

  function ReplaceCaret(s: string): (r: string)
    ensures '^' !in r
  {
    if s == [] then []
    else (if s[0] == '^' then "**" else [s[0]]) + ReplaceCaret(s[1..])
  }

  /** The whole of `preprocess_equation`. */
  function PreprocessEquation(equation: string): (r: string)
    ensures '^' !in r
  {
    ReplaceCaret(ImplicitProduct(CoefficientPower(BarePower(equation))))
  }

  // ---------------------------------------------------------------------
  // What the rewrites insert and delete

  /** `s` with every character of `drop` deleted. */
  function Strip(s: string, drop: set<char>): string
  {
    if s == [] then []
    else (if s[0] in drop then [] else [s[0]]) + Strip(s[1..], drop)
  }

  lemma {:induction false} StripAppend(a: string, b: string, drop: set<char>)
    ensures Strip(a + b, drop) == Strip(a, drop) + Strip(b, drop)
    decreases |a|
  {
    if a == [] {
      assert a + b == b;
    } else {
      assert (a + b)[0] == a[0];
      assert (a + b)[1..] == a[1..] + b;
      StripAppend(a[1..], b, drop);
    }
  }

  const Operators: set<char> := {'*', '^'}

  /** Replacing a piece by one with the same operands, and a tail by one
      with the same operands, keeps the operands of the whole. */
  lemma StripSplice(mid1: string, mid2: string, shared: string, tail1: string, tail2: string, drop: set<char>)
    requires Strip(mid1, drop) == Strip(mid2, drop) && Strip(tail1, drop) == Strip(tail2, drop)
    ensures Strip(mid1 + shared + tail1, drop) == Strip(mid2 + shared + tail2, drop)
  {
    StripAppend(mid1 + shared, tail1, drop);
    StripAppend(mid1, shared, drop);
    StripAppend(mid2 + shared, tail2, drop);
    StripAppend(mid2, shared, drop);
  }

  /** The same, behind a common prefix. */
  lemma StripSpliceAfter(prefix: string, mid1: string, mid2: string, tail1: string, tail2: string,
                         drop: set<char>)
    requires Strip(mid1, drop) == Strip(mid2, drop) && Strip(tail1, drop) == Strip(tail2, drop)
    ensures Strip(prefix + mid1 + tail1, drop) == Strip(prefix + mid2 + tail2, drop)
  {
    StripAppend(prefix + mid1, tail1, drop);
    StripAppend(prefix, mid1, drop);
    StripAppend(prefix + mid2, tail2, drop);
    StripAppend(prefix, mid2, drop);
  }

  /** Only the `x` of each inserted or replaced piece is an operand. */
  lemma InsertedPiecesKeepOperands()
    ensures Strip("x**", Operators) == Strip("x^", Operators) == "x"
    ensures Strip("*x**", Operators) == "x"
    ensures Strip("*x", Operators) == Strip("x", Operators) == "x"
  {
    assert "x**"[1..] == "**" && "**"[1..] == "*" && "*"[1..] == [];
    assert "x^"[1..] == "^" && "^"[1..] == [];
    assert "*x**"[1..] == "x**";
    assert "*x"[1..] == "x" && "x"[1..] == [];
  }

  /** The copied character case shared by the three scans. */
  lemma CopyKeepsOperands(s: string, i: nat, rest: string)
    requires i < |s| && Strip(rest, Operators) == Strip(s[i + 1..], Operators)
    ensures Strip([s[i]] + rest, Operators) == Strip(s[i..], Operators)
  {
    assert s[i..] == [s[i]] + s[i + 1..];
    StripAppend([s[i]], rest, Operators);
    StripAppend([s[i]], s[i + 1..], Operators);
  }

  /** `s[i..]` cut around an `x^` at `i` and at `j`. */
  lemma SplitAtCaret(s: string, i: nat, j: nat)
    requires i + 2 <= j <= |s| && s[i] == 'x' && s[i + 1] == '^'
    ensures s[i..] == "x^" + s[i + 2..j] + s[j..]
  {
    assert s[i..] == s[i..i + 2] + s[i + 2..j] + s[j..];
  }

  /** `s[i..]` cut around an `x^` at `j` and at `k`. */
  lemma SplitAtInnerCaret(s: string, i: nat, j: nat, k: nat)
    requires i <= j && j + 2 <= k <= |s| && s[j] == 'x' && s[j + 1] == '^'
    ensures s[i..] == s[i..j] + "x^" + s[j + 2..k] + s[k..]
  {
    assert s[i..] == s[i..j] + s[j..j + 2] + s[j + 2..k] + s[k..];
  }

  /** `s[i..]` cut around an `x` at `j`. */
  lemma SplitAtX(s: string, i: nat, j: nat)
    requires i <= j < |s| && s[j] == 'x'
    ensures s[i..] == s[i..j] + "x" + s[j + 1..]
  {
    assert s[i..] == s[i..j] + s[j..j + 1] + s[j + 1..];
  }

  // One step of each scan, where it matches and where it copies.

  lemma BarePowerMatchStep(s: string, i: nat)
    requires BarePowerAt(s, i)
    ensures var j := DigitRunEnd(s, i + 2);
      BarePowerFrom(s, i) == "x**" + s[i + 2..j] + BarePowerFrom(s, j)
  {
  }

  lemma BarePowerCopyStep(s: string, i: nat)
    requires i < |s| && !BarePowerAt(s, i)
    ensures BarePowerFrom(s, i) == [s[i]] + BarePowerFrom(s, i + 1)
  {
  }

  lemma CoefficientPowerMatchStep(s: string, i: nat)
    requires CoefficientPowerAt(s, i)
    ensures i < DigitRunEnd(s, i) && DigitRunEnd(s, i) + 2 < |s|
    ensures var j := DigitRunEnd(s, i);
      var k := DigitRunEnd(s, j + 2);
      CoefficientPowerFrom(s, i) == s[i..j] + "*x**" + s[j + 2..k] + CoefficientPowerFrom(s, k)
  {
  }

  lemma CoefficientPowerCopyStep(s: string, i: nat)
    requires i < |s| && !CoefficientPowerAt(s, i)
    ensures CoefficientPowerFrom(s, i) == [s[i]] + CoefficientPowerFrom(s, i + 1)
  {
  }

  lemma ImplicitProductMatchStep(s: string, i: nat)
    requires ImplicitProductAt(s, i)
    ensures var j := DigitRunEnd(s, i);
      ImplicitProductFrom(s, i) == s[i..j] + "*x" + ImplicitProductFrom(s, j + 1)
  {
  }

  lemma ImplicitProductCopyStep(s: string, i: nat)
    requires i < |s| && !ImplicitProductAt(s, i)
    ensures ImplicitProductFrom(s, i) == [s[i]] + ImplicitProductFrom(s, i + 1)
  {
  }

  lemma BarePowerMatchKeepsOperands(s: string, i: nat)
    requires BarePowerAt(s, i)
    requires var j := DigitRunEnd(s, i + 2);
      Strip(BarePowerFrom(s, j), Operators) == Strip(s[j..], Operators)
    ensures Strip(BarePowerFrom(s, i), Operators) == Strip(s[i..], Operators)
  {
    var j := DigitRunEnd(s, i + 2);
    InsertedPiecesKeepOperands();
    StripSplice("x**", "x^", s[i + 2..j], BarePowerFrom(s, j), s[j..], Operators);
    SplitAtCaret(s, i, j);
    BarePowerMatchStep(s, i);
  }

  lemma {:induction false} BarePowerKeepsOperands(s: string, i: nat)
    requires i <= |s|
    ensures Strip(BarePowerFrom(s, i), Operators) == Strip(s[i..], Operators)
    decreases |s| - i
  {
    if i < |s| {
      if BarePowerAt(s, i) {
        BarePowerKeepsOperands(s, DigitRunEnd(s, i + 2));
        BarePowerMatchKeepsOperands(s, i);
      } else {
        BarePowerKeepsOperands(s, i + 1);
        CopyKeepsOperands(s, i, BarePowerFrom(s, i + 1));
        BarePowerCopyStep(s, i);
      }
    }
  }

  lemma CoefficientPowerMatchKeepsOperands(s: string, i: nat)
    requires CoefficientPowerAt(s, i)
    requires var k := DigitRunEnd(s, DigitRunEnd(s, i) + 2);
      Strip(CoefficientPowerFrom(s, k), Operators) == Strip(s[k..], Operators)
    ensures Strip(CoefficientPowerFrom(s, i), Operators) == Strip(s[i..], Operators)
  {
    var j := DigitRunEnd(s, i);
    var k := DigitRunEnd(s, j + 2);
    InsertedPiecesKeepOperands();
    StripAppend(s[i..j], "*x**", Operators);
    StripAppend(s[i..j], "x^", Operators);
    StripSplice(s[i..j] + "*x**", s[i..j] + "x^", s[j + 2..k], CoefficientPowerFrom(s, k), s[k..], Operators);
    SplitAtInnerCaret(s, i, j, k);
    CoefficientPowerMatchStep(s, i);
  }

  lemma {:induction false} CoefficientPowerKeepsOperands(s: string, i: nat)
    requires i <= |s|
    ensures Strip(CoefficientPowerFrom(s, i), Operators) == Strip(s[i..], Operators)
    decreases |s| - i
  {
    if i < |s| {
      if CoefficientPowerAt(s, i) {
        var j := DigitRunEnd(s, i);
        assert i < j && j + 2 < |s|;
        CoefficientPowerKeepsOperands(s, DigitRunEnd(s, j + 2));
        CoefficientPowerMatchKeepsOperands(s, i);
      } else {
        CoefficientPowerKeepsOperands(s, i + 1);
        CopyKeepsOperands(s, i, CoefficientPowerFrom(s, i + 1));
        CoefficientPowerCopyStep(s, i);
      }
    }
  }

  lemma ImplicitProductMatchKeepsOperands(s: string, i: nat)
    requires ImplicitProductAt(s, i)
    requires var j := DigitRunEnd(s, i);
      Strip(ImplicitProductFrom(s, j + 1), Operators) == Strip(s[j + 1..], Operators)
    ensures Strip(ImplicitProductFrom(s, i), Operators) == Strip(s[i..], Operators)
  {
    var j := DigitRunEnd(s, i);
    InsertedPiecesKeepOperands();
    StripSpliceAfter(s[i..j], "*x", "x", ImplicitProductFrom(s, j + 1), s[j + 1..], Operators);
    SplitAtX(s, i, j);
    ImplicitProductMatchStep(s, i);
  }

  lemma {:induction false} ImplicitProductKeepsOperands(s: string, i: nat)
    requires i <= |s|
    ensures Strip(ImplicitProductFrom(s, i), Operators) == Strip(s[i..], Operators)
    decreases |s| - i
  {
    if i < |s| {
      if ImplicitProductAt(s, i) {
        ImplicitProductKeepsOperands(s, DigitRunEnd(s, i) + 1);
        ImplicitProductMatchKeepsOperands(s, i);
      } else {
        ImplicitProductKeepsOperands(s, i + 1);
        CopyKeepsOperands(s, i, ImplicitProductFrom(s, i + 1));
        ImplicitProductCopyStep(s, i);
      }
    }
  }

  lemma {:induction false} ReplaceCaretKeepsOperands(s: string)
    ensures Strip(ReplaceCaret(s), Operators) == Strip(s, Operators)
  {
    if s != [] {
      ReplaceCaretKeepsOperands(s[1..]);
      StripAppend(if s[0] == '^' then "**" else [s[0]], ReplaceCaret(s[1..]), Operators);
    }
  }

  /** Deleting `*` and `^` from a string without `^` is deleting `*`. */
  lemma {:induction false} StripStarsOnly(s: string)
    requires '^' !in s
    ensures Strip(s, {'*'}) == Strip(s, Operators)
  {
    if s != [] {
      assert s[0] in s;
      assert forall c :: c in s[1..] ==> c in s;
      StripStarsOnly(s[1..]);
    }
  }

  /** Only `*` is ever inserted and `^` only turns into `**`: deleting every
      `*` from the output leaves the input with every `*` and `^` deleted. */
  lemma PreprocessInsertsOnlyStars(equation: string)
    ensures Strip(PreprocessEquation(equation), {'*'}) == Strip(equation, {'*', '^'})
  {
    var s1 := BarePower(equation);
    var s2 := CoefficientPower(s1);
    var s3 := ImplicitProduct(s2);
    BarePowerKeepsOperands(equation, 0);
    assert equation[0..] == equation;
    CoefficientPowerKeepsOperands(s1, 0);
    assert s1[0..] == s1;
    ImplicitProductKeepsOperands(s2, 0);
    assert s2[0..] == s2;
    ReplaceCaretKeepsOperands(s3);
    StripStarsOnly(PreprocessEquation(equation));
  }

  // ---------------------------------------------------------------------
  // Inputs the rewrites leave alone

  /** Some digit is immediately followed by `x`. */
  predicate DigitBeforeX(s: string)
  {
    exists i :: 0 <= i < |s| - 1 && IsDigit(s[i]) && s[i + 1] == 'x'
  }

  lemma {:induction false} BarePowerWithoutCaret(s: string, i: nat)
    requires i <= |s| && '^' !in s
    ensures BarePowerFrom(s, i) == s[i..]
    decreases |s| - i
  {
    if i < |s| {
      assert !BarePowerAt(s, i) by {
        if i + 1 < |s| { assert s[i + 1] in s; }
      }
      BarePowerWithoutCaret(s, i + 1);
      assert s[i..] == [s[i]] + s[i + 1..];
    }
  }

  lemma {:induction false} CoefficientPowerWithoutCaret(s: string, i: nat)
    requires i <= |s| && '^' !in s
    ensures CoefficientPowerFrom(s, i) == s[i..]
    decreases |s| - i
  {
    if i < |s| {
      assert !CoefficientPowerAt(s, i) by {
        var j := DigitRunEnd(s, i);
        if j + 1 < |s| { assert s[j + 1] in s; }
      }
      CoefficientPowerWithoutCaret(s, i + 1);
      assert s[i..] == [s[i]] + s[i + 1..];
    }
  }

  lemma MatchIsDigitBeforeX(s: string, i: nat)
    requires ImplicitProductAt(s, i)
    ensures DigitBeforeX(s)
  {
    var j := DigitRunEnd(s, i);
    DigitRunIsDigits(s, i);
    assert IsDigit(s[j - 1]) && s[j] == 'x';
  }

  /** Where a digit stands right before `x` and no `^` follows, rule 3 matches. */
  lemma DigitXIsMatch(s: string, i: nat)
    requires '^' !in s && i + 1 < |s| && IsDigit(s[i]) && s[i + 1] == 'x'
    ensures ImplicitProductAt(s, i)
  {
    assert DigitRunEnd(s, i + 1) == i + 1;
    if i + 2 < |s| { assert s[i + 2] in s; }
  }

  lemma {:induction false} ImplicitProductWithoutDigitBeforeX(s: string, i: nat)
    requires i <= |s| && !DigitBeforeX(s)
    ensures ImplicitProductFrom(s, i) == s[i..]
    decreases |s| - i
  {
    if i < |s| {
      if ImplicitProductAt(s, i) {
        MatchIsDigitBeforeX(s, i);
        assert false;
      }
      ImplicitProductWithoutDigitBeforeX(s, i + 1);
      assert s[i..] == [s[i]] + s[i + 1..];
    }
  }

  lemma {:induction false} ReplaceCaretWithoutCaret(s: string)
    requires '^' !in s
    ensures ReplaceCaret(s) == s
  {
    if s != [] {
      assert s[0] in s;
      assert forall c :: c in s[1..] ==> c in s;
      ReplaceCaretWithoutCaret(s[1..]);
    }
  }

  /** An equation without `^` and without a digit right before `x` comes back unchanged. */
  lemma PreprocessIdentity(equation: string)
    requires '^' !in equation && !DigitBeforeX(equation)
    ensures PreprocessEquation(equation) == equation
  {
    BarePowerWithoutCaret(equation, 0);
    CoefficientPowerWithoutCaret(equation, 0);
    ImplicitProductWithoutDigitBeforeX(equation, 0);
    ReplaceCaretWithoutCaret(equation);
  }

  // ---------------------------------------------------------------------
  // Running the rewrites twice

  lemma ImplicitProductMatchKeepsCaretOut(s: string, i: nat)
    requires ImplicitProductAt(s, i) && '^' !in s
    requires '^' !in ImplicitProductFrom(s, DigitRunEnd(s, i) + 1)
    ensures '^' !in ImplicitProductFrom(s, i)
  {
    var j := DigitRunEnd(s, i);
    assert '^' !in s[i..j] by {
      forall k | i <= k < j ensures s[k] != '^' { assert s[k] in s; }
    }
    ImplicitProductMatchStep(s, i);
  }

  lemma {:induction false} ImplicitProductKeepsCaretOut(s: string, i: nat)
    requires i <= |s| && '^' !in s
    ensures '^' !in ImplicitProductFrom(s, i)
    decreases |s| - i
  {
    if i < |s| {
      if ImplicitProductAt(s, i) {
        ImplicitProductKeepsCaretOut(s, DigitRunEnd(s, i) + 1);
        ImplicitProductMatchKeepsCaretOut(s, i);
      } else {
        ImplicitProductKeepsCaretOut(s, i + 1);
        assert s[i] in s;
        ImplicitProductCopyStep(s, i);
      }
    }
  }

  /** Rule 3 never shortens the text. */
  lemma {:induction false} ImplicitProductNeverShrinks(s: string, i: nat)
    requires i <= |s|
    ensures |ImplicitProductFrom(s, i)| >= |s| - i
    decreases |s| - i
  {
    if i < |s| {
      if ImplicitProductAt(s, i) {
        ImplicitProductNeverShrinks(s, DigitRunEnd(s, i) + 1);
        ImplicitProductMatchStep(s, i);
      } else {
        ImplicitProductNeverShrinks(s, i + 1);
        ImplicitProductCopyStep(s, i);
      }
    }
  }

  /** A match of rule 3 emits one character more than it consumes. */
  lemma ImplicitProductMatchGrows(s: string, i: nat)
    requires ImplicitProductAt(s, i)
    requires var j := DigitRunEnd(s, i); |ImplicitProductFrom(s, j + 1)| >= |s| - (j + 1)
    ensures |ImplicitProductFrom(s, i)| > |s| - i
  {
    ImplicitProductMatchStep(s, i);
  }

  /** Rule 3 lengthens the text when, from `i` on, a digit stands right
      before an `x` and no `^` follows that `x`. */
  lemma {:induction false} ImplicitProductGrowsAt(s: string, i: nat, p: nat)
    requires i <= p && p + 1 < |s| && IsDigit(s[p]) && s[p + 1] == 'x' && '^' !in s
    ensures |ImplicitProductFrom(s, i)| > |s| - i
    decreases |s| - i
  {
    DigitXIsMatch(s, p);
    if ImplicitProductAt(s, i) {
      var j := DigitRunEnd(s, i);
      if j + 1 <= p {
        ImplicitProductGrowsAt(s, j + 1, p);
      } else {
        ImplicitProductNeverShrinks(s, j + 1);
      }
      ImplicitProductMatchGrows(s, i);
    } else {
      ImplicitProductGrowsAt(s, i + 1, p);
      ImplicitProductCopyStep(s, i);
    }
  }

  /** On a text without `^`, only rule 3 can fire. */
  lemma PreprocessWithoutCaret(s: string)
    requires '^' !in s
    ensures PreprocessEquation(s) == ImplicitProduct(s)
  {
    BarePowerWithoutCaret(s, 0);
    CoefficientPowerWithoutCaret(s, 0);
    ImplicitProductKeepsCaretOut(s, 0);
    ReplaceCaretWithoutCaret(ImplicitProduct(s));
  }

  /** `preprocess_equation` is not idempotent in general: a second pass changes
      its output exactly when that output still has a digit right before `x`. */
  lemma PreprocessTwice(equation: string)
    ensures var once := PreprocessEquation(equation);
      PreprocessEquation(once) == once <==> !DigitBeforeX(once)
  {
    var once := PreprocessEquation(equation);
    PreprocessWithoutCaret(once);
    if DigitBeforeX(once) {
      var p :| 0 <= p < |once| - 1 && IsDigit(once[p]) && once[p + 1] == 'x';
      ImplicitProductGrowsAt(once, 0, p);
    } else {
      ImplicitProductWithoutDigitBeforeX(once, 0);
    }
  }

  // ---------------------------------------------------------------------
  // Worked examples

  // Each worked example is split into one small lemma per rewrite so that
  // every proof unfolds only a few literal steps.

  lemma ExampleCoefficientAndProduct()
    ensures PreprocessEquation("2x^2+3x") == "2*x**2+3*x"
  {
    ExampleCoefficientAndProduct1();
    ExampleCoefficientAndProduct2();
    ExampleCoefficientAndProduct3();
    assert '^' !in "2*x**2+3*x";
    ReplaceCaretWithoutCaret("2*x**2+3*x");
  }

  lemma ExampleCoefficientAndProduct1()
    ensures BarePower("2x^2+3x") == "2x^2+3x"
  {
    var s := "2x^2+3x";
    assert BarePowerFrom(s, 7) == [];
    assert BarePowerFrom(s, 6) == "x";
    assert BarePowerFrom(s, 5) == "3x";
    assert BarePowerFrom(s, 4) == "+3x";
    assert BarePowerFrom(s, 3) == "2+3x";
    assert BarePowerFrom(s, 2) == "^2+3x";
    assert BarePowerFrom(s, 1) == "x^2+3x";
  }

  lemma ExampleCoefficientAndProduct2()
    ensures CoefficientPower("2x^2+3x") == "2*x**2+3x"
  {
    var s := "2x^2+3x";
    assert CoefficientPowerFrom(s, 7) == [];
    assert CoefficientPowerFrom(s, 6) == "x";
    assert CoefficientPowerFrom(s, 5) == "3x";
    assert CoefficientPowerFrom(s, 4) == "+3x";
    assert DigitRunEnd(s, 0) == 1;
    assert DigitRunEnd(s, 3) == 4;
  }

  lemma ExampleCoefficientAndProduct3()
    ensures ImplicitProduct("2*x**2+3x") == "2*x**2+3*x"
  {
    var t := "2*x**2+3x";
    assert ImplicitProductFrom(t, 9) == [];
    assert DigitRunEnd(t, 7) == 8;
    assert ImplicitProductFrom(t, 7) == "3*x";
    assert ImplicitProductFrom(t, 6) == "+3*x";
    assert DigitRunEnd(t, 5) == 6;
    assert ImplicitProductFrom(t, 5) == "2+3*x";
    assert ImplicitProductFrom(t, 4) == "*2+3*x";
    assert ImplicitProductFrom(t, 3) == "**2+3*x";
    assert ImplicitProductFrom(t, 2) == "x**2+3*x";
    assert ImplicitProductFrom(t, 1) == "*x**2+3*x";
    assert DigitRunEnd(t, 0) == 1;
  }

  lemma ExampleBarePower()
    ensures PreprocessEquation("x^2-4") == "x**2-4"
  {
    ExampleBarePower1();
    var t := "x**2-4";
    assert '^' !in t;
    CoefficientPowerWithoutCaret(t, 0);
    ExampleBarePower2();
    ReplaceCaretWithoutCaret(t);
  }

  lemma ExampleBarePower1()
    ensures BarePower("x^2-4") == "x**2-4"
  {
    var s := "x^2-4";
    assert BarePowerFrom(s, 3) == "-4";
    assert DigitRunEnd(s, 2) == 3;
  }

  lemma ExampleBarePower2()
    ensures ImplicitProduct("x**2-4") == "x**2-4"
  {
    var t := "x**2-4";
    assert ImplicitProductFrom(t, 4) == "-4";
    assert DigitRunEnd(t, 3) == 4;
    assert ImplicitProductFrom(t, 3) == "2-4";
  }

  lemma ExampleResumeAfterMatch()
    ensures PreprocessEquation("2x^2x^3") == "2*x**2x**3"
  {
    ExampleResumeAfterMatch1();
    ExampleResumeAfterMatch2();
    ExampleResumeAfterMatch3();
    ExampleResumeAfterMatch4();
  }

  lemma ExampleResumeAfterMatch1()
    ensures BarePower("2x^2x^3") == "2x^2x^3"
  {
    assert BarePowerFrom("2x^2x^3", 4) == "x^3";
  }

  lemma ExampleResumeAfterMatch2()
    ensures CoefficientPower("2x^2x^3") == "2*x**2x^3"
  {
    var s := "2x^2x^3";
    assert CoefficientPowerFrom(s, 4) == "x^3";
    assert DigitRunEnd(s, 0) == 1;
    assert DigitRunEnd(s, 3) == 4;
  }

  lemma ExampleResumeAfterMatch3()
    ensures ImplicitProduct("2*x**2x^3") == "2*x**2x^3"
  {
    assert ImplicitProductFrom("2*x**2x^3", 5) == "2x^3";
  }

  lemma ExampleResumeAfterMatch4()
    ensures ReplaceCaret("2*x**2x^3") == "2*x**2x**3"
  {
    ReplaceOneCaret("2*x**2x", "3");
    ExampleResumeAfterMatchPieces();
  }

  lemma ExampleResumeAfterMatchPieces()
    ensures "2*x**2x" + "^" + "3" == "2*x**2x^3"
    ensures "2*x**2x" + "**" + "3" == "2*x**2x**3"
  {
  }

  lemma ExampleNotIdempotent()
    ensures PreprocessEquation("2x^(3)") == "2x**(3)"
    ensures PreprocessEquation("2x**(3)") == "2*x**(3)"
  {
    ExampleNotIdempotent1();
    ExampleNotIdempotent2();
    var t := "2x**(3)";
    assert '^' !in t;
    PreprocessWithoutCaret(t);
    ExampleNotIdempotent3();
  }

  lemma ExampleNotIdempotent1()
    ensures ImplicitProduct(CoefficientPower(BarePower("2x^(3)"))) == "2x^(3)"
  {
    ExampleNotIdempotentBare();
    ExampleNotIdempotentCoefficient();
    ExampleNotIdempotentProduct();
  }

  lemma ExampleNotIdempotentBare()
    ensures BarePower("2x^(3)") == "2x^(3)"
  {
    var s := "2x^(3)";
    assert BarePowerFrom(s, 6) == [];
    assert BarePowerFrom(s, 5) == ")";
    assert BarePowerFrom(s, 4) == "3)";
    assert BarePowerFrom(s, 3) == "(3)";
    assert BarePowerFrom(s, 2) == "^(3)";
    assert BarePowerFrom(s, 1) == "x^(3)";
  }

  lemma ExampleNotIdempotentCoefficient()
    ensures CoefficientPower("2x^(3)") == "2x^(3)"
  {
    var s := "2x^(3)";
    assert CoefficientPowerFrom(s, 6) == [];
    assert CoefficientPowerFrom(s, 5) == ")";
    assert DigitRunEnd(s, 4) == 5;
    assert CoefficientPowerFrom(s, 4) == "3)";
    assert CoefficientPowerFrom(s, 3) == "(3)";
    assert CoefficientPowerFrom(s, 2) == "^(3)";
    assert CoefficientPowerFrom(s, 1) == "x^(3)";
    assert DigitRunEnd(s, 0) == 1;
  }

  lemma ExampleNotIdempotentProduct()
    ensures ImplicitProduct("2x^(3)") == "2x^(3)"
  {
    var s := "2x^(3)";
    assert ImplicitProductFrom(s, 6) == [];
    assert ImplicitProductFrom(s, 5) == ")";
    assert DigitRunEnd(s, 4) == 5;
    assert ImplicitProductFrom(s, 4) == "3)";
    assert ImplicitProductFrom(s, 3) == "(3)";
    assert ImplicitProductFrom(s, 2) == "^(3)";
    assert ImplicitProductFrom(s, 1) == "x^(3)";
    assert DigitRunEnd(s, 0) == 1;
  }

  lemma ExampleNotIdempotent2()
    ensures ReplaceCaret("2x^(3)") == "2x**(3)"
  {
    ReplaceOneCaret("2x", "(3)");
    assert "2x" + "^" + "(3)" == "2x^(3)";
    assert "2x" + "**" + "(3)" == "2x**(3)";
  }

  lemma ExampleNotIdempotent3()
    ensures ImplicitProduct("2x**(3)") == "2*x**(3)"
  {
    var t := "2x**(3)";
    assert ImplicitProductFrom(t, 7) == [];
    assert ImplicitProductFrom(t, 6) == ")";
    assert ImplicitProductFrom(t, 5) == "3)";
    assert ImplicitProductFrom(t, 4) == "(3)";
    assert ImplicitProductFrom(t, 3) == "*(3)";
    assert ImplicitProductFrom(t, 2) == "**(3)";
    assert DigitRunEnd(t, 0) == 1;
  }

  /** A single `^` between two caret-free texts becomes `**`. */
  lemma ReplaceOneCaret(a: string, b: string)
    requires '^' !in a && '^' !in b
    ensures ReplaceCaret(a + "^" + b) == a + "**" + b
  {
    calc {
      ReplaceCaret(a + "^" + b);
      { ReplaceCaretSplit(a + "^", b); }
      ReplaceCaret(a + "^") + ReplaceCaret(b);
      { ReplaceCaretSplit(a, "^"); }
      ReplaceCaret(a) + ReplaceCaret("^") + ReplaceCaret(b);
      { ReplaceCaretWithoutCaret(a); ReplaceCaretWithoutCaret(b); ReplaceCaretOfCaret(); }
      a + "**" + b;
    }
  }

  lemma ReplaceCaretOfCaret()
    ensures ReplaceCaret("^") == "**"
  {
    assert "^"[1..] == [];
  }

  lemma {:induction false} ReplaceCaretSplit(a: string, b: string)
    ensures ReplaceCaret(a + b) == ReplaceCaret(a) + ReplaceCaret(b)
  {
    if a == [] {
      assert a + b == b;
    } else {
      assert (a + b)[0] == a[0];
      assert (a + b)[1..] == a[1..] + b;
      ReplaceCaretSplit(a[1..], b);
    }
  }
}
