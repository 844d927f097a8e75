# Calculator: the evaluator and the editing state, in Dafny

This project models the core of a desktop calculator written in Python (`Calculator.py`).

**The evaluator.** `evaluate_expression` runs three checks on an expression:
- its length;
- balanced parentheses;
- a number with two decimal points.

It then works through the expression in this order:
1. It rewrites the square roots `√(...)` and `√N` until none is left.
2. It rewrites the innermost parenthesised groups until none is left.
3. It hands the rest to `evaluate_simple_expression`.

`evaluate_simple_expression` does the following:
- replaces `×`, `÷`, `π` and `^`;
- turns `√N` into a call text;
- folds the exponents `a**b` in a loop;
- tokenizes what is left;
- reduces the tokens left to right with no precedence, with the calculator's contextual percentages.

The result is formatted in one of three ways:
- scientific notation for large or tiny magnitudes;
- an integer for integral values;
- eight decimals with the trailing zeros stripped.

A successful evaluation is put at the front of the history. Exceptions become the fixed messages "Invalid sqrt input", "Cannot divide by 0" and "Error".

**The editing state.** The `Calculator` object holds the input line, the cursor, the selection, the result preview, the display's scroll position, the history list and the sliding history panel. Its methods change those fields in place, as the buttons, the keyboard and the animation frames do.

Each file models one part:
- `runtime.dfy`: `None`, the exceptions, and the floating-point routines taken as parameters (`MathLib`).
- `text.dfy` and `numerals.dfy`: counting characters and `rstrip`, decimal literals and their values, and a positional `str(float)`.
- `arithmetic.dfy`: the tokenizer and the left-to-right fold, with the percentage rules.
- `simple.dfy`: `evaluate_simple_expression`, including the exponent rewrite loop.
- `evaluator.dfy`: validation, the root and parenthesis rewrite loops, the error mapping and the reply.
- `formatting.dfy`: the result formatter.
- `editing.dfy`: every editing transition as a function of the old state, together with `wrap_text`, scrolling, the panel animation and history item positions.
- `calculator.dfy`: the `Calculator` class. Each method is proved against the transition in `Editing` it performs, and the class keeps its invariant:
  - the panel is consistent;
  - every history entry holds the result `evaluate_expression` gives its expression.
- `examples.dfy`: concrete behaviours of the code as written.

Some Python loops may never end. For example, `while '(' in expr` never ends on `()`. Each rewrite loop is therefore given a pass budget `fuel`, and an outcome `Diverged` means the loop was still running when the budget ran out. Monotonicity lemmas show that more fuel never changes a result that was reached.

**Where the repository's description and the code disagree, the model follows the code:**
- Roots are rewritten before parentheses. The root group `√\(([^)]+)\)` runs only to the first `)`, so `√(√(16))` evaluates its group `√(16` to 16, and the result is `4`, not `2`.
- A leading minus is an operator with no left operand and is ignored, so `-5` gives `5`. For the same reason `√(-4)` gives `2`, not the square-root error.
- An empty group `()`, an empty root `√()` and a dangling `2^` make the rewrite loops run forever, because the pass changes nothing while the marker stays in the buffer. `Examples.EmptyGroupHangs`, `Examples.EmptyRootHangs` and `SimpleEval.PowerStuck` state this.

## Model

| member | source | states |
|---|---|---|
| Evaluator.Validate | Calculator.py:122-127 | The three checks, in order, each an if-and-only-if: length over 100; then unequal counts of `(` and `)`; then a digit run, a point, a digit run and a second point. No message exactly when all three pass. |
| Evaluator.DoubleDotSearch | Calculator.py:126 | The search for `\d+\.\d+\.` succeeds exactly when the pattern matches at some position. |
| Evaluator.DoubleDotWitness | Calculator.py:126 | A digit, a point, a non-empty digit run and another point anywhere in the text make the check fire. |
| Evaluator.RootGroupLen | Calculator.py:134 | A match of `√\(([^)]+)\)` starts with `√(` and ends at the first `)` after it. |
| Evaluator.RootGroupOf | Calculator.py:134 | A group with no `)` in it is captured whole. |
| Evaluator.RootOfGroup | Calculator.py:134-135 | The group's square root raises the domain error only when the group's simple value is negative. |
| Evaluator.RootGroupPass | Calculator.py:134-136 | Definition only, with no contract of its own. Its behaviour is stated by `Evaluator.RootGroupAtMatch` and `Evaluator.RootGroupPassKeeps`. |
| Evaluator.RootGroupAtMatch | Calculator.py:134-136 | At a match `√(g)`, the pass writes `str(sqrt(v))` for the group's simple value `v` and continues after the `)`. A negative `v` raises the domain error, a `None` value a `TypeError`, and a fault of the group propagates. |
| Evaluator.RootGroupPassKeeps | Calculator.py:134-136 | Text without `√` passes through unchanged. |
| Evaluator.BareRootPass | Calculator.py:138-140 | Definition only, with no contract of its own. Its behaviour is stated by `Evaluator.BareRootWhole`, `Evaluator.BareRootFraction` and `Evaluator.BareRootPassKeeps`. |
| Evaluator.BareRootWhole | Calculator.py:138-140 | `√d` with a whole number `d` not followed by a digit or a point becomes `str(sqrt(d))`, and the pass continues after `d`. |
| Evaluator.BareRootFraction | Calculator.py:138-140 | `√d.f` (and `√d.`) becomes `str(sqrt(d.f))`, and the pass continues after the literal. |
| Evaluator.BareRootPassKeeps | Calculator.py:138-140 | Text without `√` passes through unchanged. |
| Evaluator.Loop | Calculator.py:133-146 | `while c in expr: expr = pass(expr)` with a pass budget. When the loop finishes, its marker is no longer in the buffer. |
| Evaluator.RootLoop | Calculator.py:133-140 | When the root loop finishes, no `√` is left in the buffer. |
| Evaluator.ParenLoop | Calculator.py:143-146 | When the parenthesis loop finishes, no `(` is left in the buffer. |
| Evaluator.LoopStuck | Calculator.py:133-146 | A pass that leaves the buffer unchanged while the marker is in it makes the loop run forever, whatever the budget. |
| Evaluator.RunLoop | Calculator.py:133-146 | The imperative `while` loop computes the outcome of the rewrite loop function. |
| Evaluator.LoopMonotone | Calculator.py:133-146 | A loop outcome reached with some budget stays the same with any larger budget. |
| Evaluator.ParenGroupLen | Calculator.py:144 | A match of `\(([^()]+)\)` is an innermost group: `(`, a run with no parenthesis, then `)`. |
| Evaluator.ParenGroupOf | Calculator.py:144 | A group with no parenthesis in it is captured whole. |
| Evaluator.GroupText | Calculator.py:145 | Substituting a group raises only what its simple evaluation raises. |
| Evaluator.ParenPass | Calculator.py:144-146 | Definition only, with no contract of its own. Its behaviour is stated by `Evaluator.ParenAtMatch` and `Evaluator.ParenPassKeeps`. |
| Evaluator.ParenAtMatch | Calculator.py:144-146 | At an innermost group `(g)`, the pass writes `str` of the group's simple value, or `None` when it has none, and continues after the `)`. A fault of the group propagates. |
| Evaluator.ParenPassKeeps | Calculator.py:144-146 | Text without `(` passes through unchanged. |
| Evaluator.Compute | Calculator.py:133-149 | Definition only, with no contract of its own. It is stated by `Evaluator.ComputePlain`, `Evaluator.Evaluate` and `Evaluator.ReplyCauses`. |
| Evaluator.ComputePlain | Calculator.py:133-152 | An expression with no root and no parenthesis gives the simple value. `None` becomes a `TypeError`, and a fault or a hang of the simple evaluation is passed on. |
| Evaluator.Respond | Calculator.py:151-173 | Definition only, with no contract of its own. Its behaviour is stated by `Evaluator.ReplyCauses`. |
| Evaluator.FaultMessage | Calculator.py:165-173 | The domain error maps to "Invalid sqrt input", the zero division to "Cannot divide by 0", and a `TypeError` to "Error". Each is an if-and-only-if. |
| Evaluator.ReplyCauses | Calculator.py:119-173 | The reply is formatted exactly when validation passes and the computation returns a value, and its text is then the formatted value. Each message is given exactly for its cause. A validation message is returned unchanged. |
| Evaluator.Evaluate | Calculator.py:119-173 | The reply is formatted exactly when the checks pass and the computation returns a value. It hangs exactly when the checks pass and a loop never ends. Every message is one of the three check messages or the three exception messages. |
| Evaluator.EvaluateMonotone | Calculator.py:119-173 | An evaluation that returns with some budget returns the same reply with any larger budget. |
| Evaluator.RootLoopMonotone | Calculator.py:133-140 | The root loop's result does not depend on the budget once reached. |
| Evaluator.ParenLoopMonotone | Calculator.py:143-146 | The parenthesis loop's result does not depend on the budget once reached. |
| Evaluator.RootGroupPassMonotone | Calculator.py:134-136 | One root-group pass does not depend on the budget once reached. |
| Evaluator.ParenPassMonotone | Calculator.py:144-146 | One parenthesis pass does not depend on the budget once reached. |
| Evaluator.SimpleMonotone | Calculator.py:175-231 | The simple evaluation does not depend on the budget once reached. |
| Formatting.FormatIntegral | Calculator.py:155-156 | An integral result in the plain range prints with no point. It reads back as exactly the value, with a minus sign exactly when the value is negative. |
| Formatting.IntTextRoundTrip | Calculator.py:156 | `str(int)` is a minus sign exactly for negatives, then digits that read back as the magnitude. |
| Formatting.FormatFixed | Calculator.py:157-160 | With eight-decimal rendering, a non-integral result prints as one literal with a minus sign exactly when negative and no trailing point. It is within 5e-9 of the value, and the `"0"` fallback is never taken. |
| Formatting.Format | Calculator.py:152-160 | Definition only, with no contract of its own. Its behaviour is stated by `Formatting.FormatIntegral`, `Formatting.FormatFixed` and `Formatting.FormatEdges`. |
| Formatting.IsScientific | Calculator.py:152 | Definition only, with no contract of its own. Its two boundaries are stated by `Formatting.FormatEdges`. |
| Formatting.FormatEdges | Calculator.py:152-160 | `1e8` and `-1e8` are printed in scientific form, and `99999999` as an integer. `1e-4` is printed with eight decimals, `5e-5` in scientific form, and `0` as `"0"`. |
| Formatting.StripFixed | Calculator.py:158-160 | Definition only, with no contract of its own. Its behaviour is stated by `Formatting.StripFixedValue` and `Formatting.StripBody`. |
| Formatting.StripFixedValue | Calculator.py:158 | Stripping zeros then the point from the eight-decimal text leaves a literal with the value rounded to eight decimals. |
| Formatting.StripBody | Calculator.py:158 | The stripped text is `whole.digits` when some decimal is non-zero, else `whole`. |
| Formatting.RStripAppend | Calculator.py:158 | `rstrip` on a concatenation strips the tail alone unless all of the tail goes. |
| Formatting.UnitsClose | Calculator.py:158 | Rounding to eight decimals moves a value by at most half a unit of the eighth decimal. |
| Formatting.RoundHalfEven | Calculator.py:158 | The rounded integer is within one half of the value, and a tie goes to the even one. |
| SimpleEval.Symbol | Calculator.py:178-179 | The replacements remove `×`, `÷`, `π` and `^` and keep every other character. |
| SimpleEval.NormalizeRemoves | Calculator.py:178-179 | After the replacements no `×`, `÷`, `π` or `^` is left. |
| SimpleEval.NormalizeKeeps | Calculator.py:178-179 | Any other character (not `*`, `/`, or one of pi's digits) is in the result exactly when it was in the input. |
| SimpleEval.Normalize | Calculator.py:178-179 | Definition only, with no contract of its own. Its behaviour is stated by `SimpleEval.NormalizeRemoves` and `SimpleEval.NormalizeKeeps`. |
| SimpleEval.SqrtArgLen | Calculator.py:182 | The `√N` rewrite matches exactly when a digit follows `√`. |
| SimpleEval.SqrtCallPass | Calculator.py:182 | Definition only, with no contract of its own. Its behaviour is stated by the lemmas below. |
| SimpleEval.SqrtCallKeeps | Calculator.py:182 | Text without `√` passes through unchanged. |
| SimpleEval.SqrtCallAt | Calculator.py:182 | At a match, `√w` becomes `math.sqrt(w)` and the pass continues after `w`. |
| SimpleEval.SqrtWholeTokens | Calculator.py:182-191 | `√d` with a whole number `d` becomes `math.sqrt(d)`, whose tokens are the single number `d`: the call text itself leaves no token. |
| SimpleEval.SqrtFractionTokens | Calculator.py:182-191 | `√d.f` becomes `math.sqrt(d.f)`, whose tokens are the single number `d.f`. |
| SimpleEval.MatchPower | Calculator.py:186 | A match of the exponent pattern is a non-empty prefix of the text that starts with a literal. Its second group starts inside the match, with a literal. |
| SimpleEval.MatchPowerShape | Calculator.py:186 | A match starts with a digit and contains `**`. |
| SimpleEval.MatchOf | Calculator.py:186 | Take a text that starts with a literal of `l1` characters, then `**` with no space, then a literal of `l2` characters. The match there is `l1 + 2 + l2` long and its second group starts at `l1 + 2`. |
| SimpleEval.MatchHasPair | Calculator.py:185-186 | Text where the pattern matches contains `**`. |
| SimpleEval.PowerAt | Calculator.py:186-188 | For such a text, one pass writes `str(float(a) ** float(b))` for the two literals `a` and `b`. It then continues with the pass over the text after `b`. |
| SimpleEval.PowerPassKeeps | Calculator.py:186-188 | A pass leaves text without `**` unchanged. |
| SimpleEval.PassKeepsAfterHead | Calculator.py:186-188 | A pass leaves unchanged a text that starts with a non-digit and has no `**` after that. |
| SimpleEval.PowerChainAt | Calculator.py:185-188 | Take `a**b**c`, where `c` has no `**` and does not start with `*`. One pass writes `str(float(a) ** float(b))` followed by `**c` unchanged: the leftmost operator is rewritten first. |
| SimpleEval.PowerChainStep | Calculator.py:185-188 | One turn of the loop on `a**b**c` goes on with `str(float(a) ** float(b))` followed by `**c`. |
| SimpleEval.PowerLoopStep | Calculator.py:185-188 | While `**` is present, each turn of the loop is one more pass. The loop ends with the pass's result when that result has no `**`. |
| SimpleEval.PowerPassShrinks | Calculator.py:185-188 | When numbers print without `*`, a pass either changes nothing or removes at least two `*`. |
| SimpleEval.StrPlainNumbers | Calculator.py:187 | The positional `str(float)` prints no `*`, `(`, `)` or `√`, so the loops' assumption holds for it. |
| SimpleEval.SubstitutedTokens | Calculator.py:135-145 | A value written back into the text with the reference `str` (`Numerals.Str`) is read by the tokenizer as a minus operator exactly when it is negative, then one number with the (truncated) magnitude. |
| SimpleEval.PowerPass | Calculator.py:186-188 | Definition only, with no contract of its own. Its behaviour is stated by `SimpleEval.PowerAt`, `SimpleEval.PowerChainAt`, `SimpleEval.PowerPassKeeps` and `SimpleEval.PowerPassShrinks`. |
| SimpleEval.PowerLoop | Calculator.py:185-188 | The exponent loop never raises, and when it finishes no `**` is left. |
| SimpleEval.Rewrite | Calculator.py:185-188 | The exponent loop never raises, and when it ends no `**` is left. |
| SimpleEval.RewriteStuck | Calculator.py:185-188 | A pass that changes nothing while `**` is present makes the loop run forever. |
| SimpleEval.PowerStuck | Calculator.py:185-188 | A dangling exponent such as `2**` hangs the exponent loop whatever the budget. |
| SimpleEval.PowerLoopDecided | Calculator.py:185-188 | A budget of half the count of `*` decides the exponent loop: if it hangs with that budget, it hangs with every budget. |
| SimpleEval.PowerLoopMonotone | Calculator.py:185-188 | The exponent loop's result does not depend on the budget once reached. |
| SimpleEval.Simple | Calculator.py:175-231 | The simple evaluation never raises the square-root domain error. |
| SimpleEval.EvaluateSimple | Calculator.py:175-231 | The imperative version computes the simple evaluation function. |
| Arithmetic.Tokenize | Calculator.py:191 | The tokens are well formed: every operator token is one of `+-×÷*/`. |
| Arithmetic.TokensHaveNumber | Calculator.py:191 | The tokens contain a number exactly when the text contains a digit. |
| Arithmetic.OperatorToken | Calculator.py:191 | An operator character becomes an operator token. |
| Arithmetic.SkipsNoise | Calculator.py:191 | Any other non-digit character is skipped. |
| Arithmetic.WholeToken | Calculator.py:191 | A digit run becomes one number token with its decimal value. |
| Arithmetic.PercentToken | Calculator.py:191 | A digit run followed by `%` becomes one percentage token. |
| Arithmetic.FractionToken | Calculator.py:191 | Digits, a point and digits become one number token with the decimal value. |
| Arithmetic.Operate | Calculator.py:222-229 | An operator applies to the value exactly when it is one of `+-×÷*/`. Only division by zero raises, and it raises the zero division. |
| Arithmetic.Step | Calculator.py:198-229 | One iteration never hangs. After a number the value is set and the operator is kept. Only a number raises, and only a `TypeError` or a zero division. |
| Arithmetic.PercentAlone | Calculator.py:204-215 | `p%` with no operator seen sets the value to `p/100`. After an operator but before any value it raises `TypeError`. |
| Arithmetic.PercentShare | Calculator.py:206-209 | After `+` or `-`, `p%` adds or subtracts `value × p/100`. |
| Arithmetic.PercentScales | Calculator.py:210-211 | After `×`, `p%` multiplies the value by `p/100`: the new value times 100 is `value × p`. |
| Arithmetic.PercentDivides | Calculator.py:212-213 | After `÷`, `p%` divides the value by `p/100`, and `0%` raises the zero division. |
| Arithmetic.Fold | Calculator.py:198-229 | The fold never hangs, raises only a `TypeError` or a zero division, and keeps a value once it has one. |
| Arithmetic.Accumulate | Calculator.py:194-231 | The imperative `for` loop computes the fold's result. |
| Arithmetic.Reduce | Calculator.py:194-231 | The reduction never hangs, and raises only a `TypeError` or a zero division. |
| Arithmetic.ReduceNone | Calculator.py:194-231 | The result is `None` exactly when there is no number token. |
| Arithmetic.TypeErrorExactly | Calculator.py:204-215 | A `TypeError` is raised exactly when a percentage follows an operator before any value. |
| Arithmetic.NoTypeErrorOnceStarted | Calculator.py:198-229 | Once a value exists, no `TypeError` can be raised. |
| Arithmetic.ChainIsLeftToRight | Calculator.py:198-229 | A chain `n0 op1 n1 op2 n2 ...` reduces to the left-to-right fold of its operators, with no precedence, raising what that fold raises. |
| Arithmetic.ChainFold | Calculator.py:198-229 | The same from any running value and pending operator. |
| Arithmetic.LeadingSignIgnored | Calculator.py:219-220 | An operator before the first number is dropped, so `-5` reads as `5`. |
| Examples.ChainExample | Calculator.py:198-229 | `2 + 3 × 4` folds to 20. |
| Examples.ChainText | Calculator.py:175-231 | `evaluate_simple_expression("2+3×4")` is 20. |
| Examples.NormalizePowers | Calculator.py:178-179 | `a^b^c` becomes `a**b**c`. |
| Examples.FirstPowerStep | Calculator.py:185-188 | For digits `a`, `b` and `c`, the first turn of the loop on `a**b**c` goes on with `str(a ** b)` followed by `**c`. |
| Examples.SecondPass | Calculator.py:186-188 | For digits `x`, `y` and `c`, one pass over `x.y**c` writes `str(float("x.y") ** c)`. |
| Examples.PowerChainLoop | Calculator.py:185-188 | Take digits `a`, `b` and `c`, where `str(a ** b)` is written as `x.y`. The loop on `a**b**c` ends after two passes with `str((a ** b) ** c)`. |
| Examples.PowerChainText | Calculator.py:175-231 | In the same case, `evaluate_simple_expression("a^b^c")` is the fold of the tokens of `str((a ** b) ** c)`: the exponents group from the left. |
| Examples.PowerText | Calculator.py:175-231 | `evaluate_simple_expression("2^3^2")` is 64, not 512, given what `**` and `str` return for these values. |
| Examples.OneDecimal | Calculator.py:187 | `float("x.y")` is `x + y/10`. |
| Examples.TwoDigitDecimal | Calculator.py:191 | `pq.r` is read as one number token with value `10p + q + r/10`. |
| Examples.ReduceSixtyFour | Calculator.py:191-231 | The text `64.0` evaluates to 64. |
| Examples.PercentExample | Calculator.py:204-215 | `200 + 10%` is 220, `200 × 10%` is 20, and `50%` alone is 0.5. |
| Examples.ZeroPercentDivisor | Calculator.py:212-213 | `5 ÷ 0%` raises the zero division. |
| Examples.LeadingMinus | Calculator.py:219-220 | `-5` folds to 5. |
| Examples.EmptyGroupHangs | Calculator.py:143-146 | `evaluate_expression("()")` never returns. |
| Examples.EmptyRootHangs | Calculator.py:133-140 | `evaluate_expression("√()")` never returns. |
| Examples.NoDigitNoMatch | Calculator.py:126 | Text with no digit never fails the double-point check. |
| Numerals.StrRoundTrip | Calculator.py:135 | The positional `str(float)` is a minus sign exactly for negatives, then one literal that reads back as the magnitude truncated to 16 decimals. |
| Numerals.PositionalRoundTrip | Calculator.py:139 | A non-negative number's positional text is one whole literal with the truncated value. |
| Text.RStrip | Calculator.py:158 | `rstrip(c)` returns a prefix that does not end in `c`, and everything cut off is `c`. |
| Text.Count | Calculator.py:124 | `count(c)` is zero exactly when `c` is absent. |
| Editing.WrapText | Calculator.py:233-234 | `wrap_text` always gives at least one line. |
| Editing.WrapTextShape | Calculator.py:233-234 | The lines joined give back the text. Every line but the last is full, and the last is non-empty unless the text is. |
| Editing.WrapCount | Calculator.py:233-234 | The number of lines is the length divided by the width, rounded up, and 1 for empty text. |
| Editing.SelectedRange | Calculator.py:236-239 | There is a range exactly when both ends are set. It holds the two ends in order. |
| Editing.Take | Calculator.py:279 | A Python prefix slice clamps to the length. |
| Editing.Drop | Calculator.py:279 | A prefix slice and the matching suffix slice join to the whole text. |
| Editing.InsertText | Calculator.py:275-285 | Definition only, with no contract of its own. Its behaviour is stated by `Editing.InsertKeepsRest` and `Editing.LabelInserts`. |
| Editing.DeleteBefore | Calculator.py:462-466 | Definition only, with no contract of its own. Its behaviour is stated by `Editing.InsertThenDelete`. |
| Editing.InsertKeepsRest | Calculator.py:487-494 | With no selection, the inserted text sits at the cursor, the text around it is kept, and the cursor ends after it. |
| Editing.InsertThenDelete | Calculator.py:462-466 | Inserting one character and then pressing `CE` restores the input and the cursor. |
| Editing.RootButton | Calculator.py:472-485 | Definition only, with no contract of its own. Its behaviour is stated by `Editing.RootWrapsSelection`. |
| Editing.Submit | Calculator.py:467-471 | Definition only, with no contract of its own. Its behaviour is stated by `Editing.ReturnScrollsToEnd` and by `CalculatorApp.Calculator.ShowReply`. |
| Editing.ButtonClick | Calculator.py:457-494 | Definition only, with no contract of its own. Its behaviour is stated by `Editing.LabelInserts`, `Editing.ClearKeepsSelection` and `Editing.RootWrapsSelection`. |
| Editing.LabelInserts | Calculator.py:486-494 | A label button writes its label over the selection, or at the cursor when there is none. It clears the selection and leaves the cursor after the label. |
| Editing.RootWrapsSelection | Calculator.py:472-479 | The `√` button wraps the selection in `√(` and `)` and leaves the cursor just after the `)`. |
| Editing.ClearKeepsSelection | Calculator.py:458-461 | `AC` keeps a stale selection, so the next label replaces the clamped range and the cursor ends past the end of the input. |
| Editing.ScrollToCursor | Calculator.py:251-258 | Only the scroll changes, and afterwards the cursor's line is within the visible lines. A cursor already visible changes nothing. |
| Editing.ScrollIdempotent | Calculator.py:251-258 | Scrolling to the cursor twice is the same as scrolling once. |
| Editing.VisibleLines | Calculator.py:253 | The display shows `100 // 40 = 2` lines. |
| Editing.DisplayLines | Calculator.py:261-263 | The display always has at least one line. |
| Editing.TypeText | Calculator.py:306-317 | Definition only, with no contract of its own. Its behaviour is stated by `Editing.TypeThenBackspace`. |
| Editing.BackspaceKey | Calculator.py:287-296 | Definition only, with no contract of its own. Its behaviour is stated by `Editing.BackspaceSelection` and `Editing.TypeThenBackspace`. |
| Editing.ReturnKey | Calculator.py:298-304 | Definition only, with no contract of its own. Its behaviour is stated by `Editing.ReturnScrollsToEnd`. |
| Editing.BackspaceSelection | Calculator.py:287-296 | Backspace over a non-empty selection deletes exactly the selected text, puts the cursor at its start, and clears the selection. With equal ends it deletes the character before the cursor and keeps the selection. |
| Editing.TypeThenBackspace | Calculator.py:287-317 | With no selection, typing a character and then pressing backspace restores the input and the cursor. |
| Editing.ReturnScrollsToEnd | Calculator.py:298-304 | After return, the last of the display lines from before the key is the top visible line. The input is kept, the cursor is at its end, the reply is shown, and the selection is cleared. |
| Editing.KeyEdit | Calculator.py:270-337 | Definition only, with no contract of its own. It is the key transition as written. Its behaviour is stated by `Editing.EmptyKeyAsWritten` and `Editing.ArrowKeyAsWritten`. |
| Editing.KeyEditIntended | Calculator.py:270-337 | Definition only, with no contract of its own. It is the key transition with the arrow branches first, and the printable branch is taken only when `unicode` is non-empty. Its behaviour is stated by `Editing.ArrowKeysIntended`, `Editing.EmptyKeyIntended` and `Editing.ShiftThenArrow`. |
| Editing.MoveCursor | Calculator.py:319-337 | Definition only, with no contract of its own. Its behaviour is stated by `Editing.ArrowKeysIntended`. |
| Editing.KeyDown | Calculator.py:260-339 | Definition only, with no contract of its own. It is the intended key transition followed by the scroll; stated by `CalculatorApp.Calculator.HandleKeyDown`. |
| Editing.EmptyKeyAsWritten | Calculator.py:306-317 | As written, any key-down with empty `unicode` takes the printable branch, unless it is backspace, return, control-C or control-V. With control or meta held, nothing changes. Otherwise the selection is cleared. Over a non-empty selection `a..b`, the selected text is deleted and the cursor goes to `a + 1`. With nothing selected, the text stays and the cursor moves right by one. |
| Editing.ArrowKeyAsWritten | Calculator.py:306-317 | As written, either arrow key takes the printable branch. With nothing selected, the text stays and the cursor moves right by one. Over a non-empty selection `a..b`, the selected text is deleted and the cursor goes to `a + 1`. |
| Editing.EmptyKeyIntended | Calculator.py:306-317 | In the corrected transition, a key-down with empty `unicode` changes nothing, unless it is an arrow, backspace, return or control-V. A key-down with non-empty `unicode` is handled exactly as written. |
| Editing.ShiftThenArrow | Calculator.py:306-337 | In the corrected transition, a shift press, which is a key-down of its own with empty `unicode`, followed by shift-right selects the one character after the cursor. The text is kept. |
| Editing.ArrowKeysIntended | Calculator.py:319-337 | With the arrow branches reachable, left moves one place left and right one place right, both clamped to the input. Shift anchors the selection and extends it to the cursor; without shift the selection is dropped. |
| Editing.Animate | Calculator.py:560-570 | A frame keeps the panel consistent. When the panel stops, it is shown exactly when its offset is 0. |
| Editing.ShowArrives | Calculator.py:561-565 | Opening reaches offset 0, shown and still, within `offset / 15` frames rounded up. |
| Editing.HideArrives | Calculator.py:566-570 | Closing reaches offset 400, hidden and still, within `(400 - offset) / 15` frames rounded up. |
| Editing.FramesStill | Calculator.py:560-570 | A still panel stays as it is. |
| Editing.ItemHeight | Calculator.py:452-454 | A history entry is at least `2·40 + 2·10 + 5` pixels tall. |
| Editing.ItemTop | Calculator.py:449-455 | The top of entry `index` is at least 105 pixels for each entry above it. |
| Editing.ItemTopIncreasing | Calculator.py:449-455 | Entry tops strictly increase, by at least 105 pixels for each entry in between. |
| Editing.Max0 | Calculator.py:258 | `max(0, x)` is at least `x`, and either `x` or 0. |
| CalculatorApp.Calculator.constructor | Calculator.py:70-98 | The initial state: empty input, cursor 0, no selection, no preview, no scroll, no history, and the panel hidden at offset 400 and still. The invariant holds. |
| CalculatorApp.Calculator.EvaluateExpression | Calculator.py:119-173 | The reply is the evaluation of the expression. On success the expression and its result go at the front of the history, and otherwise the history is unchanged. The editing state and the panel are unchanged, and the invariant is kept. |
| CalculatorApp.Calculator.HandleButtonClick | Calculator.py:457-494 | The new editing state is the button transition, given the evaluation of the old input. The history grows only on `=` with a non-empty input and a formatted reply. The panel is unchanged. |
| CalculatorApp.Calculator.PressButton | Calculator.py:458-466 | Every button but `=` performs its transition, whatever the reply, and touches neither history nor panel. |
| CalculatorApp.Calculator.PressEquals | Calculator.py:467-471 | `=` on a non-empty input evaluates it, shows the reply, and records a success. On an empty input it does nothing. |
| CalculatorApp.Calculator.ShowReply | Calculator.py:470-471 | The reply goes to the preview and the cursor to the end of the input. |
| CalculatorApp.Calculator.PressRoot | Calculator.py:472-485 | The `√` button transition. |
| CalculatorApp.Calculator.Paste | Calculator.py:275-285 | Control-V and the label buttons write their text over the selection or at the cursor. |
| CalculatorApp.Calculator.UpdateScrollToCursor | Calculator.py:251-258 | `update_scroll_to_cursor` on the object's fields. |
| CalculatorApp.Calculator.HandleKeyDown | Calculator.py:260-339 | `b` with the panel open or moving starts closing it and changes nothing else. Any other key applies the key transition, given the evaluation of the old input, and then scrolls to the cursor. The arrow keys are tested first, and the printable branch needs non-empty `unicode` (see Findings). The history grows only on return with a non-empty input and a formatted reply. |
| CalculatorApp.Calculator.ApplyKey | Calculator.py:270-337 | Every key branch but return performs its transition, whatever the reply. The arrow branches are tested before the printable one, which is taken only when `unicode` is non-empty. |
| CalculatorApp.Calculator.PressBackspace | Calculator.py:287-296 | A non-empty selection is deleted. Otherwise the character before the cursor goes, and a selection with equal ends is kept. |
| CalculatorApp.Calculator.PressReturn | Calculator.py:298-304 | Return on a non-empty input evaluates it, shows the reply, clears the selection, scrolls by the display lines from before the key, and records a success. |
| CalculatorApp.Calculator.ShowReturnReply | Calculator.py:301-304 | The reply is shown and the scroll is set from the lines the display had before. |
| CalculatorApp.Calculator.Type | Calculator.py:306-317 | A typed text replaces a non-empty selection or goes at the cursor. The cursor advances by one, and the selection is cleared. |
| CalculatorApp.Calculator.MoveTo | Calculator.py:319-337 | The arrow-key cursor move, extending or dropping the selection. |
| CalculatorApp.Calculator.ShowHistory | Calculator.py:554-555 | The panel starts opening, and nothing else changes. |
| CalculatorApp.Calculator.HideHistory | Calculator.py:557-558 | The panel starts closing, and nothing else changes. |
| CalculatorApp.Calculator.UpdateHistoryAnimation | Calculator.py:560-570 | One animation frame of the panel, which keeps the invariant. |
| CalculatorApp.Calculator.GetHistoryItemYPos | Calculator.py:449-455 | The top of entry `index` is the sum of the heights of the entries above it. A negative index gives 0. An index past the end of the list gives `None`, standing for the `IndexError` the loop raises. |

## Left out

- Floating point is modelled by exact reals. The following are not modelled:
  - IEEE rounding, overflow to infinity, and `OverflowError`;
  - the exponent form of `str(float)` (`1e+16`, `1e-05`);
  - the shortest round-trip text of `str(float)`.
- `math.sqrt`, `**`, `str(float)`, `"{:.8e}"` and `"{:.8f}"` are parameters of the model (the fields of `MathLib`). The evaluator calls `lib.str` wherever the program calls `str` on a float.
  - `Numerals.Str` is a reference instance of `str`: positional text truncated to 16 decimals. The lemmas that need a concrete `str` assume `lib.str == Numerals.Str` (`SimpleEval.StrPlainNumbers`) or are stated about `Numerals.Str` directly (`SimpleEval.SubstitutedTokens`).
  - `Formatting.FormatFixed` proves its properties for a reference eight-decimal rendering with round-half-even. The scientific rendering is left as a parameter.
- `str(math.pi)` is the literal `3.141592653589793`.
- `re.sub` and `re.findall` are written out as recursive scans for the specific patterns used. Python's general regular-expression engine is not modelled.
- Numerals.IsDigit accepts only the ASCII digits `0`-`9`. Python's `\d` and `float()` also accept every other Unicode decimal digit, so `٣+1` evaluates to `4` in the program and to `1` in the model. The calculator's buttons type only ASCII digits; other digits reach it only from the keyboard or a paste.
- Evaluator.Evaluate: the rewrite loops are bounded by a pass budget. A loop that would run forever is reported as `Hangs` once the budget runs out. The monotonicity lemmas show that a reply reached is independent of the budget, but a loop that ends only after more passes than the budget allows is also reported as `Hangs`.
- The `print` of the error message and the `timestamp` of a history item are not modelled: the first is output, the second reads the clock. `HistoryItem.__str__` is presentation only.
- Editing.IsPrintable excludes the control, format, private-use, separator and non-ASCII space characters that `str.isprintable` rejects. It does not exclude unassigned code points, which `str.isprintable` also rejects: the set of those depends on the Unicode version.
- Key events are a datatype. pygame's modifier state and the clipboard contents are fields of the event. The clipboard copy on control-C only reads the selection and is left out.
- Mouse handling, the scrollbars, drawing, fonts, themes and the window are not part of this model, and neither is `get_cursor_position`, which measures text with a font.
- CalculatorApp.Calculator.HandleKeyDown: an evaluation that never returns leaves the state unchanged in the model, where the program would freeze. Key-downs with empty `unicode` follow the corrected transition from Findings, not the code as written. These include the arrows and shift.
- CalculatorApp.Calculator.HandleButtonClick: an evaluation that never returns leaves the state unchanged in the model, where the program would freeze.
- Arithmetic.PercentScales states the product through `value × 100 = c × p` rather than as `c × (p/100)`. The two are equal over the reals.

## Findings

| source | as written | input that shows it | evidently intended | confidence | as-written member | corrected member |
|---|---|---|---|---|---|---|
| Calculator.py:306-337 | The printable branch comes before the arrow branches, and `"".isprintable()` is true. An arrow key, whose event carries empty `unicode`, therefore inserts nothing. With nothing selected it moves the cursor one place right; over a selection it deletes the selected text. The arrow branches are never reached. | Left arrow with cursor 3 in `"12+4"` and nothing selected: the cursor goes to 4. With `"12+4"`, cursor 3 and selection 1..3, the text becomes `"14"` and the cursor 2. | Left moves one place left and right one place right, clamped to the input, with shift extending the selection. | not executed | Editing.ArrowKeyAsWritten | Editing.ArrowKeysIntended |
| Calculator.py:306-317 | Every other key-down with empty `unicode` also takes the printable branch, for example shift, which starts every shift-arrow selection. Such a key moves the cursor right by one, or deletes the selection. | Shift pressed with cursor 1 in `"12+4"` and nothing selected: the cursor goes to 2 before the arrow is read. | A key that types nothing leaves the input, the cursor and the selection as they were. | not executed | Editing.EmptyKeyAsWritten | Editing.EmptyKeyIntended |
