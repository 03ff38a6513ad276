# Calculator expression evaluator

A Dafny model of `index.js`, a browser calculator. The file holds two parts:

- **The evaluator.** `evaluateExpr` splits the display text into tokens with a
  global regular-expression match. `toRPN`, a shunting-yard conversion,
  turns them into postfix. It uses two precedence levels, has no parentheses,
  and rewrites a unary minus. `evalRPN`, a stack machine, reduces the postfix
  to one value. Division by zero gives NaN.
- **The display handlers.** `appendToDisplay` edits the text as buttons are
  pressed. `clearDisplay` empties it. `calculate` replaces it with the
  result, rounded to 12 decimal places, or with `E`.

## Module layout

| file | module | what it holds |
|---|---|---|
| `base.dfy` | `Wrappers`, `Errors` | `Option`, `Result`, and one error value per `throw` of the source |
| `lexer.dfy` | `Lexer` | the pattern `(\d+\.\d+\|\d+\|\.\d+\|[+\-*/])` with flag `g`, as a scanner; the decimal value of a number token |
| `rpn.dfy` | `Rpn` | postfix items, values (exact reals and NaN), `evalRPN` as a function and as its loop |
| `shunting_yard.dfy` | `ShuntingYard` | `precedence`, and `toRPN` as step functions over the converter state and as the loop itself |
| `evaluator.dfy` | `Evaluator` | `evaluateExpr`, and which errors the pipeline can raise |
| `semantics.dfy` | `Semantics` | an independent left-to-right meaning of accepted expressions, and a proof that the pipeline computes it |
| `format.dfy` | `Format` | `Number(result.toFixed(12))` followed by `String(...)`, on exact reals |
| `calculator.dfy` | `Calculator` | `trim`, the three handlers as functions on the text, and the `Display` class whose methods run them on its `value` field |

## Results worth knowing

- **Minus after an operator.** A `-` where a number is expected is treated
  as the two tokens `0 -`. That holds at the start of the expression and right
  after any operator. So `3*-5` is read as `3*0-5` and evaluates to **-5**,
  not -15. In the same way `8/-2` is `8/0-2`, which is NaN and shows `E`, and
  `5--3` is 2. This is what the code does: `3*-5` gives -5, not the -15 a
  reader might expect (`Semantics.MinusAfterOperator`).
- **Operator after a lone minus.** On an empty display `-` is accepted. A
  following `*` replaces it, because the replace rule checks only the last
  character. The display then shows `*`, even though the comment at line 6
  says operators are refused at the start.
- **Two points in a row.** `1.2.3` scans as `1.2`, `.3`. These are two
  adjacent numbers, and `evalRPN` fails its final stack-size check. The shown
  result is `E`.
- **No underflow.** Whatever `toRPN` returns, `evalRPN` never reaches its
  underflow or unknown-operator errors (`Evaluator.PostfixWellFormed`).
- **Precedence.** The value of every accepted expression is the
  sum-of-products reading: `*` and `/` bind tighter than `+` and `-`, and all
  four are left-associative. This reading is taken after each unary minus is
  written as `0 -` (`Semantics.EvaluateExprMeaning`).
- **Repeated `=`.** For results shown in plain decimal, pressing `=` twice
  shows the same thing as pressing it once (`Calculator.CalculatedIdempotent`).
  Plain decimal covers every magnitude from 1e-6 up to, but not including,
  1e21. Outside that range the source writes an exponent form, which a second
  `=` does not read back (see "Left out").
- **Display invariant.** Every button press and every calculation keeps the
  display from holding two adjacent operators or a number with two points
  (`Calculator.AppendKeepsWellTyped`, `Calculator.CalculatedWellTyped`).

## Model

| member | source | states |
|---|---|---|
| Lexer.DigitRun | index.js:68 | the greedy `\d+` run at the front: every character in it is a digit and the next character is not |
| Lexer.OpLexemes | index.js:79 | on the tokens the scanner produces, the operator test accepts exactly the four one-character tokens `+ - * /` |
| Lexer.MatchLength | index.js:68 | the match at a position is empty exactly when no alternative of the pattern applies there; otherwise it is a number or operator token; a number match is never followed by a digit, and one followed by a point and a digit already holds a point, because `\d+\.\d+` is tried before `\d+` |
| Lexer.FractionWins | index.js:68 | a digit run followed by a point and a digit is matched together with its fraction, so the match holds the point |
| Lexer.Scan | index.js:68 | every token of the global match is a number token or an operator token; the match is empty exactly when the text holds no digit and no operator character |
| Lexer.Tokenize | index.js:68-69 | `match` returns null exactly when the text has no digit and no operator character; otherwise it returns a non-empty list of tokens |
| Lexer.ScanSplit | index.js:68 | a character other than a digit or point ends the current token; an operator becomes a token of its own, and anything else is dropped |
| Lexer.ScanLexeme | index.js:68 | a single token is matched as exactly that token |
| Lexer.ScanJoin | index.js:68 | scanning a token list written out with spaces between the tokens gives the list back |
| Lexer.LexemeValue | index.js:76-77 | the value `parseFloat` reads from a number token is not negative, and it is an integer when the token has no point |
| Rpn.Apply | index.js:118-125 | the result is NaN exactly when an operand is NaN or the divisor is zero; a finite quotient times the divisor gives the dividend |
| Rpn.EvalFrom | index.js:109-127 | the loop over the postfix items can fail only with the underflow "Bad calc" or with "Bad op" |
| Rpn.Evaluate | index.js:107-130 | a returned value is the one value the loop leaves on the stack; an error is an underflow, a bad operator, or a final stack of other than one value |
| Rpn.EvalRPN | index.js:107-130 | the loop returns what the stack machine `Evaluate` defines, underflow, bad-operator and final-size errors included |
| Rpn.EvalFromConcat | index.js:109-127 | running two postfix pieces in a row is running the second on the stack the first leaves, and an error in the first stops the run |
| Rpn.BinaryOrder | index.js:114-126 | the value pushed first is the left operand: `x y op` leaves `x op y` |
| ShuntingYard.Precedence | index.js:60-64 | 1 for `+ -`, 2 for `* /`, and 0 exactly for anything that is not an operator |
| ShuntingYard.PopWhile | index.js:91-93 | the popping loop never grows the stack, and the output grows by as many items as the stack shrinks (which items move is stated by `PopWhileSpec`) |
| ShuntingYard.PoppedAt | index.js:102 | draining the stack emits its operators top first |
| ShuntingYard.PopWhileSpec | index.js:91-93 | the popping loop moves the largest top segment of the stack whose precedence is at least the incoming one to the output, top first; what is left is a prefix of the stack whose top binds less tightly |
| ShuntingYard.PopOperators | index.js:91-93 | the inner `while` loop computes `PopWhile` |
| ShuntingYard.Step | index.js:75-98 | a successful iteration sets `expectNumber` exactly when the token is an operator; a failing one raises "Operator in wrong place" on a number or operator token and "Invalid token" on anything else |
| ShuntingYard.Run | index.js:75-99 | the loop can fail only with "Operator in wrong place" or "Invalid token" |
| ShuntingYard.Finish | index.js:101-103 | after the loop, a trailing operator raises "Ends with operator"; otherwise the result is the output followed by one item per stacked operator |
| ShuntingYard.Postfix | index.js:67-104 | `toRPN` raises "Bad expression" exactly when the match is null, and when it succeeds the last token is a number |
| ShuntingYard.ToRPN | index.js:67-104 | the method returns what `Postfix` defines: a null match, an operator in a wrong place and a trailing operator as their own errors, and otherwise the output followed by the drained stack |
| ShuntingYard.ShapeBound | index.js:84-94 | a stack of increasing precedence holds at most two operators, and when it holds two they are an additive one under a multiplicative one |
| ShuntingYard.PushKeepsShape | index.js:91-94 | popping and then pushing an operator keeps the stack strictly increasing in precedence from bottom to top |
| ShuntingYard.StepKeepsShape | index.js:75-98 | each successful loop iteration keeps the stack strictly increasing in precedence |
| ShuntingYard.RunKeepsShape | index.js:75-99 | the whole loop keeps that shape and never stacks more than two operators |
| ShuntingYard.PopAllAtLowest | index.js:84-86 | popping at the lowest precedence empties the stack |
| ShuntingYard.UnaryEmptiesStack | index.js:81-88 | a unary minus pops every stacked operator, leaves only itself on the stack, and keeps the flag set |
| ShuntingYard.StepFlag | index.js:76-95 | a successful iteration consumed a token, and it sets `expectNumber` exactly when that token is an operator |
| ShuntingYard.StepFails | index.js:79-95 | an iteration fails exactly on an operator other than `-` where a number is expected, and its error is "Operator in wrong place" |
| ShuntingYard.OperatorsPlacedCons | index.js:81-90 | operators are well placed exactly when the first token passes the placement test and so do the remaining tokens |
| ShuntingYard.RunOutcome | index.js:75-99 | the loop succeeds exactly when every operator met where a number is expected is `-`; otherwise it fails with "Operator in wrong place"; on success it ends expecting a number exactly when the last token is an operator |
| ShuntingYard.PostfixOutcome | index.js:67-104 | `toRPN` fails with "Bad expression" on a null match, with "Operator in wrong place" on a misplaced operator, and with "Ends with operator" on a trailing operator; it succeeds exactly when operators are well placed and the last token is a number |
| ShuntingYard.UnaryIsZeroMinus | index.js:80-89 | where a number is expected, `-` does exactly what the two tokens `0` and `-` would |
| ShuntingYard.RunDesugar | index.js:80-89 | the loop gives the same result on a token list as on that list with every unary minus written as `0 -` |
| Evaluator.EvaluateExpr | index.js:132-135 | `evaluateExpr` fails with "Bad expression" exactly when the text holds no digit and no operator character |
| Evaluator.EvalPopped | index.js:102 | draining operators from a stack with more values than operators never underflows, and leaves one value less per operator |
| Evaluator.RunBalanced | index.js:75-99 | the output of the loop always evaluates without error, to one value per stacked operator, plus one after a number, plus one for each pair of adjacent numbers |
| Evaluator.PostfixWellFormed | index.js:132-135 | on any output of `toRPN`, `evalRPN` never underflows and never meets a bad operator; it fails, with "Bad calc", exactly when two number tokens are adjacent |
| Evaluator.EvaluateExprOutcome | index.js:132-135 | `evaluateExpr` returns a value exactly when there is a token, operators are well placed, the last token is a number and no two numbers are adjacent; every other input raises one of the four reachable errors |
| Semantics.PairSim | index.js:75-95 | reading an operator and the number after it moves the converter to a state that stands for the left-to-right reading extended by that pair |
| Semantics.FinishSim | index.js:101-102 | draining a state that stands for a reading evaluates to that reading's total |
| Semantics.RunSim | index.js:75-99 | on an alternating, operator-first token list the loop keeps standing for the reading |
| Semantics.PipelineMeansReference | index.js:132-135 | on an alternating token list of odd length, conversion and evaluation give the sum-of-products reference value |
| Semantics.NumberIsNotOp | index.js:76-79 | no token passes both the number test and the operator test, so the branches of the loop do not overlap |
| Semantics.DesugarAlternates | index.js:80-90 | an accepted token list without adjacent numbers alternates numbers and operators once each unary minus is written as `0 -` |
| Semantics.EvaluateExprMeaning | index.js:132-135 | every value `evaluateExpr` returns is the reference reading of the tokens with unary minus written as `0 -` |
| Semantics.EvaluateNumber | index.js:132-135 | a lone number token evaluates to its value |
| Semantics.EvaluateNegated | index.js:80-89 | `-` before a number token evaluates to minus its value |
| Semantics.MinusAfterOperatorPostfix | index.js:80-89 | `a o -b` converts to the postfix `a 0 o b -` |
| Semantics.EvalMinusAfterOperator | index.js:107-130 | the postfix `x 0 o y -` evaluates to `(x o 0) - y` |
| Semantics.MinusAfterOperator | index.js:80-89 | `a o -b` evaluates to `(a o 0) - b`: after `*` it is minus `b`, and after `/` it is NaN |
| Format.NatText | index.js:50 | the decimal text of a natural number is a non-empty run of digits whose value is that number, with no leading zero; it starts with `0` exactly when the number is 0 |
| Format.Digits | index.js:49 | the fraction digits `toFixed` writes: exactly `w` digits, with value `n` modulo 10 to the power `w` |
| Format.StripZeros | index.js:49-50 | dropping trailing zeros leaves a prefix of digits that does not end in `0` |
| Format.StripZerosValue | index.js:49-50 | dropping trailing zeros from a fraction keeps its value |
| Format.RoundHalfUp | index.js:49 | `toFixed` picks the integer nearest to the scaled magnitude, the larger one on a tie |
| Format.ShownBound | index.js:48-50 | an integer result is shown exactly, and any other result is off by at most half a unit in the twelfth decimal place |
| Format.FixedTextNumber | index.js:49-50 | the text written for a scaled, rounded magnitude `n` is a number token whose value is `n` divided by 10^12 |
| Format.Shown | index.js:49 | an integer result is kept as it is; a rounded result is zero or has the sign of the result |
| Format.Render | index.js:49-50 | the text shown for a result is non-empty; it starts with `-` only for a negative result, and with a digit otherwise |
| Format.RenderParts | index.js:49-50 | the text shown for a result is a number token, preceded by `-` exactly when the shown value is negative, and it reads back as the shown value |
| Format.RenderShown | index.js:49-50 | rounding a shown value again writes the same text |
| Calculator.TrimStart | index.js:40 | removes exactly the leading white space and keeps the rest |
| Calculator.TrimEnd | index.js:40 | removes exactly the trailing white space and keeps the rest |
| Calculator.Trim | index.js:40 | `trim()` is a contiguous part of the text with only white space before and after it; it is empty exactly when the text is all white space, and otherwise starts and ends with a character that is not white space |
| Calculator.TrimUnspaced | index.js:40 | text that does not start or end with white space trims to itself |
| Calculator.LastSegment | index.js:23 | `split(...).pop()` is the longest suffix without operator characters: it is a suffix, it holds no operator, and an operator stands just before it when it is shorter than the text |
| Calculator.LastOpEnd | index.js:23 | the position just after the last operator character, with no operator character beyond it |
| Calculator.Appended | index.js:3-32 | a key press adds at most two characters (two for the `0.` case), changes nothing before the last character, appends any key that is neither an operator nor a point, and appends an operator typed after a non-operator character |
| Calculator.OperatorOnEmpty | index.js:7-13 | on an empty display an operator is refused, except `-`, which is written |
| Calculator.OperatorReplaces | index.js:14-18 | an operator typed after an operator replaces it and changes nothing else |
| Calculator.DotOutcome | index.js:21-29 | a point is refused when the current number has one, is written as `0.` when the number is still empty, and is appended otherwise; afterwards the current number has a point |
| Calculator.AppendKeepsNoAdjacentOps | index.js:6-19 | typing never puts two operators side by side |
| Calculator.AppendKeepsOneDot | index.js:21-31 | typing never gives a number a second point |
| Calculator.AppendKeepsWellTyped | index.js:3-32 | every button press keeps the display invariant |
| Calculator.NumberLexemeChars | index.js:76 | a number token is digits and at most one point, and it ends with a digit |
| Calculator.RenderWellTyped | index.js:49-50 | the text of a result is non-empty, is not `E`, has no white space at either end, and satisfies the display invariant |
| Calculator.EvaluateRender | index.js:43-50 | the text of a result evaluates to the value it shows |
| Calculator.ErrorTextHasNoTokens | index.js:46 | `E` holds no token |
| Calculator.CalculatedNoTokens | index.js:43-53 | text holding no number and no operator shows `E` |
| Calculator.Calculated | index.js:38-55 | all-white-space text is left unchanged; otherwise the display shows `E` or a text that starts with `-` or a digit |
| Calculator.CalculatedOutcome | index.js:38-55 | all-white-space text is left unchanged; otherwise the display shows `E` exactly when evaluation throws or gives NaN |
| Calculator.CalculatedValue | index.js:43-50 | a shown result evaluates again to the result rounded to 12 places |
| Calculator.CalculatedError | index.js:45-46 | calculating on `E` shows `E` again |
| Calculator.CalculatedRender | index.js:49-50 | calculating on a shown result shows the same text |
| Calculator.CalculatedIdempotent | index.js:38-55 | pressing `=` a second time changes nothing |
| Calculator.CalculatedWellTyped | index.js:38-55 | `calculate` keeps the display invariant |
| Calculator.Display.constructor | index.js:1 | the display starts empty and well typed |
| Calculator.Display.AppendToDisplay | index.js:3-32 | the new text is `Appended` of the old text and the character; an operator typed after a non-operator character is appended; the invariant is kept |
| Calculator.Display.ClearDisplay | index.js:34-36 | the text becomes empty |
| Calculator.Display.Calculate | index.js:38-55 | the new text is `Calculated` of the old text, computed by running `ToRPN`, `EvalRPN` and the formatting; the invariant is kept |

## Left out

- The DOM: `document.getElementById`, the button wiring and the input element. The display is the `value` field of the `Display` class, and it starts empty.
- IEEE 754 doubles. Values are exact reals, so the model has no rounding of intermediate results, overflow, `Infinity` or `-0`. The `isFinite` test of line 45 can then fail only on NaN, which is the only case modelled.
- `parseFloat` beyond exact decimal text. The model reads a token's exact decimal value, where the source rounds it to the nearest double.
- The exponent forms of `String(number)`. For magnitudes of 1e21 and above, or below 1e-6, `String` switches to exponent notation, and `toFixed` gives up its fixed form at 1e21 and above. The model always writes plain decimal text. So `Calculator.EvaluateRender`, `Calculator.CalculatedValue`, `Calculator.CalculatedRender` and `Calculator.CalculatedIdempotent` hold in the source only inside that range: a result of `0.0000001` is shown as `1e-7`, which a second `=` scans as `1 - 7` and turns into `-6`, and `1e+21` becomes `22`.
- Calculator.Display.AppendToDisplay: `ch` is a single character. The source's `"+-*/".includes(ch)` also accepts an empty string or a multi-character substring such as `"+-"`, which the buttons never pass.
- Exceptions and `try`/`catch`. Each `throw` is an `Err` value of `Result`, and `calculate` shows `E` on any of them.
- Concurrency and event ordering. Each handler runs to completion.
