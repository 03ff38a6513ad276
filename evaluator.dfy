/**
 * `evaluateExpr` of index.js, the composition of `toRPN` and `evalRPN`, and
 * what is proved about the whole pipeline: the postfix sequence `toRPN`
 * produces never makes `evalRPN` underflow, and it leaves exactly one value
 * unless two numbers stand side by side in the input.
 */
module Evaluator {
  import opened Wrappers
  import opened Errors
  import opened Lexer
  import opened Rpn
  import opened ShuntingYard

  /** `evaluateExpr(expr) = evalRPN(toRPN(expr))`. */
  function EvaluateExpr(expr: string): (r: Result<Value, Error>)
    ensures r == Err(BadExpression) <==> Tokenize(expr).None?
  {
    var rpn :- Postfix(expr);
    Evaluate(rpn)
  }

  /** Number of places where a number token directly follows a number token. */
  function AdjacentNumbers(ts: seq<string>, afterNumber: bool): nat
    decreases |ts|
  {
    if ts == [] then 0
    else (if afterNumber && IsNumberLexeme(ts[0]) then 1 else 0) + AdjacentNumbers(ts[1..], IsNumberLexeme(ts[0]))
  }

  /**
   * The converter state is consistent with its output: the output evaluates
   * without error to a stack holding one value per stacked operator, one
   * more when the last token was a number, and `extra` more for the
   * adjacent numbers seen so far.
   */
  predicate Balanced(st: Converter, extra: nat) {
    && StackShape(st.ops)
    && EvalFrom([], st.output).Ok?
    && |EvalFrom([], st.output).value| == |st.ops| + (if st.expectNumber then 0 else 1) + extra
  }

  lemma EvalNum(stack: seq<Value>, v: real)
    ensures EvalFrom(stack, [Num(v)]) == Ok(stack + [Fin(v)])
  {
    assert [Num(v)][1..] == [];
  }

  /** Draining operators consumes one value per operator and never underflows. */
  lemma {:induction false} EvalPopped(stack: seq<Value>, ops: seq<char>)
    requires forall i :: 0 <= i < |ops| ==> IsOpChar(ops[i])
    requires |stack| > |ops|
    ensures EvalFrom(stack, Popped(ops)).Ok?
    ensures |EvalFrom(stack, Popped(ops)).value| == |stack| - |ops|
    decreases |ops|
  {
    if ops != [] {
      var c := ops[|ops| - 1];
      var next := stack[..|stack| - 2] + [Apply(c, stack[|stack| - 2], stack[|stack| - 1])];
      assert Popped(ops)[0] == Op(c) && Popped(ops)[1..] == Popped(ops[..|ops| - 1]);
      assert EvalFrom(stack, Popped(ops)) == EvalFrom(next, Popped(ops[..|ops| - 1]));
      EvalPopped(next, ops[..|ops| - 1]);
    }
  }

  /** The popping loop applied to a consistent output keeps it evaluable. */
  lemma EvalPopWhile(output: seq<Item>, ops: seq<char>, p: nat)
    requires forall i :: 0 <= i < |ops| ==> IsOpChar(ops[i])
    requires EvalFrom([], output).Ok? && |EvalFrom([], output).value| > |ops|
    ensures var r := PopWhile(output, ops, p);
      && EvalFrom([], r.0).Ok?
      && |EvalFrom([], r.0).value| == |EvalFrom([], output).value| - (|ops| - |r.1|)
  {
    PopWhileSpec(output, ops, p);
    var r := PopWhile(output, ops, p);
    var k := |r.1|;
    EvalFromConcat([], output, Popped(ops[k..]));
    EvalPopped(EvalFrom([], output).value, ops[k..]);
  }

  lemma StepBalanced(st: Converter, t: string, extra: nat)
    requires Balanced(st, extra)
    requires Step(st, t).Ok?
    ensures Balanced(Step(st, t).value, extra + if !st.expectNumber && IsNumberLexeme(t) then 1 else 0)
  {
    StepKeepsShape(st, t);
    var stack := EvalFrom([], st.output).value;
    if IsNumberLexeme(t) {
      EvalFromConcat([], st.output, [Num(LexemeValue(t))]);
      EvalNum(stack, LexemeValue(t));
    } else if t == "-" && st.expectNumber {
      EvalFromConcat([], st.output, [Num(0.0)]);
      EvalNum(stack, 0.0);
      EvalPopWhile(st.output + [Num(0.0)], st.ops, Precedence('-'));
    } else {
      EvalPopWhile(st.output, st.ops, Precedence(t[0]));
    }
  }

  lemma {:induction false} RunBalanced(st: Converter, ts: seq<string>, extra: nat)
    requires Balanced(st, extra)
    requires Run(st, ts).Ok?
    ensures Balanced(Run(st, ts).value, extra + AdjacentNumbers(ts, !st.expectNumber))
    decreases |ts|
  {
    if ts != [] {
      StepBalanced(st, ts[0], extra);
      var next := Step(st, ts[0]).value;
      StepFlag(st, ts[0]);
      RunBalanced(next, ts[1..], extra + if !st.expectNumber && IsNumberLexeme(ts[0]) then 1 else 0);
    }
  }

  lemma FinishBalanced(st: Converter, extra: nat)
    requires Balanced(st, extra)
    requires Finish(st).Ok?
    ensures EvalFrom([], Finish(st).value).Ok?
    ensures |EvalFrom([], Finish(st).value).value| == 1 + extra
  {
    EvalFromConcat([], st.output, Popped(st.ops));
    EvalPopped(EvalFrom([], st.output).value, st.ops);
  }

  /**
   * Postfix well-formedness: whatever `toRPN` returns, `evalRPN` never hits
   * its underflow check or an unknown operator, and it fails its final check
   * exactly when two number tokens are adjacent (as in `"1.2.3"`).
   */
  lemma PostfixWellFormed(expr: string)
    requires Postfix(expr).Ok?
    ensures Tokenize(expr).Some?
    ensures EvalFrom([], Postfix(expr).value).Ok?
    ensures Evaluate(Postfix(expr).value).Ok? <==> AdjacentNumbers(Tokenize(expr).value, false) == 0
    ensures Evaluate(Postfix(expr).value).Err? ==> Evaluate(Postfix(expr).value).error == BadCalcSize
  {
    var ts := Tokenize(expr).value;
    assert Balanced(Start, 0) by { assert EvalFrom([], []) == Ok([]); }
    RunBalanced(Start, ts, 0);
    FinishBalanced(Run(Start, ts).value, AdjacentNumbers(ts, false));
  }

  /**
   * The outcome of `evaluateExpr`: it returns a value exactly when the input
   * has a token, its operators are well placed, it ends with a number and no
   * two numbers are adjacent; otherwise it fails with the error of the first
   * check that rejects it (never an underflow, an invalid token or a bad op).
   */
  lemma EvaluateExprOutcome(expr: string)
    ensures EvaluateExpr(expr).Ok? <==>
      && Tokenize(expr).Some?
      && OperatorsPlaced(Tokenize(expr).value, true)
      && IsNumberLexeme(Tokenize(expr).value[|Tokenize(expr).value| - 1])
      && AdjacentNumbers(Tokenize(expr).value, false) == 0
    ensures EvaluateExpr(expr).Err? ==> EvaluateExpr(expr).error in {BadExpression, WrongPlace, EndsWithOperator, BadCalcSize}
  {
    PostfixOutcome(expr);
    if Postfix(expr).Ok? {
      PostfixWellFormed(expr);
    } else if Tokenize(expr).Some? {
      var ts := Tokenize(expr).value;
      assert IsLexeme(ts[|ts| - 1]);
    }
  }
}
