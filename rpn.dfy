/**
 * The postfix evaluator `evalRPN` of index.js: postfix items, the numeric
 * values of the evaluation stack (exact reals plus JavaScript's NaN), and
 * the stack machine, as a specification function and as the loop itself.
 */
module Rpn {
  import opened Wrappers
  import opened Errors
  import opened Lexer

  /** An element of the postfix array: a number or an operator symbol. */
  datatype Item = Num(value: real) | Op(symbol: char)

  /** A JavaScript number, with the floating-point detail abstracted to exact reals. */
  datatype Value = Fin(x: real) | NaN

  /** `a op b`, where a zero divisor gives NaN whatever the numerator and NaN propagates. */
  function Apply(op: char, a: Value, b: Value): (r: Value)
    requires IsOpChar(op)
    ensures r.NaN? <==> a.NaN? || b.NaN? || (op == '/' && b == Fin(0.0))
    ensures r.Fin? && op == '/' ==> r.x * b.x == a.x
  {
    if a.NaN? || b.NaN? then NaN
    else if op == '+' then Fin(a.x + b.x)
    else if op == '-' then Fin(a.x - b.x)
    else if op == '*' then Fin(a.x * b.x)
    else if b.x == 0.0 then NaN
    else Fin(a.x / b.x)
  }

  /**
   * Runs the rest of `rpn` on `stack` (top at the end): a number is pushed;
   * an operator pops `b`, then `a`, and pushes `a op b`.
   */
  function EvalFrom(stack: seq<Value>, rpn: seq<Item>): (r: Result<seq<Value>, Error>)
    ensures r.Err? ==> r.error == BadCalcUnderflow || r.error == BadOp
    decreases |rpn|
  {
    if rpn == [] then Ok(stack)
    else match rpn[0]
      case Num(v) => EvalFrom(stack + [Fin(v)], rpn[1..])
      case Op(c) =>
        if |stack| < 2 then Err(BadCalcUnderflow)
        else if !IsOpChar(c) then Err(BadOp)
        else EvalFrom(stack[..|stack| - 2] + [Apply(c, stack[|stack| - 2], stack[|stack| - 1])], rpn[1..])
  }

  /** `evalRPN(rpn)`: the single value left on the stack. */
  function Evaluate(rpn: seq<Item>): (r: Result<Value, Error>)
    ensures r.Ok? ==> EvalFrom([], rpn) == Ok([r.value])
    ensures r.Err? ==> r.error in {BadCalcUnderflow, BadOp, BadCalcSize}
  {
    var stack :- EvalFrom([], rpn);
    if |stack| != 1 then Err(BadCalcSize)
    else
      assert stack == [stack[0]];
      Ok(stack[0])
  }

  /** The loop of `evalRPN`, with the stack as a sequence whose end is its top. */
  method EvalRPN(rpn: seq<Item>) returns (r: Result<Value, Error>)
    ensures r == Evaluate(rpn)
  {
    var stack: seq<Value> := [];
    var i := 0;
    while i < |rpn|
      invariant 0 <= i <= |rpn|
      invariant EvalFrom(stack, rpn[i..]) == EvalFrom([], rpn)
    {
      assert rpn[i..][1..] == rpn[i + 1..];
      var t := rpn[i];
      if t.Num? {
        stack := stack + [Fin(t.value)];
        i := i + 1;
        continue;
      }
      if |stack| < 2 {
        return Err(BadCalcUnderflow);
      }
      var b := stack[|stack| - 1];
      var a := stack[|stack| - 2];
      stack := stack[..|stack| - 2];
      if !IsOpChar(t.symbol) {
        return Err(BadOp);
      }
      stack := stack + [Apply(t.symbol, a, b)];
      i := i + 1;
    }
    if |stack| != 1 {
      return Err(BadCalcSize);
    }
    r := Ok(stack[0]);
  }

  /** Evaluating a concatenation evaluates the second part on the stack the first leaves. */
  lemma {:induction false} EvalFromConcat(stack: seq<Value>, a: seq<Item>, b: seq<Item>)
    ensures EvalFrom(stack, a + b) ==
            match EvalFrom(stack, a)
            case Ok(s) => EvalFrom(s, b)
            case Err(e) => Err(e)
    decreases |a|
  {
    if a != [] {
      assert (a + b)[0] == a[0] && (a + b)[1..] == a[1..] + b;
      match a[0]
      case Num(v) => EvalFromConcat(stack + [Fin(v)], a[1..], b);
      case Op(c) =>
        if |stack| >= 2 && IsOpChar(c) {
          EvalFromConcat(stack[..|stack| - 2] + [Apply(c, stack[|stack| - 2], stack[|stack| - 1])], a[1..], b);
        }
    } else {
      assert a + b == b;
    }
  }

  /** Operand order: the value pushed first is the left operand. */
  lemma BinaryOrder(stack: seq<Value>, x: real, y: real, op: char)
    requires IsOpChar(op)
    ensures EvalFrom(stack, [Num(x), Num(y), Op(op)]) == Ok(stack + [Apply(op, Fin(x), Fin(y))])
  {
    var s1 := stack + [Fin(x)];
    var s2 := s1 + [Fin(y)];
    assert s2[..|s2| - 2] == stack && s2[|s2| - 2] == Fin(x) && s2[|s2| - 1] == Fin(y);
    calc {
      EvalFrom(stack, [Num(x), Num(y), Op(op)]);
      { assert [Num(x), Num(y), Op(op)][1..] == [Num(y), Op(op)]; }
      EvalFrom(s1, [Num(y), Op(op)]);
      { assert [Num(y), Op(op)][1..] == [Op(op)]; }
      EvalFrom(s2, [Op(op)]);
      EvalFrom(stack + [Apply(op, Fin(x), Fin(y))], []);
    }
  }
}
