/**
 * The shunting-yard converter `toRPN` of index.js (no parentheses, two
 * precedence levels, a flag `expectNumber` that drives the unary-minus
 * rewrite and the placement errors), as specification functions over the
 * converter state and as the loop itself.
 */
module ShuntingYard {
  import opened Wrappers
  import opened Errors
  import opened Lexer
  import opened Rpn

  /** 1 for `+ -`, 2 for `* /`, 0 for anything else. */
  function Precedence(op: char): (p: nat)
    ensures p <= 2
    ensures p == 0 <==> !IsOpChar(op)
    ensures p == 2 <==> op == '*' || op == '/'
  {
    if op == '+' || op == '-' then 1
    else if op == '*' || op == '/' then 2
    else 0
  }

  /** The operators of `ops` in the order repeated `ops.pop()` yields them. */
  function Popped(ops: seq<char>): (r: seq<Item>)
    ensures |r| == |ops|
  {
    if ops == [] then [] else [Op(ops[|ops| - 1])] + Popped(ops[..|ops| - 1])
  }

  /** Popping is last in, first out. */
  lemma {:induction false} PoppedAt(ops: seq<char>, i: nat)
    requires i < |ops|
    ensures Popped(ops)[i] == Op(ops[|ops| - 1 - i])
    decreases |ops|
  {
    if i > 0 {
      PoppedAt(ops[..|ops| - 1], i - 1);
    }
  }

  lemma PoppedSnoc(ops: seq<char>, c: char)
    ensures Popped(ops + [c]) == [Op(c)] + Popped(ops)
  {
    assert (ops + [c])[..|ops|] == ops;
  }

  /** The inner loop `while (ops.length && precedence(top) >= p) output.push(ops.pop())`. */
  function PopWhile(output: seq<Item>, ops: seq<char>, p: nat): (r: (seq<Item>, seq<char>))
    ensures |r.1| <= |ops| && |r.0| == |output| + (|ops| - |r.1|)
    decreases |ops|
  {
    if |ops| > 0 && Precedence(ops[|ops| - 1]) >= p then
      PopWhile(output + [Op(ops[|ops| - 1])], ops[..|ops| - 1], p)
    else
      (output, ops)
  }

  /** The popping loop leaves a prefix of the stack. */
  lemma {:induction false} PopWhileRest(output: seq<Item>, ops: seq<char>, p: nat)
    ensures var r := PopWhile(output, ops, p);
      |r.1| <= |ops| && r.1 == ops[..|r.1|]
    decreases |ops|
  {
    if |ops| > 0 && Precedence(ops[|ops| - 1]) >= p {
      var rest := ops[..|ops| - 1];
      PopWhileRest(output + [Op(ops[|ops| - 1])], rest, p);
      var r := PopWhile(output + [Op(ops[|ops| - 1])], rest, p);
      assert rest[..|r.1|] == ops[..|r.1|];
    }
  }

  /** What it removes goes, top first, to the end of `output`. */
  lemma {:induction false} PopWhileOutput(output: seq<Item>, ops: seq<char>, p: nat)
    ensures var r := PopWhile(output, ops, p);
      |r.1| <= |ops| && r.0 == output + Popped(ops[|r.1|..])
    decreases |ops|
  {
    PopWhileRest(output, ops, p);
    if |ops| > 0 && Precedence(ops[|ops| - 1]) >= p {
      var top, rest := ops[|ops| - 1], ops[..|ops| - 1];
      PopWhileOutput(output + [Op(top)], rest, p);
      var k := |PopWhile(output + [Op(top)], rest, p).1|;
      assert ops[k..] == rest[k..] + [top];
      PoppedSnoc(rest[k..], top);
    } else {
      assert ops[|ops|..] == [];
    }
  }

  /** Everything it removes has precedence at least `p`. */
  lemma {:induction false} PopWhilePopsHigher(output: seq<Item>, ops: seq<char>, p: nat)
    ensures var r := PopWhile(output, ops, p);
      forall i :: |r.1| <= i < |ops| ==> Precedence(ops[i]) >= p
    decreases |ops|
  {
    if |ops| > 0 && Precedence(ops[|ops| - 1]) >= p {
      var rest := ops[..|ops| - 1];
      PopWhilePopsHigher(output + [Op(ops[|ops| - 1])], rest, p);
      var k := |PopWhile(output + [Op(ops[|ops| - 1])], rest, p).1|;
      forall i | k <= i < |ops| ensures Precedence(ops[i]) >= p {
        if i < |ops| - 1 { assert ops[i] == rest[i]; }
      }
    }
  }

  /** It stops at an empty stack or at a top of lower precedence than `p`. */
  lemma {:induction false} PopWhileStops(output: seq<Item>, ops: seq<char>, p: nat)
    ensures var r := PopWhile(output, ops, p);
      r.1 == [] || Precedence(r.1[|r.1| - 1]) < p
    decreases |ops|
  {
    if |ops| > 0 && Precedence(ops[|ops| - 1]) >= p {
      PopWhileStops(output + [Op(ops[|ops| - 1])], ops[..|ops| - 1], p);
    }
  }

  /**
   * The popping loop moves the maximal top segment of `ops` whose precedences
   * are at least `p`, top first, to the end of `output`, and leaves the rest.
   */
  lemma PopWhileSpec(output: seq<Item>, ops: seq<char>, p: nat)
    ensures var r := PopWhile(output, ops, p);
      && |r.1| <= |ops| && r.1 == ops[..|r.1|]
      && r.0 == output + Popped(ops[|r.1|..])
      && (forall i :: |r.1| <= i < |ops| ==> Precedence(ops[i]) >= p)
      && (r.1 == [] || Precedence(r.1[|r.1| - 1]) < p)
  {
    PopWhileRest(output, ops, p);
    PopWhileOutput(output, ops, p);
    PopWhilePopsHigher(output, ops, p);
    PopWhileStops(output, ops, p);
  }

  /** The local state of `toRPN`: the `output` array, the `ops` stack (top at the end), the flag. */
  datatype Converter = Converter(output: seq<Item>, ops: seq<char>, expectNumber: bool)

  const Start: Converter := Converter([], [], true)

  /** One iteration of the `for (let t of tokens)` loop. */
  function Step(st: Converter, t: string): (r: Result<Converter, Error>)
    ensures r.Ok? ==> r.value.expectNumber == IsOpLexeme(t)
    ensures r.Err? ==> r.error == if IsLexeme(t) then WrongPlace else InvalidToken
  {
    if IsNumberLexeme(t) then
      Ok(Converter(st.output + [Num(LexemeValue(t))], st.ops, false))
    else if IsOpLexeme(t) then
      if t == "-" && st.expectNumber then
        // unary minus: push 0, pop as a binary '-' would, push '-'; the flag stays set
        var r := PopWhile(st.output + [Num(0.0)], st.ops, Precedence('-'));
        Ok(Converter(r.0, r.1 + ['-'], true))
      else if st.expectNumber then
        Err(WrongPlace)
      else
        var r := PopWhile(st.output, st.ops, Precedence(t[0]));
        Ok(Converter(r.0, r.1 + [t[0]], true))
    else
      Err(InvalidToken)
  }

  /** The rest of the loop, from state `st`, over the tokens `ts`. */
  function Run(st: Converter, ts: seq<string>): (r: Result<Converter, Error>)
    ensures r.Err? ==> r.error == WrongPlace || r.error == InvalidToken
    decreases |ts|
  {
    if ts == [] then Ok(st)
    else
      var next :- Step(st, ts[0]);
      Run(next, ts[1..])
  }

  /** After the loop: reject a trailing operator, then drain the stack. */
  function Finish(st: Converter): (r: Result<seq<Item>, Error>)
    ensures r.Err? ==> r.error == EndsWithOperator
    ensures r.Ok? ==> |r.value| == |st.output| + |st.ops| && r.value[..|st.output|] == st.output
  {
    if st.expectNumber then Err(EndsWithOperator)
    else Ok(st.output + Popped(st.ops))
  }

  /** `toRPN(expr)`. */
  function Postfix(expr: string): (r: Result<seq<Item>, Error>)
    ensures r == Err(BadExpression) <==> Tokenize(expr).None?
    ensures r.Ok? ==> Tokenize(expr).Some? && IsNumberLexeme(Tokenize(expr).value[|Tokenize(expr).value| - 1])
  {
    match Tokenize(expr)
    case None => Err(BadExpression)
    case Some(ts) =>
      RunOutcome(Start, ts);
      var st :- Run(Start, ts);
      Finish(st)
  }

  /** The inner popping loop of `toRPN`. */
  method PopOperators(output: seq<Item>, ops: seq<char>, p: nat) returns (output': seq<Item>, ops': seq<char>)
    ensures (output', ops') == PopWhile(output, ops, p)
  {
    output', ops' := output, ops;
    while |ops'| > 0 && Precedence(ops'[|ops'| - 1]) >= p
      invariant PopWhile(output', ops', p) == PopWhile(output, ops, p)
      decreases |ops'|
    {
      output' := output' + [Op(ops'[|ops'| - 1])];
      ops' := ops'[..|ops'| - 1];
    }
  }

  method ToRPN(expr: string) returns (r: Result<seq<Item>, Error>)
    ensures r == Postfix(expr)
  {
    var tokens := Tokenize(expr);
    if tokens.None? {
      assert Postfix(expr) == Err(BadExpression);
      return Err(BadExpression);
    }
    var ts := tokens.value;
    var output: seq<Item> := [];
    var ops: seq<char> := [];
    var expectNumber := true;
    var i := 0;
    while i < |ts|
      invariant 0 <= i <= |ts|
      invariant Run(Converter(output, ops, expectNumber), ts[i..]) == Run(Start, ts)
    {
      var t := ts[i];
      assert ts[i..][0] == t && ts[i..][1..] == ts[i + 1..];
      if IsNumberLexeme(t) {
        output := output + [Num(LexemeValue(t))];
        expectNumber := false;
      } else if IsOpLexeme(t) {
        if t == "-" && expectNumber {
          output := output + [Num(0.0)];
          output, ops := PopOperators(output, ops, Precedence('-'));
          ops := ops + ['-'];
          i := i + 1;
          continue;
        }
        if expectNumber {
          assert Step(Converter(output, ops, expectNumber), t) == Err(WrongPlace);
          assert Run(Start, ts) == Err(WrongPlace);
          assert Postfix(expr) == Err(WrongPlace);
          return Err(WrongPlace);
        }
        output, ops := PopOperators(output, ops, Precedence(t[0]));
        ops := ops + [t[0]];
        expectNumber := true;
      } else {
        // "Invalid token": every token of the scanner is a number or an operator
        assert false;
      }
      i := i + 1;
    }
    assert ts[i..] == [];
    assert Run(Start, ts) == Ok(Converter(output, ops, expectNumber));
    if expectNumber {
      assert Postfix(expr) == Err(EndsWithOperator);
      return Err(EndsWithOperator);
    }
    ghost var drained := output + Popped(ops);
    assert Postfix(expr) == Ok(drained);
    while |ops| > 0
      invariant output + Popped(ops) == drained
      decreases |ops|
    {
      output := output + [Op(ops[|ops| - 1])];
      ops := ops[..|ops| - 1];
    }
    assert ops == [] && Popped(ops) == [];
    assert output == drained;
    r := Ok(output);
  }

  /* ---------- the operator stack ---------- */

  /** Operators only, strictly increasing in precedence from bottom to top. */
  predicate StackShape(ops: seq<char>) {
    && (forall i :: 0 <= i < |ops| ==> IsOpChar(ops[i]))
    && (forall i :: 0 < i < |ops| ==> Precedence(ops[i - 1]) < Precedence(ops[i]))
  }

  /** With two precedence levels the stack never holds more than two operators. */
  lemma ShapeBound(ops: seq<char>)
    requires StackShape(ops)
    ensures |ops| <= 2
    ensures |ops| == 2 ==> Precedence(ops[0]) == 1 && Precedence(ops[1]) == 2
  {
    if |ops| >= 2 {
      assert Precedence(ops[0]) != 0 by { assert IsOpChar(ops[0]); }
      assert Precedence(ops[0]) < Precedence(ops[1]);
    }
    assert |ops| > 2 ==> Precedence(ops[1]) < Precedence(ops[2]);
  }

  /** Pushing `c` on what the popping loop left behind keeps the stack in shape. */
  lemma PushKeepsShape(output: seq<Item>, ops: seq<char>, c: char)
    requires StackShape(ops) && IsOpChar(c)
    ensures StackShape(PopWhile(output, ops, Precedence(c)).1 + [c])
  {
    PopWhileSpec(output, ops, Precedence(c));
    var r := PopWhile(output, ops, Precedence(c));
    assert forall i :: 0 <= i < |r.1| ==> r.1[i] == ops[i];
  }

  /** Every successful step keeps the operator stack in shape. */
  lemma StepKeepsShape(st: Converter, t: string)
    requires StackShape(st.ops)
    requires Step(st, t).Ok?
    ensures StackShape(Step(st, t).value.ops)
  {
    if IsNumberLexeme(t) {
    } else if t == "-" && st.expectNumber {
      PushKeepsShape(st.output + [Num(0.0)], st.ops, '-');
    } else {
      PushKeepsShape(st.output, st.ops, t[0]);
    }
  }

  /** Popping at the lowest precedence of an operator empties the stack. */
  lemma {:induction false} PopAllAtLowest(output: seq<Item>, ops: seq<char>)
    requires forall i :: 0 <= i < |ops| ==> IsOpChar(ops[i])
    ensures PopWhile(output, ops, 1).1 == []
    decreases |ops|
  {
    if ops != [] {
      assert IsOpChar(ops[|ops| - 1]);
      PopAllAtLowest(output + [Op(ops[|ops| - 1])], ops[..|ops| - 1]);
    }
  }

  /** A unary minus leaves exactly itself on the stack: it pops every operator. */
  lemma UnaryEmptiesStack(st: Converter)
    requires StackShape(st.ops) && st.expectNumber
    ensures Step(st, "-").Ok? && Step(st, "-").value.ops == ['-'] && Step(st, "-").value.expectNumber
  {
    PopAllAtLowest(st.output + [Num(0.0)], st.ops);
  }

  lemma {:induction false} RunKeepsShape(st: Converter, ts: seq<string>)
    requires StackShape(st.ops)
    requires Run(st, ts).Ok?
    ensures StackShape(Run(st, ts).value.ops) && |Run(st, ts).value.ops| <= 2
    decreases |ts|
  {
    if ts == [] {
      ShapeBound(st.ops);
    } else {
      StepKeepsShape(st, ts[0]);
      RunKeepsShape(Step(st, ts[0]).value, ts[1..]);
    }
  }

  /* ---------- placement of operators ---------- */

  predicate AllLexemes(ts: seq<string>) {
    forall i :: 0 <= i < |ts| ==> IsLexeme(ts[i])
  }

  /**
   * An operator may stand where a number is expected (first, with `expecting`
   * set, or right after another operator) only if it is `-`.
   */
  predicate OperatorsPlaced(ts: seq<string>, expecting: bool) {
    && (expecting && ts != [] && IsOpLexeme(ts[0]) ==> ts[0] == "-")
    && (forall i :: 0 < i < |ts| && IsOpLexeme(ts[i - 1]) && IsOpLexeme(ts[i]) ==> ts[i] == "-")
  }

  lemma OperatorsPlacedCons(ts: seq<string>, expecting: bool)
    requires ts != []
    ensures OperatorsPlaced(ts, expecting) <==>
      (IsOpLexeme(ts[0]) && expecting ==> ts[0] == "-") && OperatorsPlaced(ts[1..], IsOpLexeme(ts[0]))
  {
    var rest := ts[1..];
    assert forall j :: 0 <= j < |rest| ==> rest[j] == ts[j + 1];
  }

  /** A step sets the flag exactly when it consumed an operator. */
  lemma StepFlag(st: Converter, t: string)
    requires Step(st, t).Ok?
    ensures IsLexeme(t) && Step(st, t).value.expectNumber == IsOpLexeme(t)
  {
  }

  /** A step fails exactly on an operator other than `-` where a number is expected. */
  lemma StepFails(st: Converter, t: string)
    requires IsLexeme(t)
    ensures Step(st, t).Err? <==> st.expectNumber && IsOpLexeme(t) && t != "-"
    ensures Step(st, t).Err? ==> Step(st, t).error == WrongPlace
  {
  }

  /**
   * Over scanner tokens the loop of `toRPN` succeeds exactly when operators
   * are placed as `OperatorsPlaced` says, fails otherwise with
   * "Operator in wrong place", and ends expecting a number exactly when the
   * last token is an operator.
   */
  lemma {:induction false} RunOutcome(st: Converter, ts: seq<string>)
    requires AllLexemes(ts)
    ensures Run(st, ts).Ok? <==> OperatorsPlaced(ts, st.expectNumber)
    ensures Run(st, ts).Err? ==> Run(st, ts).error == WrongPlace
    ensures Run(st, ts).Ok? ==>
      Run(st, ts).value.expectNumber == if ts == [] then st.expectNumber else IsOpLexeme(ts[|ts| - 1])
    decreases |ts|
  {
    if ts != [] {
      OperatorsPlacedCons(ts, st.expectNumber);
      StepFails(st, ts[0]);
      if Step(st, ts[0]).Ok? {
        var next := Step(st, ts[0]).value;
        StepFlag(st, ts[0]);
        assert AllLexemes(ts[1..]) by {
          forall i | 0 <= i < |ts[1..]| ensures IsLexeme(ts[1..][i]) { assert ts[1..][i] == ts[i + 1]; }
        }
        RunOutcome(next, ts[1..]);
        if ts[1..] != [] {
          assert ts[1..][|ts[1..]| - 1] == ts[|ts| - 1];
        }
      }
    }
  }

  /**
   * `toRPN` accepts `expr` exactly when it has a token, its operators are
   * placed correctly, and it ends with a number; each failure has its own error.
   */
  lemma PostfixOutcome(expr: string)
    ensures Tokenize(expr).None? ==> Postfix(expr) == Err(BadExpression)
    ensures Tokenize(expr).Some? ==>
      var ts := Tokenize(expr).value;
      && (!OperatorsPlaced(ts, true) ==> Postfix(expr) == Err(WrongPlace))
      && (OperatorsPlaced(ts, true) && IsOpLexeme(ts[|ts| - 1]) ==> Postfix(expr) == Err(EndsWithOperator))
      && (Postfix(expr).Ok? <==> OperatorsPlaced(ts, true) && IsNumberLexeme(ts[|ts| - 1]))
  {
    if Tokenize(expr).Some? {
      var ts := Tokenize(expr).value;
      RunOutcome(Start, ts);
    }
  }

  /* ---------- the unary-minus rewrite ---------- */

  /**
   * Where a number is expected, a `-` acts exactly as the two tokens `0 -`
   * would: the rewrite only inserts a literal zero.
   */
  lemma UnaryIsZeroMinus(st: Converter)
    requires st.expectNumber
    ensures Step(st, "0").Ok?
    ensures Step(st, "-") == Step(Step(st, "0").value, "-")
  {
    assert DigitRun("0") == 1;
    assert DigitsValue("0") == 0;
  }

  /** The token list with every `-` met where a number is expected written as `0 -`. */
  function Desugar(ts: seq<string>, expecting: bool): (ds: seq<string>)
    decreases |ts|
  {
    if ts == [] then []
    else if expecting && ts[0] == "-" then ["0", "-"] + Desugar(ts[1..], true)
    else [ts[0]] + Desugar(ts[1..], !IsNumberLexeme(ts[0]))
  }

  /** The converter treats every token list as its desugared form. */
  lemma {:induction false} RunDesugar(st: Converter, ts: seq<string>)
    ensures Run(st, Desugar(ts, st.expectNumber)) == Run(st, ts)
    decreases |ts|
  {
    if ts != [] {
      var ds := Desugar(ts, st.expectNumber);
      if st.expectNumber && ts[0] == "-" {
        UnaryIsZeroMinus(st);
        var zero := Step(st, "0").value;
        assert ds[0] == "0" && ds[1..][0] == "-" && ds[1..][1..] == Desugar(ts[1..], true);
        var next := Step(st, "-").value;
        assert Run(st, ds) == Run(zero, ds[1..]);
        RunDesugar(next, ts[1..]);
      } else {
        assert ds[0] == ts[0] && ds[1..] == Desugar(ts[1..], !IsNumberLexeme(ts[0]));
        if Step(st, ts[0]).Ok? {
          RunDesugar(Step(st, ts[0]).value, ts[1..]);
        }
      }
    }
  }
}
