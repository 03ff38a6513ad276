/**
 * An independent meaning for what `evaluateExpr` computes: once every unary
 * minus is written as `0 -` (which is all the rewrite in `toRPN` does), an
 * accepted expression alternates numbers and operators, and its value is the
 * left-to-right "sum of products" reading with `*` and `/` binding tighter
 * than `+` and `-`, all four left-associative.
 */
module Semantics {
  import opened Wrappers
  import opened Errors
  import opened Lexer
  import opened Rpn
  import opened ShuntingYard
  import opened Evaluator

  /** Numbers and operators alternate, starting with a number when `wantNumber`. */
  predicate Alternates(ts: seq<string>, wantNumber: bool)
    decreases |ts|
  {
    ts == [] || ((if wantNumber then IsNumberLexeme(ts[0]) else IsOpLexeme(ts[0])) && Alternates(ts[1..], !wantNumber))
  }

  /**
   * A left-to-right reading in progress: the sum read so far, the additive
   * operator still pending, and the product being built.
   */
  datatype Partial = Partial(sum: Value, addOp: char, term: Value)

  predicate ValidPartial(p: Partial) {
    p.addOp == '+' || p.addOp == '-'
  }

  function Total(p: Partial): Value
    requires ValidPartial(p)
  {
    Apply(p.addOp, p.sum, p.term)
  }

  /** Reads `op v`: a multiplicative operator extends the product, an additive one closes it. */
  function Extend(p: Partial, op: char, v: Value): (q: Partial)
    requires ValidPartial(p) && IsOpChar(op)
    ensures ValidPartial(q)
  {
    if op == '*' || op == '/' then Partial(p.sum, p.addOp, Apply(op, p.term, v))
    else Partial(Total(p), op, v)
  }

  function Fold(p: Partial, rest: seq<string>): Value
    requires ValidPartial(p) && Alternates(rest, false) && |rest| % 2 == 0
    decreases |rest|
  {
    if rest == [] then Total(p)
    else
      assert Alternates(rest[1..], true) && rest[1..] != [];
      assert rest[1..][0] == rest[1] && rest[1..][1..] == rest[2..];
      Fold(Extend(p, rest[0][0], Fin(LexemeValue(rest[1]))), rest[2..])
  }

  /** The value of `n0 o1 n1 ... ok nk` read left to right with precedence. */
  function Reference(ds: seq<string>): Value
    requires Alternates(ds, true) && |ds| % 2 == 1
  {
    Fold(Partial(Fin(0.0), '+', Fin(LexemeValue(ds[0]))), ds[1..])
  }

  lemma AddZero(v: Value)
    ensures Apply('+', Fin(0.0), v) == v
  {
  }

  /**
   * The converter state `st` stands for the reading `p`: the output
   * evaluates to the sum (when an additive operator is stacked) and to the
   * operands of the pending product (when a multiplicative one is).
   */
  predicate Sim(st: Converter, p: Partial) {
    && ValidPartial(p)
    && !st.expectNumber && StackShape(st.ops)
    && EvalFrom([], st.output).Ok?
    && var s := EvalFrom([], st.output).value;
    && |s| == |st.ops| + 1
    && (if st.ops != [] && Precedence(st.ops[0]) == 1 then s[0] == p.sum && p.addOp == st.ops[0]
        else p.sum == Fin(0.0) && p.addOp == '+')
    && p.term == (if st.ops != [] && Precedence(st.ops[|st.ops| - 1]) == 2
                  then Apply(st.ops[|st.ops| - 1], s[|s| - 2], s[|s| - 1])
                  else s[|s| - 1])
  }

  lemma EvalOp(stack: seq<Value>, c: char)
    requires |stack| >= 2 && IsOpChar(c)
    ensures EvalFrom(stack, [Op(c)]) == Ok(stack[..|stack| - 2] + [Apply(c, stack[|stack| - 2], stack[|stack| - 1])])
  {
    assert [Op(c)][1..] == [];
  }

  /** A binary operator followed by a number, taken by the converter in two steps. */
  lemma PairStep(st: Converter, o: string, n: string)
    requires !st.expectNumber && IsOpLexeme(o) && IsNumberLexeme(n)
    requires EvalFrom([], st.output).Ok?
    ensures var r := PopWhile(st.output, st.ops, Precedence(o[0]));
      && Step(st, o) == Ok(Converter(r.0, r.1 + [o[0]], true))
      && Step(Step(st, o).value, n) == Ok(Converter(r.0 + [Num(LexemeValue(n))], r.1 + [o[0]], false))
      && |r.1| <= |st.ops|
      && EvalFrom([], r.0 + [Num(LexemeValue(n))]) ==
         match EvalFrom(EvalFrom([], st.output).value, Popped(st.ops[|r.1|..]))
         case Ok(s1) => Ok(s1 + [Fin(LexemeValue(n))])
         case Err(e) => Err(e)
  {
    var r := PopWhile(st.output, st.ops, Precedence(o[0]));
    PopWhileSpec(st.output, st.ops, Precedence(o[0]));
    var rest := Popped(st.ops[|r.1|..]);
    EvalFromConcat([], st.output, rest);
    EvalFromConcat([], r.0, [Num(LexemeValue(n))]);
    if EvalFrom([], r.0).Ok? {
      EvalNum(EvalFrom([], r.0).value, LexemeValue(n));
    }
  }

  /** `o n` read with an empty operator stack. */
  lemma PairSimEmpty(st: Converter, p: Partial, o: string, n: string)
    requires Sim(st, p) && IsOpLexeme(o) && IsNumberLexeme(n)
    requires st.ops == []
    ensures Step(st, o).Ok? && Step(Step(st, o).value, n).Ok?
    ensures Sim(Step(Step(st, o).value, n).value, Extend(p, o[0], Fin(LexemeValue(n))))
  {
    var c := o[0];
    var v := Fin(LexemeValue(n));
    var s := EvalFrom([], st.output).value;
    var ops := st.ops;
    PairStep(st, o, n);
    PopWhileSpec(st.output, ops, Precedence(c));
    var r := PopWhile(st.output, ops, Precedence(c));
    var k := |r.1|;
    var next := Step(Step(st, o).value, n).value;
    assert next.ops == r.1 + [c];
    assert StackShape(next.ops) by { PushKeepsShape(st.output, ops, c); }
    assert ops[k..] == [];
    AddZero(p.term);
    assert EvalFrom([], next.output) == Ok(s + [v]);
  }

  /** `o n` read with one additive operator stacked. */
  lemma PairSimLow(st: Converter, p: Partial, o: string, n: string)
    requires Sim(st, p) && IsOpLexeme(o) && IsNumberLexeme(n)
    requires |st.ops| == 1 && Precedence(st.ops[0]) == 1
    ensures Step(st, o).Ok? && Step(Step(st, o).value, n).Ok?
    ensures Sim(Step(Step(st, o).value, n).value, Extend(p, o[0], Fin(LexemeValue(n))))
  {
    var c := o[0];
    var v := Fin(LexemeValue(n));
    var s := EvalFrom([], st.output).value;
    var ops := st.ops;
    PairStep(st, o, n);
    PopWhileSpec(st.output, ops, Precedence(c));
    var r := PopWhile(st.output, ops, Precedence(c));
    var k := |r.1|;
    var next := Step(Step(st, o).value, n).value;
    assert next.ops == r.1 + [c];
    assert StackShape(next.ops) by { PushKeepsShape(st.output, ops, c); }
    if Precedence(c) == 1 {
      assert k == 0 && ops[k..] == [ops[0]] && Popped(ops[k..]) == [Op(ops[0])];
      EvalOp(s, ops[0]);
      assert s[..|s| - 2] + [Apply(ops[0], s[|s| - 2], s[|s| - 1])] == [Total(p)];
      assert EvalFrom(s, Popped(ops[k..])) == Ok([Total(p)]);
      assert [Total(p)] + [v] == [Total(p), v];
      assert EvalFrom([], next.output) == Ok([Total(p), v]);
    } else {
      assert k == 1 && ops[k..] == [];
      assert EvalFrom([], next.output) == Ok(s + [v]);
    }
  }

  /** `o n` read with one multiplicative operator stacked. */
  lemma PairSimHigh(st: Converter, p: Partial, o: string, n: string)
    requires Sim(st, p) && IsOpLexeme(o) && IsNumberLexeme(n)
    requires |st.ops| == 1 && Precedence(st.ops[0]) == 2
    ensures Step(st, o).Ok? && Step(Step(st, o).value, n).Ok?
    ensures Sim(Step(Step(st, o).value, n).value, Extend(p, o[0], Fin(LexemeValue(n))))
  {
    var c := o[0];
    var v := Fin(LexemeValue(n));
    var s := EvalFrom([], st.output).value;
    var ops := st.ops;
    PairStep(st, o, n);
    PopWhileSpec(st.output, ops, Precedence(c));
    var r := PopWhile(st.output, ops, Precedence(c));
    var k := |r.1|;
    var next := Step(Step(st, o).value, n).value;
    assert next.ops == r.1 + [c];
    assert StackShape(next.ops) by { PushKeepsShape(st.output, ops, c); }
    assert k == 0 && ops[k..] == [ops[0]] && Popped(ops[k..]) == [Op(ops[0])];
    EvalOp(s, ops[0]);
    AddZero(p.term);
    assert s[..|s| - 2] + [Apply(ops[0], s[|s| - 2], s[|s| - 1])] == [p.term];
    assert EvalFrom(s, Popped(ops[k..])) == Ok([p.term]);
    assert [p.term] + [v] == [p.term, v];
    assert EvalFrom([], next.output) == Ok([p.term, v]);
  }

  /** An additive `o n` with an additive operator under a multiplicative one: both are popped. */
  lemma PairSimTwoLow(st: Converter, p: Partial, o: string, n: string)
    requires Sim(st, p) && IsOpLexeme(o) && IsNumberLexeme(n)
    requires |st.ops| == 2 && Precedence(st.ops[0]) == 1 && Precedence(st.ops[1]) == 2
    requires Precedence(o[0]) == 1
    ensures Step(st, o).Ok? && Step(Step(st, o).value, n).Ok?
    ensures Sim(Step(Step(st, o).value, n).value, Extend(p, o[0], Fin(LexemeValue(n))))
  {
    var c := o[0];
    var v := Fin(LexemeValue(n));
    var s := EvalFrom([], st.output).value;
    var ops := st.ops;
    PairStep(st, o, n);
    PopWhileSpec(st.output, ops, Precedence(c));
    var r := PopWhile(st.output, ops, Precedence(c));
    var k := |r.1|;
    var next := Step(Step(st, o).value, n).value;
    assert next.ops == r.1 + [c];
    assert StackShape(next.ops) by { PushKeepsShape(st.output, ops, c); }
    var a, m := ops[0], ops[1];
    assert k == 0 && ops[k..] == [a, m];
    assert Popped(ops[k..]) == [Op(m)] + [Op(a)];
    EvalOp(s, m);
    var s1 := [s[0], p.term];
    assert |s| == 3;
    assert p.term == Apply(m, s[1], s[2]);
    assert s[..|s| - 2] + [Apply(m, s[|s| - 2], s[|s| - 1])] == s1;
    assert EvalFrom(s, [Op(m)]) == Ok(s1);
    EvalOp(s1, a);
    assert s1[..|s1| - 2] + [Apply(a, s1[|s1| - 2], s1[|s1| - 1])] == [Total(p)];
    EvalFromConcat(s, [Op(m)], [Op(a)]);
    assert EvalFrom(s, Popped(ops[k..])) == Ok([Total(p)]);
    assert [Total(p)] + [v] == [Total(p), v];
    assert EvalFrom([], next.output) == Ok([Total(p), v]);
  }

  /** A multiplicative `o n` with an additive operator under a multiplicative one: only the top is popped. */
  lemma PairSimTwoHigh(st: Converter, p: Partial, o: string, n: string)
    requires Sim(st, p) && IsOpLexeme(o) && IsNumberLexeme(n)
    requires |st.ops| == 2 && Precedence(st.ops[0]) == 1 && Precedence(st.ops[1]) == 2
    requires Precedence(o[0]) == 2
    ensures Step(st, o).Ok? && Step(Step(st, o).value, n).Ok?
    ensures Sim(Step(Step(st, o).value, n).value, Extend(p, o[0], Fin(LexemeValue(n))))
  {
    var c := o[0];
    var v := Fin(LexemeValue(n));
    var s := EvalFrom([], st.output).value;
    var ops := st.ops;
    PairStep(st, o, n);
    PopWhileSpec(st.output, ops, Precedence(c));
    var r := PopWhile(st.output, ops, Precedence(c));
    var k := |r.1|;
    var next := Step(Step(st, o).value, n).value;
    assert next.ops == r.1 + [c];
    assert StackShape(next.ops) by { PushKeepsShape(st.output, ops, c); }
    var a, m := ops[0], ops[1];
    assert k == 1 && ops[k..] == [m];
    assert |s| == 3;
    EvalOp(s, m);
    assert s[..|s| - 2] + [Apply(m, s[|s| - 2], s[|s| - 1])] == [p.sum, p.term];
    assert EvalFrom(s, Popped(ops[k..])) == Ok([p.sum, p.term]);
    assert [p.sum, p.term] + [v] == [p.sum, p.term, v];
    assert EvalFrom([], next.output) == Ok([p.sum, p.term, v]);
  }

  /** Reading `o n` in state `st` moves to a state that stands for `Extend(p, o, n)`. */
  lemma PairSim(st: Converter, p: Partial, o: string, n: string)
    requires Sim(st, p) && IsOpLexeme(o) && IsNumberLexeme(n)
    ensures Step(st, o).Ok? && Step(Step(st, o).value, n).Ok?
    ensures Sim(Step(Step(st, o).value, n).value, Extend(p, o[0], Fin(LexemeValue(n))))
  {
    ShapeBound(st.ops);
    if st.ops == [] {
      PairSimEmpty(st, p, o, n);
    } else if |st.ops| == 1 {
      assert IsOpChar(st.ops[0]);
      if Precedence(st.ops[0]) == 1 {
        PairSimLow(st, p, o, n);
      } else {
        PairSimHigh(st, p, o, n);
      }
    } else if Precedence(o[0]) == 1 {
      PairSimTwoLow(st, p, o, n);
    } else {
      PairSimTwoHigh(st, p, o, n);
    }
  }

  /** Draining a state that stands for `p` evaluates to the total of `p`. */
  lemma FinishSim(st: Converter, p: Partial)
    requires Sim(st, p)
    ensures Finish(st).Ok? && Evaluate(Finish(st).value) == Ok(Total(p))
  {
    var s := EvalFrom([], st.output).value;
    var ops := st.ops;
    ShapeBound(ops);
    EvalFromConcat([], st.output, Popped(ops));
    if ops == [] {
      AddZero(p.term);
      assert EvalFrom(s, Popped(ops)) == Ok(s);
    } else if |ops| == 1 {
      EvalOp(s, ops[0]);
      AddZero(p.term);
      assert Popped(ops) == [Op(ops[0])];
    } else {
      var a, m := ops[0], ops[1];
      assert Popped(ops) == [Op(m)] + [Op(a)];
      EvalOp(s, m);
      EvalOp([s[0], p.term], a);
      EvalFromConcat(s, [Op(m)], [Op(a)]);
    }
  }

  lemma {:induction false} RunSim(st: Converter, p: Partial, rest: seq<string>)
    requires Sim(st, p) && Alternates(rest, false) && |rest| % 2 == 0
    ensures Run(st, rest).Ok? && Finish(Run(st, rest).value).Ok?
    ensures Evaluate(Finish(Run(st, rest).value).value) == Ok(Fold(p, rest))
    decreases |rest|
  {
    if rest == [] {
      FinishSim(st, p);
    } else {
      var o, n := rest[0], rest[1];
      assert rest[1..][0] == n && rest[1..][1..] == rest[2..];
      PairSim(st, p, o, n);
      var next := Step(Step(st, o).value, n).value;
      RunSim(next, Extend(p, o[0], Fin(LexemeValue(n))), rest[2..]);
      assert Run(st, rest) == Run(next, rest[2..]);
    }
  }

  /** The first number moves the converter to a state standing for that number alone. */
  lemma FirstSim(t: string)
    requires IsNumberLexeme(t)
    ensures Step(Start, t).Ok?
    ensures Sim(Step(Start, t).value, Partial(Fin(0.0), '+', Fin(LexemeValue(t))))
  {
    var v := LexemeValue(t);
    assert Start.output + [Num(v)] == [Num(v)];
    EvalNum([], v);
  }

  lemma RunCons(st: Converter, ts: seq<string>)
    requires ts != [] && Step(st, ts[0]).Ok?
    ensures Run(st, ts) == Run(Step(st, ts[0]).value, ts[1..])
  {
  }

  lemma OddTail(n: nat)
    requires n % 2 == 1
    ensures (n - 1) % 2 == 0
  {
  }

  /** The converter and the evaluator together compute the reference reading. */
  lemma PipelineMeansReference(ds: seq<string>)
    requires Alternates(ds, true) && |ds| % 2 == 1
    ensures Run(Start, ds).Ok? && Finish(Run(Start, ds).value).Ok?
    ensures Evaluate(Finish(Run(Start, ds).value).value) == Ok(Reference(ds))
  {
    assert ds != [] && IsNumberLexeme(ds[0]);
    assert Alternates(ds[1..], false);
    OddTail(|ds|);
    assert |ds[1..]| == |ds| - 1;
    assert |ds[1..]| % 2 == 0;
    var p := Partial(Fin(0.0), '+', Fin(LexemeValue(ds[0])));
    FirstSim(ds[0]);
    var first := Step(Start, ds[0]).value;
    RunCons(Start, ds);
    assert Reference(ds) == Fold(p, ds[1..]);
    RunSim(first, p, ds[1..]);
  }

  lemma NumberIsNotOp(t: string)
    requires IsNumberLexeme(t)
    ensures !IsOpLexeme(t)
  {
    if |t| == 1 {
      assert DigitRun(t) == 1;
    }
  }

  /** Desugaring keeps the last token. */
  lemma {:induction false} DesugarLast(ts: seq<string>, expecting: bool)
    requires ts != []
    ensures var ds := Desugar(ts, expecting); ds != [] && ds[|ds| - 1] == ts[|ts| - 1]
    decreases |ts|
  {
    if |ts| > 1 {
      DesugarLast(ts[1..], if expecting && ts[0] == "-" then true else !IsNumberLexeme(ts[0]));
    }
  }

  /** An alternating list that starts and ends with a number has odd length. */
  lemma {:induction false} AlternatesParity(ds: seq<string>, wantNumber: bool)
    requires Alternates(ds, wantNumber) && ds != [] && IsNumberLexeme(ds[|ds| - 1])
    ensures |ds| % 2 == (if wantNumber then 1 else 0)
    decreases |ds|
  {
    if |ds| == 1 {
      if !wantNumber {
        NumberIsNotOp(ds[0]);
      }
    } else {
      assert ds[1..][|ds| - 2] == ds[|ds| - 1];
      AlternatesParity(ds[1..], !wantNumber);
    }
  }

  /** Desugaring an accepted token list yields an alternating one. */
  lemma {:induction false} DesugarAlternates(ts: seq<string>, expecting: bool)
    requires AllLexemes(ts) && OperatorsPlaced(ts, expecting)
    requires AdjacentNumbers(ts, !expecting) == 0
    ensures Alternates(Desugar(ts, expecting), expecting)
    decreases |ts|
  {
    if ts != [] {
      var rest := ts[1..];
      var t := ts[0];
      OperatorsPlacedCons(ts, expecting);
      assert AllLexemes(rest) by {
        forall i | 0 <= i < |rest| ensures IsLexeme(rest[i]) { assert rest[i] == ts[i + 1]; }
      }
      assert IsLexeme(t);
      var ds := Desugar(ts, expecting);
      if IsNumberLexeme(t) {
        NumberIsNotOp(t);
        assert expecting;
        DesugarAlternates(rest, false);
        assert ds == [t] + Desugar(rest, false);
        assert ds[1..] == Desugar(rest, false);
      } else if expecting {
        assert t == "-";
        DesugarAlternates(rest, true);
        assert ds == ["0", "-"] + Desugar(rest, true);
        assert ds[1..][1..] == Desugar(rest, true);
        AllDigitsRun("0");
      } else {
        DesugarAlternates(rest, true);
        assert ds == [t] + Desugar(rest, true);
        assert ds[1..] == Desugar(rest, true);
      }
    }
  }

  /**
   * What `evaluateExpr` computes: on every expression it accepts, the
   * reference reading of its tokens with each unary minus written as `0 -`.
   * So `"2+3*4"` is 14, `"8-3-2"` is 3 and `"-5+3"` is -2, while `"3*-5"`
   * reads as `3*0-5`, which is -5.
   */
  lemma EvaluateExprMeaning(expr: string)
    requires EvaluateExpr(expr).Ok?
    ensures Tokenize(expr).Some?
    ensures var ds := Desugar(Tokenize(expr).value, true);
      Alternates(ds, true) && |ds| % 2 == 1 && EvaluateExpr(expr) == Ok(Reference(ds))
  {
    EvaluateExprOutcome(expr);
    var ts := Tokenize(expr).value;
    DesugarAlternates(ts, true);
    var ds := Desugar(ts, true);
    DesugarLast(ts, true);
    AlternatesParity(ds, true);
    RunDesugar(Start, ts);
    PipelineMeansReference(ds);
  }

  /** Evaluating a number token gives its value. */
  lemma EvaluateNumber(u: string)
    requires IsNumberLexeme(u)
    ensures EvaluateExpr(u) == Ok(Fin(LexemeValue(u)))
  {
    ScanLexeme(u);
    var v := LexemeValue(u);
    assert Start.output + [Num(v)] == [Num(v)];
    assert Step(Start, u) == Ok(Converter([Num(v)], [], false));
    assert Run(Start, [u]) == Step(Start, u);
    assert Tokenize(u) == Some([u]);
    assert Popped([]) == [] && [Num(v)] + [] == [Num(v)];
    assert Finish(Converter([Num(v)], [], false)) == Ok([Num(v)]);
    assert Postfix(u) == Ok([Num(v)]);
    EvalNum([], v);
  }

  /** The converter takes `-` and a number token to `0 u -` with nothing still stacked but the `-`. */
  lemma NegatedRun(u: string)
    requires IsNumberLexeme(u)
    ensures Run(Start, ["-", u]) == Ok(Converter([Num(0.0), Num(LexemeValue(u))], ['-'], false))
  {
    var v := LexemeValue(u);
    var st1 := Converter([Num(0.0)], ['-'], true);
    assert !IsNumberLexeme("-") && IsOpLexeme("-");
    assert Start.output + [Num(0.0)] == [Num(0.0)];
    assert PopWhile([Num(0.0)], [], Precedence('-')) == ([Num(0.0)], []);
    assert [] + ['-'] == ['-'];
    assert Step(Start, "-") == Ok(st1);
    var st2 := Converter([Num(0.0), Num(v)], ['-'], false);
    assert [Num(0.0)] + [Num(v)] == [Num(0.0), Num(v)];
    assert Step(st1, u) == Ok(st2);
    assert ["-", u][1..] == [u] && [u][1..] == [];
    RunCons(st1, [u]);
    RunCons(Start, ["-", u]);
  }

  lemma NegatedPostfix(u: string)
    requires IsNumberLexeme(u)
    ensures Postfix("-" + u) == Ok([Num(0.0), Num(LexemeValue(u)), Op('-')])
  {
    var v := LexemeValue(u);
    ScanNegated(u);
    NegatedRun(u);
    var st2 := Converter([Num(0.0), Num(v)], ['-'], false);
    assert Popped(['-']) == [Op('-')];
    assert [Num(0.0), Num(v)] + [Op('-')] == [Num(0.0), Num(v), Op('-')];
    assert Finish(st2) == Ok([Num(0.0), Num(v), Op('-')]);
  }

  /** Evaluating `-` followed by a number token gives minus its value. */
  lemma EvaluateNegated(u: string)
    requires IsNumberLexeme(u)
    ensures EvaluateExpr("-" + u) == Ok(Fin(-LexemeValue(u)))
  {
    var v := LexemeValue(u);
    NegatedPostfix(u);
    BinaryOrder([], 0.0, v, '-');
    assert [] + [Apply('-', Fin(0.0), Fin(v))] == [Fin(-v)];
    assert Evaluate([Num(0.0), Num(v), Op('-')]) == Ok(Fin(-v));
  }

  lemma ScanNegated(b: string)
    requires IsNumberLexeme(b)
    ensures Scan("-" + b) == ["-", b]
  {
    assert "-" + b == [] + ['-'] + b;
    ScanSplit([], '-', b);
    ScanLexeme(b);
    TwoTokens("-", b);
  }

  lemma TwoTokens(x: string, y: string)
    ensures [] + [x] + [y] == [x, y]
  {
  }

  lemma FourTokens(w: string, x: string, y: string, z: string)
    ensures [w] + [x] + [y, z] == [w, x, y, z]
  {
  }

  lemma MinusAfterOperatorTokens(a: string, o: char, b: string)
    requires IsNumberLexeme(a) && IsOpChar(o) && IsNumberLexeme(b)
    ensures Tokenize(a + [o] + "-" + b) == Some([a, [o], "-", b])
  {
    var e := a + [o] + "-" + b;
    assert e == a + [o] + ("-" + b);
    ScanSplit(a, o, "-" + b);
    ScanLexeme(a);
    ScanNegated(b);
    FourTokens(a, [o], "-", b);
  }

  lemma MinusAfterOperatorRun(a: string, o: char, b: string)
    requires IsNumberLexeme(a) && IsOpChar(o) && IsNumberLexeme(b)
    ensures Run(Start, [a, [o], "-", b]) ==
      Ok(Converter([Num(LexemeValue(a)), Num(0.0), Op(o), Num(LexemeValue(b))], ['-'], false))
  {
    var va, vb := LexemeValue(a), LexemeValue(b);
    var ts := [a, [o], "-", b];
    assert !IsNumberLexeme([o]) && !IsNumberLexeme("-");
    var s1 := Converter([Num(va)], [], false);
    assert Start.output + [Num(va)] == [Num(va)];
    assert Step(Start, a) == Ok(s1);
    var s2 := Converter([Num(va)], [o], true);
    assert PopWhile([Num(va)], [], Precedence(o)) == ([Num(va)], []);
    assert [] + [o] == [o];
    assert Step(s1, [o]) == Ok(s2);
    var s3 := Converter([Num(va), Num(0.0), Op(o)], ['-'], true);
    assert [Num(va)] + [Num(0.0)] == [Num(va), Num(0.0)];
    assert PopWhile([Num(va), Num(0.0)], [], Precedence('-')) == ([Num(va), Num(0.0)], []);
    assert [o][..0] == [] && [Num(va), Num(0.0)] + [Op(o)] == [Num(va), Num(0.0), Op(o)];
    assert PopWhile([Num(va), Num(0.0)], [o], Precedence('-')) == ([Num(va), Num(0.0), Op(o)], []);
    assert [] + ['-'] == ['-'];
    assert Step(s2, "-") == Ok(s3);
    var s4 := Converter([Num(va), Num(0.0), Op(o), Num(vb)], ['-'], false);
    assert [Num(va), Num(0.0), Op(o)] + [Num(vb)] == [Num(va), Num(0.0), Op(o), Num(vb)];
    assert Step(s3, b) == Ok(s4);
    assert ts[1..] == [[o], "-", b] && ts[1..][1..] == ["-", b] && ts[1..][1..][1..] == [b];
    assert [b][1..] == [];
    RunCons(s3, [b]);
    RunCons(s2, ["-", b]);
    RunCons(s1, [[o], "-", b]);
    RunCons(Start, ts);
    assert Run(Start, ts) == Ok(s4);
  }

  lemma MinusAfterOperatorPostfix(a: string, o: char, b: string)
    requires IsNumberLexeme(a) && IsOpChar(o) && IsNumberLexeme(b)
    ensures Postfix(a + [o] + "-" + b) ==
      Ok([Num(LexemeValue(a)), Num(0.0), Op(o), Num(LexemeValue(b)), Op('-')])
  {
    MinusAfterOperatorTokens(a, o, b);
    MinusAfterOperatorRun(a, o, b);
    var va, vb := LexemeValue(a), LexemeValue(b);
    var s4 := Converter([Num(va), Num(0.0), Op(o), Num(vb)], ['-'], false);
    assert Popped(['-']) == [Op('-')];
    assert s4.output + [Op('-')] == [Num(va), Num(0.0), Op(o), Num(vb), Op('-')];
    assert Finish(s4) == Ok([Num(va), Num(0.0), Op(o), Num(vb), Op('-')]);
  }

  /** The postfix `x 0 o y -` leaves `(x o 0) - y`. */
  lemma EvalMinusAfterOperator(x: real, o: char, y: real)
    requires IsOpChar(o)
    ensures Evaluate([Num(x), Num(0.0), Op(o), Num(y), Op('-')]) == Ok(Apply('-', Apply(o, Fin(x), Fin(0.0)), Fin(y)))
  {
    var rpn := [Num(x), Num(0.0), Op(o), Num(y), Op('-')];
    BinaryOrder([], x, 0.0, o);
    var m := Apply(o, Fin(x), Fin(0.0));
    assert rpn == [Num(x), Num(0.0), Op(o)] + [Num(y), Op('-')];
    EvalFromConcat([], [Num(x), Num(0.0), Op(o)], [Num(y), Op('-')]);
    assert [] + [m] == [m];
    EvalNum([m], y);
    EvalOp([m, Fin(y)], '-');
    assert [Num(y), Op('-')] == [Num(y)] + [Op('-')];
    EvalFromConcat([m], [Num(y)], [Op('-')]);
    assert [m, Fin(y)][..0] + [Apply('-', m, Fin(y))] == [Apply('-', m, Fin(y))];
  }

  /**
   * A `-` right after a binary operator becomes `0 -` with the operator
   * applied to the 0 first: `a o -b` evaluates to `(a o 0) - b`. So `3*-5`
   * is -5, `8/-2` is NaN and `5--3` is 2.
   */
  lemma MinusAfterOperator(a: string, o: char, b: string)
    requires IsNumberLexeme(a) && IsOpChar(o) && IsNumberLexeme(b)
    ensures var x, y := Fin(LexemeValue(a)), Fin(LexemeValue(b));
      EvaluateExpr(a + [o] + "-" + b) == Ok(Apply('-', Apply(o, x, Fin(0.0)), y))
    ensures o == '*' ==> EvaluateExpr(a + [o] + "-" + b) == Ok(Fin(-LexemeValue(b)))
    ensures o == '/' ==> EvaluateExpr(a + [o] + "-" + b) == Ok(NaN)
  {
    MinusAfterOperatorPostfix(a, o, b);
    EvalMinusAfterOperator(LexemeValue(a), o, LexemeValue(b));
  }
}
