/**
 * The display of index.js: the text field `display.value` and the three
 * handlers that change it, `appendToDisplay`, `clearDisplay` and
 * `calculate`, each as a function from the old text to the new one and as
 * a method of the `Display` class running the same steps on its field.
 */
module Calculator {
  import opened Wrappers
  import opened Errors
  import opened Lexer
  import opened Rpn
  import opened ShuntingYard
  import opened Evaluator
  import opened Semantics
  import opened Format

  /** The white space and line terminators `String.prototype.trim` removes. */
  predicate IsJsSpace(c: char) {
    var n := c as int;
    || (0x09 <= n <= 0x0D) || n == 0x20 || n == 0xA0 || n == 0x1680
    || (0x2000 <= n <= 0x200A) || n == 0x2028 || n == 0x2029 || n == 0x202F
    || n == 0x205F || n == 0x3000 || n == 0xFEFF
  }

  function TrimStart(s: string): (r: string)
    ensures |r| <= |s| && r == s[|s| - |r|..]
    ensures r == [] || !IsJsSpace(r[0])
    ensures forall i :: 0 <= i < |s| - |r| ==> IsJsSpace(s[i])
  {
    if s != [] && IsJsSpace(s[0]) then
      var r := TrimStart(s[1..]);
      assert forall i :: 1 <= i < |s| ==> s[i] == s[1..][i - 1];
      r
    else s
  }

  function TrimEnd(s: string): (r: string)
    ensures |r| <= |s| && r == s[..|r|]
    ensures r == [] || !IsJsSpace(r[|r| - 1])
    ensures forall i :: |r| <= i < |s| ==> IsJsSpace(s[i])
  {
    if s != [] && IsJsSpace(s[|s| - 1]) then TrimEnd(s[..|s| - 1]) else s
  }

  /**
   * `s.trim()`: a contiguous part of `s` with the white space on both ends
   * removed; empty exactly when `s` is all white space.
   */
  function Trim(s: string): (r: string)
    ensures |r| <= |s|
    ensures r == [] <==> forall i :: 0 <= i < |s| ==> IsJsSpace(s[i])
    ensures r != [] ==> !IsJsSpace(r[0]) && !IsJsSpace(r[|r| - 1])
    ensures exists k :: TrimmedAt(s, r, k)
  {
    var a := TrimStart(s);
    var r := TrimEnd(a);
    assert r == [] ==> a == [];
    TrimmedAtParts(s, a, r);
    r
  }

  /** A white-space-free prefix `r` of a white-space-free suffix `a` of `s` sits in `s` as `TrimmedAt` says. */
  lemma TrimmedAtParts(s: string, a: string, r: string)
    requires |a| <= |s| && a == s[|s| - |a|..]
    requires forall i :: 0 <= i < |s| - |a| ==> IsJsSpace(s[i])
    requires |r| <= |a| && r == a[..|r|]
    requires forall i :: |r| <= i < |a| ==> IsJsSpace(a[i])
    ensures TrimmedAt(s, r, |s| - |a|)
  {
    var k := |s| - |a|;
    assert r == s[k..k + |r|];
    assert forall i :: k + |r| <= i < |s| ==> s[i] == a[i - k];
  }

  /** `r` is the part of `s` from `k` on, with only white space around it. */
  predicate TrimmedAt(s: string, r: string, k: nat) {
    && k + |r| <= |s| && r == s[k..k + |r|]
    && (forall i :: 0 <= i < k ==> IsJsSpace(s[i]))
    && (forall i :: k + |r| <= i < |s| ==> IsJsSpace(s[i]))
  }

  /** A string without white space at either end trims to itself. */
  lemma TrimUnspaced(s: string)
    requires s != [] && !IsJsSpace(s[0]) && !IsJsSpace(s[|s| - 1])
    ensures Trim(s) == s
  {
  }

  /** Index just after the last operator character of `v`, 0 when there is none. */
  function LastOpEnd(v: string): (p: nat)
    ensures p <= |v|
    ensures p > 0 ==> IsOpChar(v[p - 1])
    ensures forall i :: p <= i < |v| ==> !IsOpChar(v[i])
  {
    if v == [] then 0
    else if IsOpChar(v[|v| - 1]) then |v|
    else LastOpEnd(v[..|v| - 1])
  }

  // `v.split(/[+\-*/]/).pop()`: the number being typed, after the last operator.
  function LastSegment(v: string): (r: string)
    ensures |r| <= |v| && r == v[|v| - |r|..]
    ensures forall i :: 0 <= i < |r| ==> !IsOpChar(r[i])
    ensures |r| < |v| ==> IsOpChar(v[|v| - |r| - 1])
  {
    var p := LastOpEnd(v);
    assert forall i :: 0 <= i < |v| - p ==> v[p..][i] == v[p + i];
    v[p..]
  }

  /** The new display text after `appendToDisplay(ch)` on text `v`. */
  function Appended(v: string, ch: char): (r: string)
    ensures |v| <= |r| <= |v| + 2
    ensures v != [] ==> r[..|v| - 1] == v[..|v| - 1]
    ensures !IsOpChar(ch) && ch != '.' ==> r == v + [ch]
    ensures IsOpChar(ch) && v != [] && !IsOpChar(v[|v| - 1]) ==> r == v + [ch]
  {
    if IsOpChar(ch) && v == [] then
      if ch == '-' then "-" else v
    else if IsOpChar(ch) && IsOpChar(v[|v| - 1]) then
      v[..|v| - 1] + [ch]
    else if ch == '.' && '.' in LastSegment(v) then
      v
    else if ch == '.' && LastSegment(v) == [] then
      v + "0."
    else
      v + [ch]
  }

  /** What the display shows when a calculation fails. */
  const ErrorText: string := "E"

  /** The new display text after `calculate()` on text `v`. */
  function Calculated(v: string): (r: string)
    ensures Trim(v) == [] ==> r == v
    ensures Trim(v) != [] ==> r == ErrorText || (r != [] && (r[0] == '-' || IsDigit(r[0])))
  {
    var e := Trim(v);
    if e == [] then v
    else match EvaluateExpr(e)
      case Err(_) => ErrorText
      case Ok(NaN) => ErrorText
      case Ok(Fin(x)) => Render(x)
  }

  /** No two operator characters stand side by side. */
  predicate NoAdjacentOps(v: string) {
    forall i :: 0 < i < |v| ==> !(IsOpChar(v[i - 1]) && IsOpChar(v[i]))
  }

  predicate OpBetween(v: string, i: nat, j: nat) {
    exists k :: i < k < j && k < |v| && IsOpChar(v[k])
  }

  /** Each number on the display has at most one decimal point. */
  predicate OneDotPerNumber(v: string) {
    forall i, j :: 0 <= i < j < |v| && v[i] == '.' && v[j] == '.' ==> OpBetween(v, i, j)
  }

  /** The invariant the buttons keep. */
  predicate WellTyped(v: string) {
    NoAdjacentOps(v) && OneDotPerNumber(v)
  }

  /** An operator on an empty display is refused, except `-`, which starts a negative number. */
  lemma OperatorOnEmpty(ch: char)
    requires IsOpChar(ch)
    ensures Appended("", ch) == if ch == '-' then "-" else ""
  {
  }

  /** An operator typed after an operator replaces it; so does one typed on a lone `-`. */
  lemma OperatorReplaces(v: string, ch: char)
    requires IsOpChar(ch) && v != [] && IsOpChar(v[|v| - 1])
    ensures |Appended(v, ch)| == |v|
    ensures Appended(v, ch)[..|v| - 1] == v[..|v| - 1] && Appended(v, ch)[|v| - 1] == ch
  {
  }

  /**
   * A decimal point is refused when the current number already has one, and
   * is written `0.` when no digit of the number has been typed yet; either
   * way the current number then has a point.
   */
  lemma DotOutcome(v: string)
    ensures '.' in LastSegment(v) ==> Appended(v, '.') == v
    ensures '.' !in LastSegment(v) ==> Appended(v, '.') == v + (if LastSegment(v) == [] then "0." else ".")
    ensures '.' in LastSegment(Appended(v, '.'))
  {
    if '.' !in LastSegment(v) {
      DotAccepted(v);
    }
  }

  lemma DotAccepted(v: string)
    requires '.' !in LastSegment(v)
    ensures Appended(v, '.') == v + (if LastSegment(v) == [] then "0." else ".")
    ensures '.' in LastSegment(Appended(v, '.'))
  {
    var s := if LastSegment(v) == [] then "0." else ".";
    assert Appended(v, '.') == v + s;
    PointInLastSegment(v, s);
  }

  /** Text without operators that ends in a point leaves a point in the last number. */
  lemma PointInLastSegment(v: string, s: string)
    requires s != [] && s[|s| - 1] == '.'
    requires forall i :: 0 <= i < |s| ==> !IsOpChar(s[i])
    ensures '.' in LastSegment(v + s)
  {
    var w := v + s;
    var p := LastOpEnd(v);
    assert LastOpEnd(w) == p by { LastOpEndAppend(v, s); }
    assert |LastSegment(w)| == |w| - p;
    assert LastSegment(w)[|w| - 1 - p] == w[|w| - 1] == '.';
  }

  lemma LastOpEndAppend(v: string, s: string)
    requires forall i :: 0 <= i < |s| ==> !IsOpChar(s[i])
    ensures LastOpEnd(v + s) == LastOpEnd(v)
    decreases |s|
  {
    if s != [] {
      var w := v + s;
      assert w[..|w| - 1] == v + s[..|s| - 1];
      LastOpEndAppend(v, s[..|s| - 1]);
    } else {
      assert v + s == v;
    }
  }

  /** Typing a character never puts two operators side by side. */
  lemma AppendKeepsNoAdjacentOps(v: string, ch: char)
    requires NoAdjacentOps(v)
    ensures NoAdjacentOps(Appended(v, ch))
  {
    var w := Appended(v, ch);
    forall i | 0 < i < |w| ensures !(IsOpChar(w[i - 1]) && IsOpChar(w[i])) {
      if i < |v| - 1 || (i < |v| && !IsOpChar(ch)) {
        assert w[i - 1] == v[i - 1] && w[i] == v[i];
      } else if i == |v| - 1 {
        assert w[i - 1] == v[i - 1];
      }
    }
  }

  /** Appending text whose only point is its last character, after a number without one. */
  lemma DotAppendKeepsOneDot(v: string, s: string)
    requires OneDotPerNumber(v) && '.' !in LastSegment(v)
    requires s != [] && s[|s| - 1] == '.'
    requires forall i :: 0 <= i < |s| ==> !IsOpChar(s[i])
    requires forall i :: 0 <= i < |s| - 1 ==> s[i] != '.'
    ensures OneDotPerNumber(v + s)
  {
    var w := v + s;
    var p := LastOpEnd(v);
    assert forall m :: |v| <= m < |w| ==> w[m] == s[m - |v|];
    assert forall m :: p <= m < |v| ==> v[m] == LastSegment(v)[m - p];
    forall i, j | 0 <= i < j < |w| && w[i] == '.' && w[j] == '.' ensures OpBetween(w, i, j) {
      if j < |v| {
        assert v[i] == '.' && v[j] == '.' && OpBetween(v, i, j);
        var k :| i < k < j && k < |v| && IsOpChar(v[k]);
        assert w[k] == v[k];
      } else {
        assert i < |v| && v[i] == '.';
        assert i < p - 1 && w[p - 1] == v[p - 1];
      }
    }
  }

  /** Typing a character never gives a number a second decimal point. */
  lemma AppendKeepsOneDot(v: string, ch: char)
    requires WellTyped(v)
    ensures OneDotPerNumber(Appended(v, ch))
  {
    var w := Appended(v, ch);
    if IsOpChar(ch) && v == [] {
    } else if IsOpChar(ch) && IsOpChar(v[|v| - 1]) {
      forall i, j | 0 <= i < j < |w| && w[i] == '.' && w[j] == '.' ensures OpBetween(w, i, j) {
        assert j < |v| - 1;
        assert v[i] == '.' && v[j] == '.' && OpBetween(v, i, j);
        var k :| i < k < j && k < |v| && IsOpChar(v[k]);
        assert w[k] == v[k];
      }
    } else if ch == '.' && '.' in LastSegment(v) {
    } else if ch == '.' {
      var s := if LastSegment(v) == [] then "0." else ".";
      DotAppendKeepsOneDot(v, s);
    } else {
      forall i, j | 0 <= i < j < |w| && w[i] == '.' && w[j] == '.' ensures OpBetween(w, i, j) {
        assert v[i] == '.' && v[j] == '.' && OpBetween(v, i, j);
        var k :| i < k < j && k < |v| && IsOpChar(v[k]);
        assert w[k] == v[k];
      }
    }
  }

  /** The invariant holds after every button press. */
  lemma AppendKeepsWellTyped(v: string, ch: char)
    requires WellTyped(v)
    ensures WellTyped(Appended(v, ch))
  {
    AppendKeepsNoAdjacentOps(v, ch);
    AppendKeepsOneDot(v, ch);
  }

  /** A number token is digits with at most one point, and ends with a digit. */
  lemma NumberLexemeChars(t: string)
    requires IsNumberLexeme(t)
    ensures forall i :: 0 <= i < |t| ==> IsDigit(t[i]) || t[i] == '.'
    ensures forall i, j :: 0 <= i < j < |t| ==> !(t[i] == '.' && t[j] == '.')
    ensures IsDigit(t[|t| - 1])
  {
    var d := DigitRun(t);
    assert forall i :: 0 <= i < d ==> t[i] == t[..d][i];
    if d < |t| {
      assert forall i :: d < i < |t| ==> t[i] == t[d + 1..][i - d - 1];
    }
  }

  /** A number token, possibly after a `-`, is well-typed display text. */
  lemma SignedNumberWellTyped(t: string, o: nat)
    requires o <= 1 && o < |t| && IsNumberLexeme(t[o..])
    requires o == 1 ==> t[0] == '-'
    ensures t[0] != 'E' && !IsJsSpace(t[0]) && !IsJsSpace(t[|t| - 1])
    ensures WellTyped(t)
  {
    var u := t[o..];
    NumberLexemeChars(u);
    assert forall i :: o <= i < |t| ==> t[i] == u[i - o];
    assert t[|t| - 1] == u[|u| - 1];
  }

  /** The text of a result is a number token, possibly after a `-`. */
  lemma RenderWellTyped(x: real)
    ensures var t := Render(x);
      && t != [] && t[0] != 'E' && !IsJsSpace(t[0]) && !IsJsSpace(t[|t| - 1])
      && WellTyped(t)
  {
    var t := Render(x);
    RenderParts(x);
    if Shown(x) < 0.0 {
      SignedNumberWellTyped(t, 1);
    } else {
      assert t[0..] == t;
      SignedNumberWellTyped(t, 0);
    }
  }

  /** The text of a result evaluates to the value it shows. */
  lemma EvaluateRender(x: real)
    ensures EvaluateExpr(Render(x)) == Ok(Fin(Shown(x)))
  {
    var t := Render(x);
    RenderParts(x);
    if Shown(x) < 0.0 {
      assert t == "-" + t[1..];
      EvaluateNegated(t[1..]);
    } else {
      EvaluateNumber(t);
    }
  }

  lemma ErrorTextTrims()
    ensures Trim(ErrorText) == ErrorText
  {
    TrimUnspaced(ErrorText);
  }

  lemma ErrorTextHasNoTokens()
    ensures Tokenize(ErrorText).None?
  {
  }

  /** Text with no number and no operator in it shows `E`. */
  lemma CalculatedNoTokens(v: string)
    requires Trim(v) != [] && Tokenize(Trim(v)).None?
    ensures Calculated(v) == ErrorText
  {
  }

  /**
   * `calculate` leaves white space alone and otherwise shows `E` exactly
   * when evaluation fails or gives NaN.
   */
  lemma CalculatedOutcome(v: string)
    ensures Trim(v) == [] ==> Calculated(v) == v
    ensures Calculated(v) == ErrorText <==>
      Trim(v) != [] && (EvaluateExpr(Trim(v)).Err? || EvaluateExpr(Trim(v)).value.NaN?)
  {
    var e := Trim(v);
    ErrorTextTrims();
    if e != [] && EvaluateExpr(e).Ok? && EvaluateExpr(e).value.Fin? {
      RenderWellTyped(EvaluateExpr(e).value.x);
    }
  }

  /** A value `calculate` shows re-evaluates to that value rounded to 12 places. */
  lemma CalculatedValue(v: string)
    requires Trim(v) != [] && EvaluateExpr(Trim(v)).Ok? && EvaluateExpr(Trim(v)).value.Fin?
    ensures EvaluateExpr(Calculated(v)) == Ok(Fin(Shown(EvaluateExpr(Trim(v)).value.x)))
  {
    EvaluateRender(EvaluateExpr(Trim(v)).value.x);
  }

  lemma CalculatedError()
    ensures Calculated(ErrorText) == ErrorText
  {
    ErrorTextTrims();
    ErrorTextHasNoTokens();
    CalculatedNoTokens(ErrorText);
  }

  lemma CalculatedRender(x: real)
    ensures Calculated(Render(x)) == Render(x)
  {
    RenderWellTyped(x);
    TrimUnspaced(Render(x));
    EvaluateRender(x);
    RenderShown(x);
  }

  /** Pressing `=` a second time changes nothing. */
  lemma CalculatedIdempotent(v: string)
    ensures Calculated(Calculated(v)) == Calculated(v)
  {
    var e := Trim(v);
    if e != [] {
      match EvaluateExpr(e)
      case Err(_) => CalculatedError();
      case Ok(NaN) => CalculatedError();
      case Ok(Fin(x)) => CalculatedRender(x);
    }
  }

  /** `calculate` keeps the invariant too. */
  lemma CalculatedWellTyped(v: string)
    requires WellTyped(v)
    ensures WellTyped(Calculated(v))
  {
    var e := Trim(v);
    if e != [] && EvaluateExpr(e).Ok? && EvaluateExpr(e).value.Fin? {
      RenderWellTyped(EvaluateExpr(e).value.x);
    }
  }

  /** The display field and its three handlers. */
  class Display {
    var value: string

    /** The keys keep the display well typed. */
    predicate Valid()
      reads this
    {
      WellTyped(value)
    }

    constructor()
      ensures value == "" && Valid()
    {
      value := "";
    }

    method AppendToDisplay(ch: char)
      modifies this
      ensures value == Appended(old(value), ch)
      ensures IsOpChar(ch) && old(value) != [] && !IsOpChar(old(value)[|old(value)| - 1]) ==> value == old(value) + [ch]
      ensures old(Valid()) ==> Valid()
    {
      ghost var before := value;
      if old(Valid()) {
        AppendKeepsWellTyped(before, ch);
      }
      var v := value;
      if IsOpChar(ch) {
        if v == "" {
          if ch == '-' {
            value := "-";
          }
          return;
        }
        if IsOpChar(v[|v| - 1]) {
          value := v[..|v| - 1] + [ch];
          return;
        }
      }
      if ch == '.' {
        var lastNumber := v[LastOpEnd(v)..];
        if '.' in lastNumber {
          return;
        }
        if lastNumber == "" {
          value := value + "0.";
          return;
        }
      }
      value := value + [ch];
    }

    method ClearDisplay()
      modifies this
      ensures value == "" && Valid()
    {
      value := "";
    }

    method Calculate()
      modifies this
      ensures value == Calculated(old(value))
      ensures old(Valid()) ==> Valid()
    {
      if Valid() {
        CalculatedWellTyped(value);
      }
      ghost var v := value;
      var expr := Trim(value);
      if expr == "" {
        return;
      }
      var rpn := ToRPN(expr);
      if rpn.Err? {
        assert EvaluateExpr(expr).Err?;
        value := ErrorText;
        return;
      }
      var result := EvalRPN(rpn.value);
      assert result == EvaluateExpr(expr);
      if result.Err? {
        assert Calculated(v) == ErrorText;
        value := ErrorText;
      } else if result.value.NaN? {
        assert Calculated(v) == ErrorText;
        value := ErrorText;
      } else {
        assert Calculated(v) == Render(result.value.x);
        value := Render(result.value.x);
      }
    }
  }
}
