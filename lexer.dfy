// The tokenizer of index.js: the global match of the pattern
// `(\d+\.\d+|\d+|\.\d+|[+\-*/])` written out as a scanner, and the
// decimal value `parseFloat` gives to a number token.
module Lexer {
  import opened Wrappers

  predicate IsDigit(c: char) {
    '0' <= c <= '9'
  }

  predicate IsOpChar(c: char) {
    c == '+' || c == '-' || c == '*' || c == '/'
  }

  predicate AllDigits(s: string) {
    forall i :: 0 <= i < |s| ==> IsDigit(s[i])
  }

  /** Length of the maximal run of digits at the front of `s` (a greedy `\d+`). */
  function DigitRun(s: string): (n: nat)
    ensures n <= |s| && AllDigits(s[..n])
    ensures n < |s| ==> !IsDigit(s[n])
  {
    if s != [] && IsDigit(s[0]) then
      var m := DigitRun(s[1..]);
      assert s[..1 + m] == [s[0]] + s[1..][..m];
      1 + m
    else 0
  }

  /** The number test `^\d+(\.\d+)?$|^\.\d+$` applied to one token. */
  predicate IsNumberLexeme(t: string) {
    var d := DigitRun(t);
    (0 < d == |t|) || (d + 1 < |t| && t[d] == '.' && AllDigits(t[d + 1..]))
  }

  // The operator test `"+-*/".includes(t)` on a one-character token.
  predicate IsOpLexeme(t: string) {
    |t| == 1 && IsOpChar(t[0])
  }

  predicate IsLexeme(t: string) {
    IsNumberLexeme(t) || IsOpLexeme(t)
  }

  /** The operator test accepts exactly the four one-character operators. */
  lemma OpLexemes(t: string)
    ensures IsOpLexeme(t) <==> t == "+" || t == "-" || t == "*" || t == "/"
  {
    if |t| == 1 {
      assert t == [t[0]];
    }
  }

  /** Some alternative of the pattern matches at the front of `s`. */
  predicate StartsMatch(s: string) {
    s != [] && (IsDigit(s[0]) || IsOpChar(s[0]) || (s[0] == '.' && 1 < |s| && IsDigit(s[1])))
  }

  lemma DigitRunOfPrefix(s: string, n: nat)
    requires n <= |s|
    ensures DigitRun(s[..n]) == if n <= DigitRun(s) then n else DigitRun(s)
    decreases n
  {
    if 0 < n && IsDigit(s[0]) {
      assert s[..n][1..] == s[1..][..n - 1];
      DigitRunOfPrefix(s[1..], n - 1);
    }
  }

  /** The first alternative `\d+\.\d+`: digits, a point and the digits after it. */
  lemma FractionMatch(s: string, d: nat, f: nat, n: nat)
    requires d == DigitRun(s) && 0 < d && d + 1 < |s| && s[d] == '.' && IsDigit(s[d + 1])
    requires f == DigitRun(s[d + 1..]) && n == d + 1 + f
    ensures d + 1 < n <= |s| && IsNumberLexeme(s[..n]) && (n < |s| ==> !IsDigit(s[n]))
  {
    var t := s[..n];
    assert s[d + 1..][0] == s[d + 1];
    assert f >= 1;
    DigitRunOfPrefix(s, n);
    assert DigitRun(t) == d;
    assert t[d] == s[d];
    assert t[d + 1..] == s[d + 1..][..f];
    assert AllDigits(t[d + 1..]);
    assert IsNumberLexeme(t);
    assert n < |s| ==> s[n] == s[d + 1..][f];
  }

  lemma PointIn(s: string, i: nat, n: nat)
    requires i < n <= |s| && s[i] == '.'
    ensures '.' in s[..n]
  {
    assert s[..n][i] == '.';
  }

  /** The third alternative `\.\d+`: a point and the digits after it. */
  lemma PointMatch(s: string, f: nat)
    requires 1 < |s| && s[0] == '.' && IsDigit(s[1]) && f == DigitRun(s[1..])
    ensures 1 < 1 + f <= |s| && IsNumberLexeme(s[..1 + f]) && (1 + f < |s| ==> !IsDigit(s[1 + f]))
  {
    assert s[1..][0] == s[1];
    DigitRunOfPrefix(s, 1 + f);
    assert s[..1 + f][1..] == s[1..][..f];
    assert 1 + f < |s| ==> s[1 + f] == s[1..][f];
  }

  /**
   * Length of the match at the front of `s`, trying the four alternatives
   * in the order the pattern lists them; 0 when none matches.
   */
  function MatchLength(s: string): (n: nat)
    ensures n <= |s|
    ensures n == 0 <==> !StartsMatch(s)
    ensures n > 0 ==> IsLexeme(s[..n])
    ensures n > 0 && IsNumberLexeme(s[..n]) && n < |s| ==> !IsDigit(s[n])
    ensures n > 0 && IsNumberLexeme(s[..n]) && n + 1 < |s| && s[n] == '.' && IsDigit(s[n + 1]) ==> '.' in s[..n]
  {
    var d := DigitRun(s);
    if 0 < d && d + 1 < |s| && s[d] == '.' && IsDigit(s[d + 1]) then
      // \d+\.\d+
      var f := DigitRun(s[d + 1..]);
      FractionMatch(s, d, f, d + 1 + f);
      PointIn(s, d, d + 1 + f);
      d + 1 + f
    else if 0 < d then
      // \d+
      DigitRunOfPrefix(s, d);
      d
    else if 1 < |s| && s[0] == '.' && IsDigit(s[1]) then
      // \.\d+
      var f := DigitRun(s[1..]);
      PointMatch(s, f);
      PointIn(s, 0, 1 + f);
      1 + f
    else if 0 < |s| && IsOpChar(s[0]) then
      // [+\-*/]
      1
    else
      0
  }

  /**
   * The alternatives are tried in order, so `\d+\.\d+` wins over `\d+`: a
   * digit run followed by a point and a digit is matched with its fraction.
   */
  lemma FractionWins(s: string)
    requires 0 < DigitRun(s) && DigitRun(s) + 1 < |s|
    requires s[DigitRun(s)] == '.' && IsDigit(s[DigitRun(s) + 1])
    ensures MatchLength(s) > DigitRun(s) + 1
    ensures '.' in s[..MatchLength(s)]
  {
  }

  /**
   * The tokens of a global match: at each position the first alternative
   * that matches is taken and scanning resumes after it; a character where
   * none matches is skipped.
   */
  function Scan(s: string): (ts: seq<string>)
    ensures forall i :: 0 <= i < |ts| ==> IsLexeme(ts[i])
    ensures ts == [] <==> forall i :: 0 <= i < |s| ==> !IsDigit(s[i]) && !IsOpChar(s[i])
    decreases |s|
  {
    if s == [] then []
    else
      var n := MatchLength(s);
      if n == 0 then
        var rest := Scan(s[1..]);
        assert forall i :: 1 <= i < |s| ==> s[i] == s[1..][i - 1];
        rest
      else
        [s[..n]] + Scan(s[n..])
  }

  /** `expr.match(...)`: `None` stands for the `null` it returns when nothing matches. */
  function Tokenize(expr: string): (r: Option<seq<string>>)
    ensures r.None? <==> forall i :: 0 <= i < |expr| ==> !IsDigit(expr[i]) && !IsOpChar(expr[i])
    ensures r.Some? ==> r.value != [] && forall i :: 0 <= i < |r.value| ==> IsLexeme(r.value[i])
  {
    var ts := Scan(expr);
    if ts == [] then None else Some(ts)
  }

  /** Value of a run of decimal digits. */
  function DigitsValue(s: string): nat
    requires AllDigits(s)
  {
    if s == [] then 0 else DigitsValue(s[..|s| - 1]) * 10 + (s[|s| - 1] as int - '0' as int)
  }

  function Pow10(n: nat): (p: nat)
    ensures p > 0
  {
    if n == 0 then 1 else 10 * Pow10(n - 1)
  }

  /** The value of the digits after a decimal point. */
  function FractionValue(f: string): real
    requires AllDigits(f)
  {
    DigitsValue(f) as real / Pow10(|f|) as real
  }

  /** The exact decimal value `parseFloat` reads from a number token. */
  function LexemeValue(t: string): (v: real)
    requires IsNumberLexeme(t)
    ensures v >= 0.0
    ensures DigitRun(t) == |t| ==> v == v.Floor as real
  {
    var d := DigitRun(t);
    if d == |t| then DigitsValue(t) as real
    else DigitsValue(t[..d]) as real + FractionValue(t[d + 1..])
  }

  lemma AllDigitsRun(s: string)
    requires AllDigits(s)
    ensures DigitRun(s) == |s|
    decreases |s|
  {
    if s != [] {
      AllDigitsRun(s[1..]);
    }
  }

  lemma DigitRunConcat(a: string, r: string)
    requires r == [] || !IsDigit(r[0])
    ensures DigitRun(a + r) == DigitRun(a)
    decreases |a|
  {
    if a != [] {
      assert (a + r)[1..] == a[1..] + r;
      DigitRunConcat(a[1..], r);
    }
  }

  /** A character that can neither extend nor start a number: an operator or a separator. */
  predicate IsBoundary(c: char) {
    !IsDigit(c) && c != '.'
  }

  /** A boundary after a non-empty string does not change the match at its front. */
  lemma MatchLengthBeforeBoundary(a: string, c: char, b: string)
    requires a != [] && IsBoundary(c)
    ensures MatchLength(a + [c] + b) == MatchLength(a)
  {
    var s := a + [c] + b;
    assert s == a + ([c] + b);
    DigitRunConcat(a, [c] + b);
    var d := DigitRun(a);
    assert s[0] == a[0];
    if 0 < d && d + 1 < |a| && a[d] == '.' && IsDigit(a[d + 1]) {
      assert s[d] == a[d] && s[d + 1] == a[d + 1];
      assert s[d + 1..] == a[d + 1..] + ([c] + b);
      DigitRunConcat(a[d + 1..], [c] + b);
    } else if 0 < d {
      assert d == |a| ==> s[d] == c;
      assert d < |a| ==> s[d] == a[d];
      assert d + 1 == |a| ==> s[d + 1] == c;
      assert d + 1 < |a| ==> s[d + 1] == a[d + 1];
    } else if 1 < |a| && a[0] == '.' && IsDigit(a[1]) {
      assert s[1] == a[1];
      assert s[1..] == a[1..] + ([c] + b);
      DigitRunConcat(a[1..], [c] + b);
    } else {
      assert |a| == 1 ==> s[1] == c;
      assert 1 < |a| ==> s[1] == a[1];
    }
  }

  /**
   * Nothing on one side of a boundary joins a token on the other: the text
   * before it scans on its own.
   */
  lemma {:induction false} ScanBoundary(a: string, c: char, b: string)
    requires IsBoundary(c)
    ensures Scan(a + [c] + b) == Scan(a) + Scan([c] + b)
    decreases |a|, 1
  {
    if a == [] {
      assert a + [c] + b == [c] + b;
    } else if MatchLength(a) == 0 {
      ScanBoundarySkip(a, c, b);
    } else {
      ScanBoundaryToken(a, c, b);
    }
  }

  /** `ScanBoundary` when the first character of `a` starts no token. */
  lemma {:induction false} ScanBoundarySkip(a: string, c: char, b: string)
    requires IsBoundary(c) && a != [] && MatchLength(a) == 0
    ensures Scan(a + [c] + b) == Scan(a) + Scan([c] + b)
    decreases |a|, 0
  {
    var s := a + [c] + b;
    MatchLengthBeforeBoundary(a, c, b);
    assert s[1..] == a[1..] + [c] + b;
    ScanBoundary(a[1..], c, b);
  }

  /** `ScanBoundary` when a token starts at the front of `a`: it lies inside `a`. */
  lemma {:induction false} ScanBoundaryToken(a: string, c: char, b: string)
    requires IsBoundary(c) && a != [] && MatchLength(a) > 0
    ensures Scan(a + [c] + b) == Scan(a) + Scan([c] + b)
    decreases |a|, 0
  {
    var s := a + [c] + b;
    var n := MatchLength(a);
    var t, rest := a[..n], a[n..];
    assert Scan(s) == [t] + Scan(rest + [c] + b) by {
      MatchLengthBeforeBoundary(a, c, b);
      assert s[..n] == t;
      assert s[n..] == rest + [c] + b;
      ScanToken(s);
    }
    assert Scan(a) == [t] + Scan(rest) by { ScanToken(a); }
    assert Scan(rest + [c] + b) == Scan(rest) + Scan([c] + b) by { ScanBoundary(rest, c, b); }
    AppendAssoc([t], Scan(rest), Scan([c] + b));
  }

  lemma AppendAssoc(x: seq<string>, y: seq<string>, z: seq<string>)
    ensures x + (y + z) == (x + y) + z
  {
  }

  /** Scanning a text that starts with a token: that token, then the scan of the rest. */
  lemma ScanToken(s: string)
    requires s != [] && MatchLength(s) > 0
    ensures Scan(s) == [s[..MatchLength(s)]] + Scan(s[MatchLength(s)..])
  {
  }

  /** A boundary character is a token of its own when it is an operator, and is skipped otherwise. */
  lemma ScanFromBoundary(c: char, b: string)
    requires IsBoundary(c)
    ensures Scan([c] + b) == (if IsOpChar(c) then [[c]] else []) + Scan(b)
  {
    var s := [c] + b;
    assert s[1..] == b;
    if IsOpChar(c) {
      assert MatchLength(s) == 1 && s[..1] == [c];
    }
  }

  /**
   * Separators split tokens and are dropped: `"2 + 3"` scans like `"2+3"`;
   * operators split tokens and are kept.
   */
  lemma ScanSplit(a: string, c: char, b: string)
    requires IsBoundary(c)
    ensures Scan(a + [c] + b) == Scan(a) + (if IsOpChar(c) then [[c]] else []) + Scan(b)
  {
    ScanBoundary(a, c, b);
    ScanFromBoundary(c, b);
  }

  /** A token on its own scans to itself. */
  lemma ScanLexeme(t: string)
    requires IsLexeme(t)
    ensures Scan(t) == [t]
  {
    var d := DigitRun(t);
    if IsNumberLexeme(t) && d < |t| {
      AllDigitsRun(t[d + 1..]);
      if d == 0 {
        assert t[1..] == t[d + 1..];
      }
    }
    assert MatchLength(t) == |t|;
    assert t[..|t|] == t && t[|t|..] == [];
  }

  /** The tokens written out with one space between each. */
  function Join(ts: seq<string>): string {
    if ts == [] then ""
    else if |ts| == 1 then ts[0]
    else ts[0] + " " + Join(ts[1..])
  }

  lemma ScanJoinStep(ts: seq<string>)
    requires |ts| > 1 && IsLexeme(ts[0])
    ensures Scan(Join(ts)) == [ts[0]] + Scan(Join(ts[1..]))
  {
    var rest := Join(ts[1..]);
    assert Join(ts) == ts[0] + [' '] + rest;
    ScanSplit(ts[0], ' ', rest);
    ScanLexeme(ts[0]);
  }

  /** Scanning inverts writing the tokens out with spaces between them. */
  lemma {:induction false} ScanJoin(ts: seq<string>)
    requires forall i :: 0 <= i < |ts| ==> IsLexeme(ts[i])
    ensures Scan(Join(ts)) == ts
  {
    if ts != [] {
      var rest := ts[1..];
      ConsSplit(ts);
      if rest == [] {
        assert Join(ts) == ts[0];
        ScanLexeme(ts[0]);
      } else {
        assert forall i :: 0 <= i < |rest| ==> rest[i] == ts[i + 1];
        ScanJoinStep(ts);
        ScanJoin(rest);
      }
    }
  }

  lemma ConsSplit(ts: seq<string>)
    requires ts != []
    ensures ts == [ts[0]] + ts[1..]
  {
  }
}
