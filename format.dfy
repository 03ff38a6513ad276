// How `calculate` in index.js writes a result on the display: an integer as
// its decimal text, any other value as `String(Number(result.toFixed(12)))`,
// that is rounded to 12 decimal places (halves away from zero) with the
// trailing zeros of the fraction dropped. Values are exact reals.
module Format {
  import opened Lexer

  /** The number of decimal places `toFixed` is asked for. */
  const Places: nat := 12

  /** 10 to the power `Places`. */
  const Scale: nat := 1_000_000_000_000

  lemma ScaleIsPow10()
    ensures Pow10(Places) == Scale
  {
  }

  predicate IsInteger(x: real) {
    x == x.Floor as real
  }

  function Magnitude(x: real): (m: real)
    ensures m >= 0.0 && (m == x || m == -x)
  {
    if x < 0.0 then -x else x
  }

  function DigitChar(d: nat): (c: char)
    requires d < 10
    ensures IsDigit(c) && c as int - '0' as int == d
  {
    ('0' as int + d) as char
  }

  /** The decimal text of `n`, without leading zeros. */
  function NatText(n: nat): (t: string)
    ensures t != [] && AllDigits(t) && DigitsValue(t) == n
    ensures |t| == 1 || t[0] != '0'
    ensures t[0] == '0' <==> n == 0
  {
    if n < 10 then
      var t := [DigitChar(n)];
      assert t[..0] == [];
      t
    else
      var h := NatText(n / 10);
      var t := h + [DigitChar(n % 10)];
      assert t[..|t| - 1] == h;
      t
  }

  /** The decimal text of an integer, with a leading `-` when it is negative. */
  function IntText(i: int): string {
    if i < 0 then "-" + NatText(-i) else NatText(i)
  }

  lemma MulLe(a: int, b: int, m: int)
    requires a <= b && m >= 0
    ensures a * m <= b * m
  {
    var k := b - a;
    assert b * m == a * m + k * m;
  }

  /** Quotient and remainder are the only such pair. */
  lemma ModUnique(n: int, m: int, q: int, b: int)
    requires m > 0 && n == q * m + b && 0 <= b < m
    ensures n / m == q && n % m == b
  {
    var q', b' := n / m, n % m;
    assert n == q' * m + b';
    if q' < q {
      assert (q' + 1) * m == q' * m + m;
      MulLe(q' + 1, q, m);
    } else if q < q' {
      assert (q + 1) * m == q * m + m;
      MulLe(q + 1, q', m);
    }
  }

  lemma DigitsStep(n: nat, w: nat)
    requires w > 0
    ensures (n / 10) % Pow10(w - 1) * 10 + n % 10 == n % Pow10(w)
  {
    var p := Pow10(w - 1);
    var q := (n / 10) / p;
    var r := (n / 10) % p;
    assert n == 10 * (n / 10) + n % 10;
    assert n / 10 == q * p + r;
    assert n == q * (10 * p) + (10 * r + n % 10);
    ModUnique(n, 10 * p, q, 10 * r + n % 10);
  }

  /** The last `w` decimal digits of `n`, zero-padded on the left as `toFixed` writes a fraction. */
  function Digits(n: nat, w: nat): (t: string)
    ensures |t| == w && AllDigits(t) && DigitsValue(t) == n % Pow10(w)
  {
    if w == 0 then []
    else
      var h := Digits(n / 10, w - 1);
      var t := h + [DigitChar(n % 10)];
      assert t[..|t| - 1] == h;
      DigitsStep(n, w);
      t
  }

  /** Drops the trailing zeros of a fraction. */
  function StripZeros(s: string): (t: string)
    requires AllDigits(s)
    ensures |t| <= |s| && t == s[..|t|] && AllDigits(t)
    ensures t == [] || t[|t| - 1] != '0'
  {
    if s != [] && s[|s| - 1] == '0' then StripZeros(s[..|s| - 1]) else s
  }

  lemma RealCancel(a: real, b: real, k: real)
    requires b > 0.0 && k > 0.0
    ensures (a * k) / (k * b) == a / b
  {
  }

  /** Dropping trailing zeros does not change the value of a fraction. */
  lemma {:induction false} StripZerosValue(s: string)
    requires AllDigits(s)
    ensures FractionValue(StripZeros(s)) == FractionValue(s)
    decreases |s|
  {
    if s != [] && s[|s| - 1] == '0' {
      var h := s[..|s| - 1];
      StripZerosValue(h);
      assert DigitsValue(s) == DigitsValue(h) * 10;
      assert Pow10(|s|) == 10 * Pow10(|h|);
      RealCancel(DigitsValue(h) as real, Pow10(|h|) as real, 10.0);
    }
  }

  /**
   * The `n` that `toFixed` picks for a magnitude `m` already scaled: the
   * integer nearest to `m`, the larger one on a tie.
   */
  function RoundHalfUp(m: real): (n: nat)
    requires m >= 0.0
    ensures n as real - 0.5 <= m < n as real + 0.5
  {
    (m + 0.5).Floor
  }

  /** The scaled, rounded magnitude of a non-integer result. */
  function Rounded(x: real): nat {
    RoundHalfUp(Magnitude(x) * Scale as real)
  }

  /** `n / Scale` written with at most `Places` decimals and no trailing zeros. */
  function FixedText(n: nat): string {
    NatText(n / Scale) + (if n % Scale == 0 then "" else "." + StripZeros(Digits(n % Scale, Places)))
  }

  /** The text `calculate` puts on the display for a finite result `x`. */
  function Render(x: real): (r: string)
    ensures r != [] && (r[0] == '-' ==> x < 0.0) && (r[0] != '-' ==> IsDigit(r[0]))
  {
    if IsInteger(x) then IntText(x.Floor)
    else
      var n := Rounded(x);
      if n == 0 then "0"
      else (if x < 0.0 then "-" else "") + FixedText(n)
  }

  /** The number the rendered text stands for. */
  function Shown(x: real): (r: real)
    ensures IsInteger(x) ==> r == x
    ensures r == 0.0 || (r < 0.0 <==> x < 0.0)
  {
    if IsInteger(x) then x
    else if x < 0.0 then -(Rounded(x) as real / Scale as real)
    else Rounded(x) as real / Scale as real
  }

  /** An integer result is shown exactly; any other is off by at most half of the last place. */
  lemma ShownBound(x: real)
    ensures IsInteger(x) ==> Shown(x) == x
    ensures -0.5 / Scale as real <= Shown(x) - x <= 0.5 / Scale as real
  {
    if !IsInteger(x) {
      var n := Rounded(x) as real;
      var m := Magnitude(x);
      var s := Scale as real;
      assert n - 0.5 <= m * s < n + 0.5;
      assert n / s - 0.5 / s <= m < n / s + 0.5 / s;
    }
  }

  lemma DivParts(q: int, r: int, d: int)
    requires d > 0 && 0 <= r < d
    ensures (q * d + r) as real == q as real * d as real + r as real
    ensures (q as real * d as real + r as real) / d as real == q as real + r as real / d as real
    ensures 0.0 <= r as real / d as real < 1.0
  {
  }

  lemma FloorOf(q: int, f: real)
    requires 0.0 <= f < 1.0
    ensures (q as real + f).Floor == q
  {
  }

  /** The real quotient splits into the integer quotient and a fraction below one. */
  lemma DivReal(n: nat, d: nat)
    requires d > 0
    ensures n as real / d as real == (n / d) as real + (n % d) as real / d as real
    ensures 0.0 <= (n % d) as real / d as real < 1.0
    ensures (n as real / d as real).Floor == n / d
    ensures IsInteger(n as real / d as real) <==> n % d == 0
  {
    var q, r := n / d, n % d;
    assert n == q * d + r;
    DivParts(q, r, d);
    FloorOf(q, r as real / d as real);
  }

  /** A string of digits is a number token. */
  lemma DigitsAreNumber(t: string)
    requires t != [] && AllDigits(t)
    ensures IsNumberLexeme(t) && LexemeValue(t) == DigitsValue(t) as real
  {
    AllDigitsRun(t);
  }

  /** The twelve-digit fraction of `r` without its trailing zeros: not empty, same value. */
  lemma FractionDigits(r: nat)
    requires 0 < r < Scale
    ensures var f := StripZeros(Digits(r, Places));
      f != [] && FractionValue(f) == r as real / Scale as real
  {
    ScaleIsPow10();
    var full := Digits(r, Places);
    ModUnique(r, Scale, 0, r);
    assert DigitsValue(full) == r;
    var f := StripZeros(full);
    StripZerosValue(full);
    assert FractionValue(f) == r as real / Scale as real > 0.0;
    assert DigitsValue(f) > 0;
  }

  lemma DecimalRun(a: string, f: string)
    requires AllDigits(a)
    ensures DigitRun(a + "." + f) == |a|
  {
    assert a + "." + f == a + ("." + f);
    DigitRunConcat(a, "." + f);
    AllDigitsRun(a);
  }

  lemma DecimalParts(t: string, d: nat)
    requires IsNumberLexeme(t) && DigitRun(t) == d < |t|
    ensures LexemeValue(t) == DigitsValue(t[..d]) as real + FractionValue(t[d + 1..])
  {
  }

  /** Digits, a point and digits form a number token with the decimal value. */
  lemma DecimalNumber(a: string, f: string)
    requires a != [] && AllDigits(a) && f != [] && AllDigits(f)
    ensures IsNumberLexeme(a + "." + f)
    ensures LexemeValue(a + "." + f) == DigitsValue(a) as real + FractionValue(f)
  {
    var t := a + "." + f;
    DecimalRun(a, f);
    assert t[..|a|] == a && t[|a|] == '.' && t[|a| + 1..] == f;
    assert IsNumberLexeme(t);
    DecimalParts(t, |a|);
  }

  /** The whole part, a point and the stripped fraction digits of `r` form a number token. */
  lemma FractionText(q: nat, r: nat)
    requires 0 < r < Scale
    ensures var t := NatText(q) + "." + StripZeros(Digits(r, Places));
      IsNumberLexeme(t) && LexemeValue(t) == q as real + r as real / Scale as real
  {
    FractionDigits(r);
    DecimalNumber(NatText(q), StripZeros(Digits(r, Places)));
  }

  lemma FixedTextFraction(n: nat)
    requires n % Scale != 0
    ensures IsNumberLexeme(FixedText(n))
    ensures LexemeValue(FixedText(n)) == n as real / Scale as real
  {
    var q, r := n / Scale, n % Scale;
    FractionText(q, r);
    FixedTextShape(n);
    DivReal(n, Scale);
  }

  lemma FixedTextShape(n: nat)
    requires n % Scale != 0
    ensures FixedText(n) == NatText(n / Scale) + "." + StripZeros(Digits(n % Scale, Places))
  {
    assert "." + StripZeros(Digits(n % Scale, Places)) == ['.'] + StripZeros(Digits(n % Scale, Places));
  }

  /** `FixedText(n)` is a number token whose value is `n / Scale`. */
  lemma FixedTextNumber(n: nat)
    ensures IsNumberLexeme(FixedText(n))
    ensures LexemeValue(FixedText(n)) == n as real / Scale as real
  {
    if n % Scale == 0 {
      var a := NatText(n / Scale);
      assert FixedText(n) == a;
      DigitsAreNumber(a);
      DivReal(n, Scale);
    } else {
      FixedTextFraction(n);
    }
  }

  lemma IntegerParts(x: real)
    requires IsInteger(x)
    ensures var t := Render(x);
      if x < 0.0 then |t| > 1 && t[0] == '-' && IsNumberLexeme(t[1..]) && LexemeValue(t[1..]) == -x
      else IsNumberLexeme(t) && LexemeValue(t) == x
  {
    var t := Render(x);
    if x < 0.0 {
      assert t[1..] == NatText(-x.Floor);
      DigitsAreNumber(t[1..]);
    } else {
      DigitsAreNumber(t);
    }
  }

  lemma FractionParts(x: real)
    requires !IsInteger(x)
    ensures var t := Render(x);
      if Shown(x) < 0.0 then |t| > 1 && t[0] == '-' && IsNumberLexeme(t[1..]) && LexemeValue(t[1..]) == -Shown(x)
      else IsNumberLexeme(t) && LexemeValue(t) == Shown(x)
  {
    var t := Render(x);
    var n := Rounded(x);
    var u := n as real / Scale as real;
    if n == 0 {
      assert t == "0" && u == 0.0 && Shown(x) == 0.0;
      DigitsAreNumber(t);
    } else {
      assert u > 0.0;
      FixedTextNumber(n);
      if x < 0.0 {
        assert Shown(x) == -u;
        assert t[1..] == FixedText(n);
      } else {
        assert Shown(x) == u;
        assert t == FixedText(n);
      }
    }
  }

  /**
   * The rendered text is a number token, preceded by `-` exactly when the
   * shown value is negative, and the token's value is the shown magnitude.
   */
  lemma RenderParts(x: real)
    ensures var t := Render(x);
      if Shown(x) < 0.0 then |t| > 1 && t[0] == '-' && IsNumberLexeme(t[1..]) && LexemeValue(t[1..]) == -Shown(x)
      else IsNumberLexeme(t) && LexemeValue(t) == Shown(x)
  {
    if IsInteger(x) {
      IntegerParts(x);
    } else {
      FractionParts(x);
    }
  }

  /** A result rounded to an integer is shown as that integer, with its sign. */
  lemma RenderShownWhole(x: real)
    requires !IsInteger(x) && Rounded(x) % Scale == 0
    ensures Render(Shown(x)) == Render(x)
  {
    var n := Rounded(x);
    var q := n / Scale;
    DivReal(n, Scale);
    var y := Shown(x);
    assert n as real / Scale as real == q as real;
    if n == 0 {
      assert y == 0.0 && y.Floor == 0;
      assert Render(y) == NatText(0);
    } else if x < 0.0 {
      assert y == -(q as real) && y.Floor == -q && IsInteger(y);
      assert Render(y) == "-" + NatText(q);
      assert FixedText(n) == NatText(q);
    } else {
      assert y == q as real && y.Floor == q && IsInteger(y);
      assert FixedText(n) == NatText(q);
    }
  }

  /** A result with a fraction left after rounding rounds to the same digits again. */
  lemma RenderShownFraction(x: real)
    requires !IsInteger(x) && Rounded(x) % Scale != 0
    ensures Render(Shown(x)) == Render(x)
  {
    var n := Rounded(x);
    DivReal(n, Scale);
    var y := Shown(x);
    var u := n as real / Scale as real;
    assert !IsInteger(u);
    assert Magnitude(y) == u;
    assert u * Scale as real == n as real;
    assert Rounded(y) == n;
    assert !IsInteger(y) by {
      assert y.Floor as real != y || y == u;
    }
    assert (y < 0.0) == (x < 0.0);
  }

  /** Rendering the shown value again gives the same text. */
  lemma RenderShown(x: real)
    ensures Render(Shown(x)) == Render(x)
  {
    if !IsInteger(x) {
      if Rounded(x) % Scale == 0 {
        RenderShownWhole(x);
      } else {
        RenderShownFraction(x);
      }
    }
  }
}
