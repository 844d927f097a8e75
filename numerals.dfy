/** Decimal numerals as the calculator reads and writes them: the literal pattern
    `\d+\.?\d*` used by every regular expression of the evaluator, its value as Python's
    `float()` reads it, and the text `str(float)` writes back into the expression buffer. */
module Numerals {
  import opened Text
  import opened Runtime

  predicate IsDigit(c: char) { '0' <= c <= '9' }

  function DigitValue(c: char): (d: nat)
    requires IsDigit(c)
    ensures d < 10
  {
    c as int - '0' as int
  }

  function DigitChar(d: nat): (c: char)
    requires d < 10
    ensures IsDigit(c) && DigitValue(c) == d
  {
    ('0' as int + d) as char
  }

  predicate AllDigits(s: string) { forall i | 0 <= i < |s| :: IsDigit(s[i]) }

  function Pow10(k: nat): (p: nat)
    ensures p > 0
  {
    if k == 0 then 1 else 10 * Pow10(k - 1)
  }

  /** The number a run of decimal digits denotes, most significant digit first. */
  function DigitsValue(s: string): nat
    requires AllDigits(s)
    decreases |s|
  {
    if s == [] then 0 else 10 * DigitsValue(s[..|s| - 1]) + DigitValue(s[|s| - 1])
  }

  /** `k` digits denote less than ten to the `k`. */
  lemma {:induction false} DigitsValueBound(s: string)
    requires AllDigits(s)
    ensures DigitsValue(s) < Pow10(|s|)
    decreases |s|
  {
    if s != [] {
      DigitsValueBound(s[..|s| - 1]);
    }
  }

  /** `str(n)` for a natural number: its digits without leading zeros. */
  function NatDigits(n: nat): (s: string)
    ensures AllDigits(s) && 0 < |s|
    decreases n
  {
    if n < 10 then [DigitChar(n)] else NatDigits(n / 10) + [DigitChar(n % 10)]
  }

  /** `int(str(n)) == n` */
  lemma {:induction false} NatDigitsValue(n: nat)
    ensures DigitsValue(NatDigits(n)) == n
    decreases n
  {
    if n >= 10 {
      NatDigitsValue(n / 10);
      AppendDigit(NatDigits(n / 10), DigitChar(n % 10));
    }
  }

  lemma {:induction false} NatDigitsLength(n: nat, k: nat)
    requires 0 < k && n < Pow10(k)
    ensures |NatDigits(n)| <= k
    decreases n
  {
    if n >= 10 {
      NatDigitsLength(n / 10, k - 1);
    }
  }

  /** The `w` lowest digits of `n`, with leading zeros: `"{:0{w}d}".format(n)`. */
  function PadDigits(n: nat, w: nat): (s: string)
    ensures AllDigits(s) && |s| == w
  {
    if w == 0 then [] else PadDigits(n / 10, w - 1) + [DigitChar(n % 10)]
  }

  lemma {:induction false} PadDigitsValue(n: nat, w: nat)
    requires n < Pow10(w)
    ensures DigitsValue(PadDigits(n, w)) == n
  {
    if w > 0 {
      PadDigitsValue(n / 10, w - 1);
      AppendDigit(PadDigits(n / 10, w - 1), DigitChar(n % 10));
    }
  }

  predicate AllZeros(s: string) { forall i | 0 <= i < |s| :: s[i] == '0' }

  lemma {:induction false} PadZero(w: nat)
    ensures AllZeros(PadDigits(0, w))
  {
    if w > 0 {
      PadZero(w - 1);
    }
  }

  lemma {:induction false} Pow10Add(a: nat, b: nat)
    ensures Pow10(a + b) == Pow10(a) * Pow10(b)
  {
    if b > 0 {
      Pow10Add(a, b - 1);
      calc {
        Pow10(a + b);
        10 * Pow10(a + b - 1);
        10 * (Pow10(a) * Pow10(b - 1));
        Pow10(a) * (10 * Pow10(b - 1));
      }
    }
  }

  lemma AppendDigit(s: string, c: char)
    requires AllDigits(s) && IsDigit(c)
    ensures AllDigits(s + [c])
    ensures DigitsValue(s + [c]) == 10 * DigitsValue(s) + DigitValue(c)
  {
    assert (s + [c])[..|s|] == s;
  }

  lemma TenTimes(v: int, p: int)
    ensures 10 * (v * p) == v * (10 * p)
  {
  }

  /** Appending zeros multiplies a digit string's value by a power of ten. */
  lemma {:induction false} AppendZeros(t: string, z: string)
    requires AllDigits(t) && AllZeros(z)
    ensures AllDigits(t + z)
    ensures DigitsValue(t + z) == DigitsValue(t) * Pow10(|z|)
    decreases |z|
  {
    if z == [] {
      assert t + z == t;
    } else {
      var y := z[..|z| - 1];
      AppendZeros(t, y);
      assert t + z == (t + y) + ['0'];
      AppendDigit(t + y, '0');
      var v, p := DigitsValue(t), Pow10(|y|);
      assert Pow10(|z|) == 10 * p;
      assert DigitsValue(t + z) == 10 * (v * p);
      TenTimes(v, p);
    }
  }

  /** The length of the run of digits at the start of `s`. */
  function DigitRun(s: string): (n: nat)
    ensures n <= |s| && AllDigits(s[..n])
    ensures n < |s| ==> !IsDigit(s[n])
  {
    if s != [] && IsDigit(s[0]) then
      var n := 1 + DigitRun(s[1..]);
      assert s[..n] == [s[0]] + s[1..][..n - 1];
      n
    else 0
  }

  lemma {:induction false} DigitRunOf(d: string, rest: string)
    requires AllDigits(d)
    requires rest == [] || !IsDigit(rest[0])
    ensures DigitRun(d + rest) == |d|
    decreases |d|
  {
    if d == [] {
      assert d + rest == rest;
    } else {
      assert (d + rest)[1..] == d[1..] + rest;
      DigitRunOf(d[1..], rest);
    }
  }

  /** The length of the longest match of `\d+\.?\d*` at the start of `s`; 0 when there is
      none. The regular expression has a single way to match each prefix, so the greedy
      match is the longest one. */
  function LiteralLen(s: string): (n: nat)
    ensures n <= |s|
    ensures n > 0 <==> s != [] && IsDigit(s[0])
  {
    var d := DigitRun(s);
    if d == 0 then 0
    else if d < |s| && s[d] == '.' then d + 1 + DigitRun(s[d + 1..])
    else d
  }

  /** The value of the decimal literal `whole.frac`. */
  function DecimalValue(whole: string, frac: string): (v: real)
    requires AllDigits(whole) && AllDigits(frac)
    ensures DigitsValue(whole) as real <= v < DigitsValue(whole) as real + 1.0
  {
    DigitsValueBound(frac);
    var p := Pow10(|frac|) as real;
    var n := DigitsValue(frac) as real;
    RatioBelowOne(n, p);
    DigitsValue(whole) as real + n / p
  }

  /** `float(t)` of the literal at the start of `s`. */
  function LiteralValue(s: string): (v: real)
    requires LiteralLen(s) > 0
    ensures v >= 0.0
  {
    var d := DigitRun(s);
    if d < |s| && s[d] == '.' then
      DecimalValue(s[..d], s[d + 1..][..DigitRun(s[d + 1..])])
    else DigitsValue(s[..d]) as real
  }

  /** A whole literal `d` followed by text that cannot extend it. */
  lemma WholeLiteral(d: string, rest: string)
    requires AllDigits(d) && d != []
    requires rest == [] || (!IsDigit(rest[0]) && rest[0] != '.')
    ensures LiteralLen(d + rest) == |d|
    ensures LiteralValue(d + rest) == DigitsValue(d) as real
  {
    DigitRunOf(d, rest);
    assert (d + rest)[..|d|] == d;
  }

  /** A literal `d.f` followed by text that cannot extend it. */
  lemma FractionLiteral(d: string, f: string, rest: string)
    requires AllDigits(d) && d != [] && AllDigits(f)
    requires rest == [] || !IsDigit(rest[0])
    ensures LiteralLen(d + "." + f + rest) == |d| + 1 + |f|
    ensures LiteralValue(d + "." + f + rest) == DecimalValue(d, f)
  {
    var s := d + "." + f + rest;
    var tail := "." + f + rest;
    assert s == d + tail;
    DigitRunOf(d, tail);
    assert s[..|d|] == d;
    assert s[|d|] == '.';
    var u := s[|d| + 1..];
    assert u == f + rest;
    DigitRunOf(f, rest);
    assert u[..|f|] == f;
  }

  /** The number of decimals `str(float)` keeps in this model, and ten to that power. */
  const Decimals: nat := 16
  const Scale: nat := 10000000000000000

  lemma ScaleIsPow10()
    ensures Pow10(Decimals) == Scale
  {
    calc {
      Pow10(16);
      100 * Pow10(14);
      10000 * Pow10(12);
      1000000 * Pow10(10);
      100000000 * Pow10(8);
      10000000000 * Pow10(6);
      1000000000000 * Pow10(4);
      100000000000000 * Pow10(2);
    }
  }

  /** `a` truncated toward zero to `Decimals` decimal places. */
  function Truncated(a: real): (t: real)
    requires a >= 0.0
    ensures 0.0 <= t <= a
  {
    (a * Scale as real).Floor as real / Scale as real
  }

  /** The digits after the point for a fraction of `r / 10^w`: its `w` digits with
      trailing zeros removed, but never fewer than one digit (Python writes `9.0`, not
      `9.`). */
  function FractionText(r: nat, w: nat): (f: string)
    ensures AllDigits(f) && f != []
  {
    var g := PadDigits(r, w);
    var t := RStrip(g, '0');
    assert AllDigits(t) by {
      forall i | 0 <= i < |t| ensures IsDigit(t[i]) {
        assert t[i] == g[i];
      }
    }
    if t == [] then "0" else t
  }

  function FractionDigits(r: nat): (f: string)
    ensures AllDigits(f) && f != []
  {
    FractionText(r, Decimals)
  }

  /** Positional text of a non-negative number. */
  function Positional(a: real): (s: string)
    requires a >= 0.0
  {
    var n := (a * Scale as real).Floor as nat;
    NatDigits(n / Scale) + "." + FractionDigits(n % Scale)
  }

  /** `str(x)` for a float: an optional `-` and a positional literal. */
  function Str(x: real): string
  {
    if x < 0.0 then "-" + Positional(-x) else Positional(x)
  }

  lemma RatioBelowOne(n: real, p: real)
    requires 0.0 <= n < p
    ensures 0.0 <= n / p < 1.0
  {
    assert n / p * p == n;
  }

  lemma ScaledRatio(v: nat, pt: nat, pz: nat)
    requires pt > 0 && pz > 0
    ensures (v * pz) as real / (pt * pz) as real == v as real / pt as real
  {
    assert (v * pz) as real == v as real * pz as real;
    assert (pt * pz) as real == pt as real * pz as real;
  }

  /** Stripping trailing zeros divides a digit string's value by a power of ten. */
  lemma StripZeros(g: string)
    requires AllDigits(g)
    ensures AllDigits(RStrip(g, '0'))
    ensures DigitsValue(g) == DigitsValue(RStrip(g, '0')) * Pow10(|g| - |RStrip(g, '0')|)
  {
    var t := RStrip(g, '0');
    var z := g[|t|..];
    assert g == t + z;
    assert AllDigits(t) by {
      forall i | 0 <= i < |t| ensures IsDigit(t[i]) {
        assert t[i] == g[i];
      }
    }
    AppendZeros(t, z);
  }

  lemma {:induction false} FractionTextValue(r: nat, w: nat)
    requires r < Pow10(w)
    ensures DecimalValue("0", FractionText(r, w)) == r as real / Pow10(w) as real
  {
    var g := PadDigits(r, w);
    var t := RStrip(g, '0');
    PadDigitsValue(r, w);
    StripZeros(g);
    Pow10Add(|t|, w - |t|);
    assert DigitsValue("0") == 0;
    if t == [] {
      assert r == 0;
    } else {
      assert FractionText(r, w) == t;
      ScaledRatio(DigitsValue(t), Pow10(|t|), Pow10(w - |t|));
    }
  }

  lemma FractionValue(r: nat)
    requires r < Scale
    ensures DecimalValue("0", FractionDigits(r)) == r as real / Scale as real
  {
    ScaleIsPow10();
    FractionTextValue(r, Decimals);
  }

  lemma SplitScaled(n: nat)
    ensures (n / Scale) as real + (n % Scale) as real / Scale as real == n as real / Scale as real
  {
    assert n == n / Scale * Scale + n % Scale;
  }

  /** The positional text of `a` is one literal, read back as `a` truncated. */
  lemma PositionalRoundTrip(a: real)
    requires a >= 0.0
    ensures LiteralLen(Positional(a)) == |Positional(a)| > 0
    ensures LiteralValue(Positional(a)) == Truncated(a)
  {
    var n := (a * Scale as real).Floor as nat;
    var i, f := NatDigits(n / Scale), FractionDigits(n % Scale);
    PositionalOf(a, n);
    NatDigitsValue(n / Scale);
    assert Positional(a) == i + "." + f + "";
    FractionLiteral(i, f, "");
    FractionValue(n % Scale);
    assert DecimalValue(i, f) == (n / Scale) as real + DecimalValue("0", f);
    SplitScaled(n);
  }

  /** What `float()` reads back from `str(x)`: the text after an optional `-` is one
      literal whose value is `|x|` truncated to `Decimals` decimals, and the `-` is there
      exactly when x < 0. */
  lemma StrRoundTrip(x: real)
    ensures var s := Str(x);
      var body := if x < 0.0 then s[1..] else s;
      && (x < 0.0 <==> (s != [] && s[0] == '-'))
      && LiteralLen(body) == |body| > 0
      && LiteralValue(body) == Truncated(Abs(x))
  {
    PositionalRoundTrip(Abs(x));
    if x < 0.0 {
      assert Str(x)[1..] == Positional(-x);
    } else {
      assert Positional(x)[0] != '-';
    }
  }

  /** A number with at most `Decimals` decimals is read back exactly. */
  lemma ExactTruncation(a: real)
    requires a >= 0.0
    requires (a * Scale as real).Floor as real == a * Scale as real
    ensures Truncated(a) == a
  {
  }

  lemma {:induction false} StripPadZero(w: nat)
    ensures RStrip(PadDigits(0, w), '0') == []
  {
    PadZero(w);
  }

  lemma FractionOfZero(r: nat)
    requires r == 0
    ensures FractionDigits(r) == "0"
  {
    ScaleIsPow10();
    StripPadZero(Decimals);
  }

  lemma PositionalOf(a: real, n: nat)
    requires a >= 0.0 && (a * Scale as real).Floor == n
    ensures Positional(a) == NatDigits(n / Scale) + "." + FractionDigits(n % Scale)
  {
  }

  lemma WholeScaled(n: nat)
    ensures (n as real * Scale as real).Floor == n * Scale
    ensures (n * Scale) / Scale == n && (n * Scale) % Scale == 0
  {
    assert n as real * Scale as real == (n * Scale) as real;
  }

  /** `str(float(n))` for a whole number is its digits followed by `.0`. */
  lemma StrWhole(n: nat)
    ensures Str(n as real) == NatDigits(n) + "." + "0"
  {
    var a := n as real;
    assert Str(a) == Positional(a);
    WholeScaled(n);
    PositionalOf(a, n * Scale);
    FractionOfZero((n * Scale) % Scale);
  }
}
