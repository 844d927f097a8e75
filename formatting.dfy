/** The result formatter at the end of `evaluate_expression`: scientific notation for very
    large or very small magnitudes, an integer for integral values, and otherwise eight
    decimals with trailing zeros and a trailing point stripped. */
module Formatting {
  import opened Runtime
  import opened Text
  import opened Numerals

  /** `abs(result) >= 1e8 or (0 < abs(result) < 1e-4 and result != 0)` */
  predicate IsScientific(x: real)
  {
    Abs(x) >= 100000000.0 || (0.0 < Abs(x) < 0.0001 && x != 0.0)
  }

  /** `float.is_integer` */
  predicate IsIntegral(x: real)
  {
    x == x.Floor as real
  }

  /** `str(int)`: an optional minus sign and the decimal digits of the magnitude. */
  function IntText(n: int): string
  {
    if n < 0 then "-" + NatDigits(-n) else NatDigits(n)
  }

  /** `formatted.rstrip('0').rstrip('.')`, with `"0"` when nothing is left. */
  function StripFixed(t: string): string
  {
    var u := RStrip(RStrip(t, '0'), '.');
    if u == [] then "0" else u
  }

  /** The formatted result of `evaluate_expression`. */
  function Format(lib: MathLib, x: real): string
  {
    if IsScientific(x) then lib.scientific(x)
    else if IsIntegral(x) then IntText(x.Floor)
    else StripFixed(lib.fixed(x))
  }

  /** The integer text reads back as the integer: a literal that covers the whole text, after
      a minus sign exactly when the integer is negative. */
  lemma IntTextRoundTrip(n: int)
    ensures var s := IntText(n);
      var digits := if n < 0 then s[1..] else s;
      (n < 0 <==> s[0] == '-') && AllDigits(digits) && '.' !in s
      && LiteralLen(digits) == |digits| > 0 && LiteralValue(digits) == Abs(n as real)
  {
    var m: nat := if n < 0 then -n else n;
    var d := NatDigits(m);
    WholeLiteral(d, []);
    assert d + [] == d;
    NatDigitsValue(m);
    assert d[0] != '-' && '.' !in d by {
      assert IsDigit(d[0]);
      forall i | 0 <= i < |d| ensures d[i] != '.' {
        assert IsDigit(d[i]);
      }
    }
    if n < 0 {
      assert IntText(n)[1..] == d;
    }
  }

  /** An integral result in the plain range prints without a decimal point and reads back as
      exactly that value. */
  lemma FormatIntegral(lib: MathLib, x: real)
    requires !IsScientific(x) && IsIntegral(x)
    ensures var s := Format(lib, x);
      var digits := if x < 0.0 then s[1..] else s;
      (x < 0.0 <==> s[0] == '-') && '.' !in s
      && LiteralLen(digits) == |digits| > 0 && LiteralValue(digits) == Abs(x)
  {
    IntTextRoundTrip(x.Floor);
  }

  /** The edges of the plain range: the largest eight-digit integer prints as its digits,
      `1e8` and `-1e8` in scientific notation, `1e-4` as a fraction and anything smaller
      but not zero in scientific notation; zero prints as `0`. */
  lemma FormatEdges(lib: MathLib, big: real, small: real)
    requires big == 100000000.0 && small == 0.0001
    ensures Format(lib, big - 1.0) == "99999999"
    ensures Format(lib, big) == lib.scientific(big) && Format(lib, -big) == lib.scientific(-big)
    ensures Format(lib, small) == StripFixed(lib.fixed(small))
    ensures Format(lib, small / 2.0) == lib.scientific(small / 2.0)
    ensures Format(lib, 0.0) == "0"
  {
    assert (big - 1.0).Floor == 99999999;
    assert small.Floor == 0 && (small / 2.0).Floor == 0;
    EightNines(99999999);
    assert NatDigits(0) == "0";
  }

  lemma EightNines(n: nat)
    requires n == 99999999
    ensures NatDigits(n) == "99999999"
  {
    assert NatDigits(9) == "9";
    assert NatDigits(99) == NatDigits(9) + "9";
    assert NatDigits(999) == NatDigits(99) + "9";
    assert NatDigits(9999) == NatDigits(999) + "9";
    assert NatDigits(99999) == NatDigits(9999) + "9";
    assert NatDigits(999999) == NatDigits(99999) + "9";
    assert NatDigits(9999999) == NatDigits(999999) + "9";
    assert NatDigits(n) == NatDigits(9999999) + "9";
  }

  /** Round to the nearest integer, ties to the even one, as `"{:.8f}"` rounds its last digit. */
  function RoundHalfEven(y: real): (n: int)
    ensures y - 0.5 <= n as real <= y + 0.5
    ensures (n as real == y + 0.5 || n as real == y - 0.5) ==> n % 2 == 0
  {
    var f := y.Floor;
    var d := y - f as real;
    if d < 0.5 then f
    else if d > 0.5 then f + 1
    else if f % 2 == 0 then f
    else f + 1
  }

  /** One unit of the eighth decimal place, inverted. */
  const Unit: nat := 100000000

  lemma UnitIsPow10()
    ensures Pow10(8) == Unit
  {
    calc {
      Pow10(8);
      10 * Pow10(7);
      100 * Pow10(6);
      1000 * Pow10(5);
      10000 * Pow10(4);
      100000 * Pow10(3);
      1000000 * Pow10(2);
      10000000 * Pow10(1);
      Unit;
    }
  }

  /** The magnitude `a` counted in units of the eighth decimal, rounded. */
  function Units(a: real): (n: nat)
    requires a >= 0.0
  {
    RoundHalfEven(a * Unit as real)
  }

  /** A reference rendering of `"{:.8f}".format(x)`: sign, whole part, point, eight digits
      of the magnitude rounded half-to-even at the eighth decimal. */
  function FixedText(x: real): string
  {
    var n := Units(Abs(x));
    var body := NatDigits(n / Unit) + "." + PadDigits(n % Unit, 8);
    if x < 0.0 then "-" + body else body
  }

  /** The rounded magnitude is within half a unit of the eighth decimal. */
  lemma UnitsClose(a: real)
    requires a >= 0.0
    ensures var v := Units(a) as real / Unit as real;
      a - 0.000000005 <= v <= a + 0.000000005
  {
    var n := Units(a) as real;
    var u := Unit as real;
    assert a * u - 0.5 <= n <= a * u + 0.5;
    assert (a * u - 0.5) / u == a - 0.000000005;
    assert (a * u + 0.5) / u == a + 0.000000005;
  }

  /** Stripping `c` from `p + g` strips `g` alone unless all of `g` goes. */
  lemma {:induction false} RStripAppend(p: string, g: string, c: char)
    ensures RStrip(g, c) != [] ==> RStrip(p + g, c) == p + RStrip(g, c)
    ensures RStrip(g, c) == [] ==> RStrip(p + g, c) == RStrip(p, c)
    decreases |g|
  {
    if g != [] {
      assert (p + g)[..|p + g| - 1] == p + g[..|g| - 1];
      if g[|g| - 1] == c {
        RStripAppend(p, g[..|g| - 1], c);
      }
    } else {
      assert p + g == p;
    }
  }

  /** The stripped rendering of a non-negative number, by the two cases of its digits
      after the point: it is `whole.digits` when some digit is not zero, else `whole`. */
  lemma StripBody(q: string, g: string)
    requires AllDigits(q) && q != [] && AllDigits(g)
    ensures var t := RStrip(g, '0');
      RStrip(RStrip(q + "." + g, '0'), '.') == if t == [] then q else q + "." + t
  {
    var t := RStrip(g, '0');
    var p := q + ".";
    RStripAppend(p, g, '0');
    assert RStrip(p, '0') == p;
    if t == [] {
      assert p[..|p| - 1] == q;
      assert RStrip(q, '.') == q by {
        assert IsDigit(q[|q| - 1]);
      }
    } else {
      assert IsDigit(t[|t| - 1]) by {
        assert t[|t| - 1] == g[|t| - 1];
      }
      assert RStrip(p + t, '.') == p + t;
      assert q + "." + t == p + t;
    }
  }

  /** The digits after the point, stripped, still denote the remainder over `10^w`. */
  lemma StrippedFraction(r: nat, w: nat)
    requires r < Pow10(w)
    ensures var t := RStrip(PadDigits(r, w), '0');
      AllDigits(t) && (t == [] <==> r == 0)
      && (t != [] ==> DecimalValue("0", t) == r as real / Pow10(w) as real)
  {
    var g := PadDigits(r, w);
    var t := RStrip(g, '0');
    StripZeros(g);
    PadDigitsValue(r, w);
    FractionTextValue(r, w);
    if t != [] {
      assert FractionText(r, w) == t;
      assert t[|t| - 1] != '0';
      DigitsNonZero(t);
    }
  }

  /** Digits ending in a non-zero digit have a non-zero value. */
  lemma DigitsNonZero(t: string)
    requires AllDigits(t) && t != [] && t[|t| - 1] != '0'
    ensures DigitsValue(t) > 0
  {
    assert DigitValue(t[|t| - 1]) > 0;
  }

  /** The fraction `r / Unit` added to the whole part `w`. */
  lemma JoinUnits(n: nat)
    ensures (n / Unit) as real + (n % Unit) as real / Unit as real == n as real / Unit as real
  {
    assert n == n / Unit * Unit + n % Unit;
  }

  /** The whole part `q` of `n` units, followed by the stripped digits `t` of its
      remainder, reads back as `n / Unit`. */
  lemma JoinedValue(n: nat, q: string, t: string)
    requires AllDigits(q) && q != [] && DigitsValue(q) == n / Unit
    requires AllDigits(t) && (t == [] <==> n % Unit == 0)
    requires t != [] ==> DecimalValue("0", t) == (n % Unit) as real / Unit as real
    ensures var s := if t == [] then q else q + "." + t;
      LiteralLen(s) == |s| > 0 && IsDigit(s[|s| - 1])
      && LiteralValue(s) == n as real / Unit as real
  {
    JoinUnits(n);
    if t == [] {
      JoinedWhole(q);
    } else {
      JoinedFraction(q, t);
    }
  }

  /** A whole number of units reads back from its whole part alone. */
  lemma JoinedWhole(q: string)
    requires AllDigits(q) && q != []
    ensures LiteralLen(q) == |q| > 0 && IsDigit(q[|q| - 1])
    ensures LiteralValue(q) == DigitsValue(q) as real
  {
    WholeLiteral(q, []);
    assert q + [] == q;
  }

  /** A whole part, a point and fraction digits read back as their decimal value. */
  lemma JoinedFraction(q: string, t: string)
    requires AllDigits(q) && q != [] && AllDigits(t) && t != []
    ensures var s := q + "." + t;
      LiteralLen(s) == |s| > 0 && IsDigit(s[|s| - 1])
      && LiteralValue(s) == DigitsValue(q) as real + DecimalValue("0", t)
  {
    FractionLiteral(q, t, []);
    assert q + "." + t + [] == q + "." + t;
    assert DigitsValue("0") == 0;
    assert (q + "." + t)[|q + "." + t| - 1] == t[|t| - 1];
  }

  /** The stripped reference rendering of a non-negative number is one literal with no
      trailing point, and it denotes the magnitude rounded to eight decimals. */
  lemma StripFixedValue(a: real)
    requires a >= 0.0
    ensures var u := RStrip(RStrip(FixedText(a), '0'), '.');
      u != [] && StripFixed(FixedText(a)) == u
      && LiteralLen(u) == |u| && IsDigit(u[0]) && u[|u| - 1] != '.'
      && LiteralValue(u) == Units(a) as real / Unit as real
  {
    var n := Units(a);
    var q := NatDigits(n / Unit);
    var g := PadDigits(n % Unit, 8);
    var t := RStrip(g, '0');
    assert FixedText(a) == q + "." + g;
    StripBody(q, g);
    UnitIsPow10();
    StrippedFraction(n % Unit, 8);
    NatDigitsValue(n / Unit);
    JoinedValue(n, q, t);
  }

  /** With the reference rendering, a result in the fixed range prints as one literal, after
      a minus sign exactly when it is negative, with no trailing point, and denotes the value
      rounded to eight decimals (within 5e-9 of it); the `"0"` fallback is never taken. */
  lemma FormatFixed(lib: MathLib, x: real)
    requires lib.fixed == FixedText
    requires !IsScientific(x) && !IsIntegral(x)
    ensures var s := Format(lib, x);
      var digits := if x < 0.0 then s[1..] else s;
      (x < 0.0 <==> s[0] == '-') && s[|s| - 1] != '.'
      && LiteralLen(digits) == |digits| > 0
      && Abs(x) - 0.000000005 <= LiteralValue(digits) <= Abs(x) + 0.000000005
      && RStrip(RStrip(lib.fixed(x), '0'), '.') != []
  {
    var a := Abs(x);
    var u := RStrip(RStrip(FixedText(a), '0'), '.');
    StripFixedValue(a);
    UnitsClose(a);
    FixedSign(x);
    assert Format(lib, x) == StripFixed(FixedText(x));
    if x < 0.0 {
      SignedStrip(FixedText(a));
      assert StripFixed(FixedText(x)) == "-" + u;
      assert ("-" + u)[1..] == u;
    } else {
      assert StripFixed(FixedText(x)) == u;
    }
  }

  /** The rendering of a negative number is a minus sign before that of its magnitude. */
  lemma FixedSign(x: real)
    ensures FixedText(x) == if x < 0.0 then "-" + FixedText(Abs(x)) else FixedText(Abs(x))
  {
  }

  /** Stripping never reaches a leading minus sign once something else is left. */
  lemma SignedStrip(body: string)
    requires RStrip(RStrip(body, '0'), '.') != []
    ensures RStrip(RStrip("-" + body, '0'), '.') == "-" + RStrip(RStrip(body, '0'), '.')
  {
    RStripAppend("-", body, '0');
    RStripAppend("-", RStrip(body, '0'), '.');
  }
}
