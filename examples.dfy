/** Worked cases of the evaluator: inputs on which it never returns, and the fold on the
    tokens of a few inputs. */
module Examples {
  import opened Runtime
  import opened Text
  import opened Numerals
  import opened Arithmetic
  import opened SimpleEval
  import opened Evaluator

  /** Without a digit there is no malformed number. */
  lemma {:induction false} NoDigitNoMatch(s: string)
    requires forall i | 0 <= i < |s| :: !IsDigit(s[i])
    ensures !HasDoubleDot(s)
    decreases |s|
  {
    if s != [] {
      NoDigitNoMatch(s[1..]);
    }
  }

  /** `()` passes the checks, and the parenthesis loop finds no group in it and never ends. */
  lemma EmptyGroupHangs(lib: MathLib, s: string, fuel: nat)
    requires s == "()"
    ensures Evaluate(lib, s, fuel) == Hangs
  {
    assert s[1..] == ")" && s[1..][1..] == [];
    assert Count(s, '(') == 1 == Count(s, ')');
    NoDigitNoMatch(s);
    assert RootLoop(lib, s, fuel) == Done(s);
    forall k: nat ensures ParenPassOf(lib)(s, k) == Done(s) {
      assert RunAvoiding(s[1..], {'(', ')'}) == 0;
      assert ParenGroupLen(s) == 0;
      assert ParenGroupLen(s[1..]) == 0;
      var t := s[1..];
      assert ParenPass(lib, t[1..], k) == Done([]);
      assert ParenPass(lib, t, k) == Prefix([t[0]], ParenPass(lib, t[1..], k));
      assert [t[0]] + [] == t;
      assert ParenPass(lib, t, k) == Done(t);
      assert ParenPass(lib, s, k) == Prefix([s[0]], ParenPass(lib, t, k));
      assert [s[0]] + t == s;
    }
    LoopStuck(ParenPassOf(lib), '(', s, fuel);
  }

  /** `√()`, which the `√` button writes into an empty input, passes the checks, and the root
      loop rewrites neither a group nor a bare root in it and never ends. */
  lemma EmptyRootHangs(lib: MathLib, s: string, fuel: nat)
    requires s == "√()"
    ensures Evaluate(lib, s, fuel) == Hangs
  {
    var t := s[1..];
    var u := t[1..];
    assert t == "()" && u == ")" && u[1..] == [];
    assert Count(s, '(') == 1 == Count(s, ')');
    NoDigitNoMatch(s);
    forall k: nat ensures RootPassOf(lib)(s, k) == Done(s) {
      assert RunAvoiding(u, {')'}) == 0;
      assert RootGroupLen(s) == 0 && RootGroupLen(t) == 0 && RootGroupLen(u) == 0;
      assert RootGroupPass(lib, u, k) == Prefix([u[0]], RootGroupPass(lib, u[1..], k));
      assert [u[0]] + [] == u;
      assert RootGroupPass(lib, u, k) == Done(u);
      assert [t[0]] + u == t;
      assert RootGroupPass(lib, t, k) == Done(t);
      assert [s[0]] + t == s;
      assert RootGroupPass(lib, s, k) == Done(s);
      assert LiteralLen(t) == 0 && LiteralLen(u) == 0 && LiteralLen(u[1..]) == 0;
      assert BareRootPass(lib, u) == u;
      assert BareRootPass(lib, t) == t;
      assert BareRootPass(lib, s) == s;
    }
    LoopStuck(RootPassOf(lib), '√', s, fuel);
  }

  /** The tokens of `2+3*4` fold to 20: the addition happens first. */
  lemma ChainExample()
    ensures Reduce([Number(2.0, false), Operator('+'), Number(3.0, false), Operator('*'), Number(4.0, false)])
      == Done(Some(20.0))
  {
  }

  /** `2+3×4` evaluates to 20, not 14: the replacements give `2+3*4`, which holds no root
      and no exponent, and its tokens fold from left to right. */
  lemma ChainText(lib: MathLib, s: string, fuel: nat)
    requires s == "2+3×4"
    ensures Simple(lib, s, fuel) == Done(Some(20.0))
  {
    var t := ['2', '+', '3', '*', '4'];
    assert s == ['2', '+', '3', '×', '4'];
    NormalizeChain('2', '3', '4');
    SqrtCallKeeps(t);
    NoPowerInChain('2', '3', '4');
    assert PowerLoop(lib, t, fuel) == Done(t);
    DigitChainTokens('2', '3', '4');
    assert DigitValue('2') == 2 && DigitValue('3') == 3 && DigitValue('4') == 4;
    ChainExample();
  }

  lemma NormalizeChain(a: char, b: char, c: char)
    requires IsDigit(a) && IsDigit(b) && IsDigit(c)
    ensures Normalize([a, '+', b, '×', c]) == [a, '+', b, '*', c]
  {
    NormalizeStep([c], [], [c]);
    NormalizeStep(['×', c], [c], ['*']);
    NormalizeStep([b, '×', c], ['*', c], [b]);
    NormalizeStep(['+', b, '×', c], [b, '*', c], ['+']);
    NormalizeStep([a, '+', b, '×', c], ['+', b, '*', c], [a]);
  }

  /** One more character in front: replaced by what `Symbol` writes for it. */
  lemma NormalizeStep(s: string, done: string, written: string)
    requires s != [] && Normalize(s[1..]) == done
    requires written == (if s[0] == '×' then ['*'] else if s[0] == '^' then ['*', '*'] else [s[0]])
    requires s[0] == '×' || s[0] == '^' || IsDigit(s[0]) || s[0] == '+'
    ensures Normalize(s) == written + done
  {
  }

  lemma NoPowerInChain(a: char, b: char, c: char)
    requires IsDigit(a) && IsDigit(b) && IsDigit(c)
    ensures !HasPair([a, '+', b, '*', c], '*')
  {
    var t := [a, '+', b, '*', c];
    assert !HasPair([c], '*');
    assert ['*', c][1..] == [c];
    assert !HasPair(['*', c], '*');
    assert [b, '*', c][1..] == ['*', c];
    assert !HasPair([b, '*', c], '*');
    assert ['+', b, '*', c][1..] == [b, '*', c];
    assert !HasPair(['+', b, '*', c], '*');
    assert t[1..] == ['+', b, '*', c];
  }

  lemma DigitChainTokens(a: char, b: char, c: char)
    requires IsDigit(a) && IsDigit(b) && IsDigit(c)
    ensures Tokenize([a, '+', b, '*', c])
      == [Number(DigitValue(a) as real, false), Operator('+'), Number(DigitValue(b) as real, false),
          Operator('*'), Number(DigitValue(c) as real, false)]
  {
    ProductTokens(b, c);
    TokenStep(['+', b, '*', c], Tokenize([b, '*', c]), Operator('+'));
    TokenStep([a, '+', b, '*', c], Tokenize(['+', b, '*', c]), Number(DigitValue(a) as real, false));
  }

  lemma ProductTokens(b: char, c: char)
    requires IsDigit(b) && IsDigit(c)
    ensures Tokenize([b, '*', c])
      == [Number(DigitValue(b) as real, false), Operator('*'), Number(DigitValue(c) as real, false)]
  {
    var n := Number(DigitValue(c) as real, false);
    TokenStep([c], [], n);
    TokenStep(['*', c], [n], Operator('*'));
    TokenStep([b, '*', c], [Operator('*'), n], Number(DigitValue(b) as real, false));
  }

  /** `a`, `b`, `c`, `x` and `y` are digits, `str` writes `a**b` as `x.y`, and what it
      writes for `x.y**c` holds no `**`. */
  predicate PowerChainCase(lib: MathLib, a: char, b: char, c: char, x: char, y: char)
  {
    IsDigit(a) && IsDigit(b) && IsDigit(c) && IsDigit(x) && IsDigit(y)
    && lib.str(lib.pow(DigitValue(a) as real, DigitValue(b) as real)) == [x, '.', y]
    && !HasPair(lib.str(lib.pow(DecimalValue([x], [y]), DigitValue(c) as real)), '*')
  }

  /** `a^b^c` for digits `a`, `b` and `c` is evaluated as `(a**b)**c`: the result is the
      fold of the tokens of what `str` writes for `(a**b)**c`. */
  lemma PowerChainText(lib: MathLib, a: char, b: char, c: char, x: char, y: char, fuel: nat)
    requires PowerChainCase(lib, a, b, c, x, y)
    ensures Simple(lib, [a, '^', b, '^', c], fuel + 2)
      == Reduce(Tokenize(lib.str(lib.pow(DecimalValue([x], [y]), DigitValue(c) as real))))
  {
    var t := [a, '*', '*', b, '*', '*', c];
    NormalizePowers(a, b, c);
    SqrtCallKeeps(t);
    PowerChainLoop(lib, a, b, c, x, y, fuel);
  }

  /** `2^3^2` evaluates to 64, not 512. The values `math` and `str` give are hypotheses. */
  lemma PowerText(lib: MathLib, a: char, b: char, c: char, fuel: nat)
    requires a == '2' && b == '3' && c == '2'
    requires lib.pow(2.0, 3.0) == 8.0 && lib.str(8.0) == "8.0"
    requires lib.pow(8.0, 2.0) == 64.0 && lib.str(64.0) == "64.0"
    ensures Simple(lib, [a, '^', b, '^', c], fuel + 2) == Done(Some(64.0))
  {
    PowerTextValues(lib, a, b, c);
    PowerChainText(lib, a, b, c, '8', '0', fuel);
  }

  /** The hypotheses of `PowerChainText` for `2^3^2`. */
  lemma PowerTextValues(lib: MathLib, a: char, b: char, c: char)
    requires a == '2' && b == '3' && c == '2'
    requires lib.pow(2.0, 3.0) == 8.0 && lib.str(8.0) == "8.0"
    requires lib.pow(8.0, 2.0) == 64.0 && lib.str(64.0) == "64.0"
    ensures PowerChainCase(lib, a, b, c, '8', '0')
    ensures Reduce(Tokenize(lib.str(lib.pow(DecimalValue(['8'], ['0']), DigitValue(c) as real)))) == Done(Some(64.0))
  {
    assert DigitValue('2') == 2 && DigitValue('3') == 3 && DigitValue('8') == 8 && DigitValue('0') == 0;
    OneDecimal('8', '0');
    assert lib.str(64.0) == ['6', '4', '.', '0'];
    assert !HasPair(['6', '4', '.', '0'], '*');
    ReduceSixtyFour();
  }

  /** `64.0` folds to 64. */
  lemma ReduceSixtyFour()
    ensures Reduce(Tokenize(['6', '4', '.', '0'])) == Done(Some(64.0))
  {
    TwoDigitDecimal('6', '4', '0');
    assert DigitValue('6') == 6 && DigitValue('4') == 4 && DigitValue('0') == 0;
  }

  /** `a**b**c` for digits `a`, `b` and `c` is `(a**b)**c`, when `str` writes `a**b` as
      `x.y` and its power as text with no `**`: the loop ends after two passes. */
  lemma PowerChainLoop(lib: MathLib, a: char, b: char, c: char, x: char, y: char, fuel: nat)
    requires PowerChainCase(lib, a, b, c, x, y)
    ensures PowerLoop(lib, [a, '*', '*', b, '*', '*', c], fuel + 2)
      == Done(lib.str(lib.pow(DecimalValue([x], [y]), DigitValue(c) as real)))
  {
    FirstPowerStep(lib, a, b, c, fuel + 1);
    var v := [x, '.', y, '*', '*', c];
    assert [x, '.', y] + ['*', '*', c] == v;
    SecondPass(lib, x, y, c);
    PairAt(v, '*', 3);
    PowerLoopStep(lib, v, fuel);
  }

  /** The replacements on `a^b^c`. */
  lemma NormalizePowers(a: char, b: char, c: char)
    requires IsDigit(a) && IsDigit(b) && IsDigit(c)
    ensures Normalize([a, '^', b, '^', c]) == [a, '*', '*', b, '*', '*', c]
  {
    NormalizeStep([c], [], [c]);
    NormalizeStep(['^', c], [c], ['*', '*']);
    NormalizeStep([b, '^', c], ['*', '*', c], [b]);
    NormalizeStep(['^', b, '^', c], [b, '*', '*', c], ['*', '*']);
    NormalizeStep([a, '^', b, '^', c], ['*', '*', b, '*', '*', c], [a]);
  }

  /** The first pass of the exponent loop on `a**b**c`, for digits `a`, `b` and `c`. */
  lemma FirstPowerStep(lib: MathLib, a: char, b: char, c: char, fuel: nat)
    requires IsDigit(a) && IsDigit(b) && IsDigit(c)
    ensures PowerLoop(lib, [a, '*', '*', b, '*', '*', c], fuel + 1)
      == PowerLoop(lib, lib.str(lib.pow(DigitValue(a) as real, DigitValue(b) as real)) + ['*', '*', c], fuel)
  {
    var t := [a, '*', '*', b, '*', '*', c];
    FirstLiterals(a, b, c);
    PowerChainStep(lib, t, 1, 1, fuel);
  }

  lemma FirstLiterals(a: char, b: char, c: char)
    requires IsDigit(a) && IsDigit(b) && IsDigit(c)
    ensures var t := [a, '*', '*', b, '*', '*', c];
      LiteralPowerAt(t, 1, 1) && LiteralValue(t) == DigitValue(a) as real
      && LiteralValue(t[3..]) == DigitValue(b) as real && t[4..] == ['*', '*', c]
      && !HasPair(t[5..], '*')
  {
    var t := [a, '*', '*', b, '*', '*', c];
    WholeLiteral([a], t[1..]);
    assert t == [a] + t[1..];
    WholeLiteral([b], t[4..]);
    assert t[3..] == [b] + t[4..] && t[4..] == ['*', '*', c];
    assert [a][..0] == [] && [b][..0] == [];
    assert !HasPair(t[5..], '*');
  }

  /** One pass over `x.y**c` writes `str(float(x.y) ** float(c))`. */
  lemma SecondPass(lib: MathLib, x: char, y: char, c: char)
    requires IsDigit(x) && IsDigit(y) && IsDigit(c)
    ensures PowerPass(lib, [x, '.', y, '*', '*', c])
      == lib.str(lib.pow(DecimalValue([x], [y]), DigitValue(c) as real))
  {
    var v := [x, '.', y, '*', '*', c];
    SecondLiterals(x, y, c);
    PowerAt(lib, v, 3, 1);
    assert PowerPass(lib, v[6..]) == [];
  }

  lemma SecondLiterals(x: char, y: char, c: char)
    requires IsDigit(x) && IsDigit(y) && IsDigit(c)
    ensures var v := [x, '.', y, '*', '*', c];
      LiteralPowerAt(v, 3, 1) && LiteralValue(v) == DecimalValue([x], [y])
      && LiteralValue(v[5..]) == DigitValue(c) as real && v[6..] == []
  {
    var v := [x, '.', y, '*', '*', c];
    FractionLiteral([x], [y], v[3..]);
    assert v == [x] + "." + [y] + v[3..];
    WholeLiteral([c], []);
    assert v[5..] == [c] + [] && [c][..0] == [];
  }

  /** The literal `x.y` with one digit on each side. */
  lemma OneDecimal(x: char, y: char)
    requires IsDigit(x) && IsDigit(y)
    ensures DecimalValue([x], [y]) == DigitValue(x) as real + DigitValue(y) as real / 10.0
  {
    assert [x][..0] == [] && [y][..0] == [];
    assert DigitsValue([x]) == DigitValue(x) && DigitsValue([y]) == DigitValue(y);
    assert Pow10(1) == 10;
  }

  /** `pq.r` is the one number with that value. */
  lemma TwoDigitDecimal(p: char, q: char, r: char)
    requires IsDigit(p) && IsDigit(q) && IsDigit(r)
    ensures Tokenize([p, q, '.', r])
      == [Number((10 * DigitValue(p) + DigitValue(q)) as real + DigitValue(r) as real / 10.0, false)]
  {
    FractionToken([p, q], [r], []);
    assert [p, q, '.', r] == [p, q] + "." + [r] + [];
    TwoDigitValue(p, q, r);
  }

  lemma TwoDigitValue(p: char, q: char, r: char)
    requires IsDigit(p) && IsDigit(q) && IsDigit(r)
    ensures DecimalValue([p, q], [r])
      == (10 * DigitValue(p) + DigitValue(q)) as real + DigitValue(r) as real / 10.0
  {
    assert [p, q][..1] == [p] && [p][..0] == [] && [r][..0] == [];
    assert DigitsValue([p]) == DigitValue(p) && DigitsValue([r]) == DigitValue(r);
    assert DigitsValue([p, q]) == 10 * DigitValue(p) + DigitValue(q);
    assert Pow10(1) == 10;
  }

  /** One more character in front: a digit followed by an operator or by nothing, or an
      operator, adds its one token. */
  lemma TokenStep(s: string, done: seq<Token>, head: Token)
    requires s != [] && Tokenize(s[1..]) == done
    requires IsDigit(s[0]) || IsOperatorChar(s[0])
    requires IsDigit(s[0]) ==> |s| == 1 || IsOperatorChar(s[1])
    requires head == if IsDigit(s[0]) then Number(DigitValue(s[0]) as real, false) else Operator(s[0])
    ensures Tokenize(s) == [head] + done
  {
    assert s == [s[0]] + s[1..];
    if IsDigit(s[0]) {
      DigitToken(s[0], s[1..]);
    } else {
      OperatorToken(s[0], s[1..]);
    }
  }

  /** One digit followed by an operator or by nothing is one number token. */
  lemma DigitToken(c: char, rest: string)
    requires IsDigit(c)
    requires rest == [] || IsOperatorChar(rest[0])
    ensures Tokenize([c] + rest) == [Number(DigitValue(c) as real, false)] + Tokenize(rest)
  {
    assert [c][..0] == [];
    WholeToken([c], rest);
  }

  /** The tokens of `200+10%`, `200×10%` and `50%`. */
  lemma PercentExample()
    ensures Reduce([Number(200.0, false), Operator('+'), Number(10.0, true)]) == Done(Some(220.0))
    ensures Reduce([Number(200.0, false), Operator('×'), Number(10.0, true)]) == Done(Some(20.0))
    ensures Reduce([Number(50.0, true)]) == Done(Some(0.5))
  {
  }

  /** The tokens of `5÷0%`: a zero percentage is a zero divisor. */
  lemma ZeroPercentDivisor()
    ensures Reduce([Number(5.0, false), Operator('÷'), Number(0.0, true)]) == Raised(ZeroDivision)
  {
  }

  /** The tokens of `-5`: the sign before the first number is dropped. */
  lemma LeadingMinus()
    ensures Reduce([Operator('-'), Number(5.0, false)]) == Done(Some(5.0))
  {
  }
}
