/** `evaluate_simple_expression`: symbol replacement, the `√N` rewrite to `math.sqrt(N)`,
    the exponent loop `while '**' in expr`, then tokenizing and folding. */
module SimpleEval {
  import opened Runtime
  import opened Text
  import opened Numerals
  import opened Arithmetic

  /** `str(math.pi)` */
  const PiText := "3.141592653589793"

  /** What the replacements write for one character: `×` becomes `*`, `÷` becomes `/`,
      `π` becomes the digits of pi and `^` becomes `**`. */
  function Symbol(c: char): (t: string)
    ensures c !in "×÷π^" ==> t == [c]
    ensures '×' !in t && '÷' !in t && 'π' !in t && '^' !in t
  {
    if c == '×' then "*" else if c == '÷' then "/" else if c == 'π' then PiText
    else if c == '^' then "**" else [c]
  }

  /** `expr.replace("×", "*").replace("÷", "/").replace("π", str(math.pi)).replace("^", "**")`.
      No replacement text holds a character a later replacement looks for, so the four
      passes amount to one substitution of each character. */
  function Normalize(s: string): (r: string)
    decreases |s|
  {
    if s == [] then [] else Symbol(s[0]) + Normalize(s[1..])
  }

  /** A character that no replacement involves or writes is present afterwards exactly when
      it was present before: parentheses, root signs, letters. */
  lemma {:induction false} NormalizeKeeps(s: string, x: char)
    requires x !in "×÷π^*/" && x !in PiText
    ensures x in Normalize(s) <==> x in s
    decreases |s|
  {
    if s != [] {
      NormalizeKeeps(s[1..], x);
      assert s == [s[0]] + s[1..];
      assert x in Symbol(s[0]) <==> x == s[0];
    }
  }

  /** No `×`, `÷`, `π` or `^` is left after the replacements. */
  lemma {:induction false} NormalizeRemoves(s: string)
    ensures '×' !in Normalize(s) && '÷' !in Normalize(s) && 'π' !in Normalize(s) && '^' !in Normalize(s)
    decreases |s|
  {
    if s != [] {
      NormalizeRemoves(s[1..]);
    }
  }

  /** The length of the argument `\d+(?:\.\d+)?` at the start of `t`: digits, then a point
      and digits only when at least one digit follows the point. */
  function SqrtArgLen(t: string): (n: nat)
    ensures n <= |t|
    ensures n > 0 <==> t != [] && IsDigit(t[0])
  {
    var d := DigitRun(t);
    if d > 0 && d < |t| && t[d] == '.' && DigitRun(t[d + 1..]) > 0 then d + 1 + DigitRun(t[d + 1..])
    else d
  }

  /** `re.sub(r'√(\d+(?:\.\d+)?)', r'math.sqrt(\1)', s)`: the root sign before a number
      becomes a call text that the tokenizer later skips, leaving only the number. */
  function SqrtCallPass(s: string): (r: string)
    decreases |s|
  {
    if s == [] then []
    else
      var n := SqrtArgLen(s[1..]);
      if s[0] == '√' && n > 0 then "math.sqrt(" + s[1..][..n] + ")" + SqrtCallPass(s[1 + n..])
      else [s[0]] + SqrtCallPass(s[1..])
  }

  /** Without a root sign the call rewrite changes nothing. */
  lemma {:induction false} SqrtCallKeeps(s: string)
    requires '√' !in s
    ensures SqrtCallPass(s) == s
    decreases |s|
  {
    if s != [] {
      assert s[0] != '√';
      assert '√' !in s[1..] by {
        forall i | 0 <= i < |s[1..]| ensures s[1..][i] != '√' {
          assert s[1..][i] == s[i + 1];
        }
      }
      SqrtCallKeeps(s[1..]);
      assert [s[0]] + s[1..] == s;
    }
  }

  /** A root sign before an argument `w` that the pattern takes whole becomes a call text
      around `w`, and the pass goes on after it. */
  lemma SqrtCallAt(w: string, rest: string)
    requires SqrtArgLen(w + rest) == |w| > 0
    ensures SqrtCallPass("√" + w + rest) == "math.sqrt(" + w + ")" + SqrtCallPass(rest)
  {
    var s := "√" + w + rest;
    assert s[1..] == w + rest;
    assert s[1..][..|w|] == w;
    assert s[1 + |w|..] == rest;
  }

  /** A root sign before the whole number `d` becomes a call text around `d`, and the
      tokenizer reads only the number from it: the root is not taken. */
  lemma SqrtWholeTokens(d: string, rest: string)
    requires AllDigits(d) && d != []
    requires rest == [] || (!IsDigit(rest[0]) && rest[0] != '.')
    ensures SqrtCallPass("√" + d + rest) == "math.sqrt(" + d + ")" + SqrtCallPass(rest)
    ensures Tokenize(SqrtCallPass("√" + d + rest))
      == [Number(DigitsValue(d) as real, false)] + Tokenize(SqrtCallPass(rest))
  {
    DigitRunOf(d, rest);
    SqrtCallAt(d, rest);
    CallTokens(d, SqrtCallPass(rest));
    WholeToken(d, ")" + SqrtCallPass(rest));
  }

  /** The same for a number `d.f` with digits after its point. */
  lemma SqrtFractionTokens(d: string, f: string, rest: string)
    requires AllDigits(d) && d != [] && AllDigits(f) && f != []
    requires rest == [] || !IsDigit(rest[0])
    ensures SqrtCallPass("√" + d + "." + f + rest) == "math.sqrt(" + d + "." + f + ")" + SqrtCallPass(rest)
    ensures Tokenize(SqrtCallPass("√" + d + "." + f + rest))
      == [Number(DecimalValue(d, f), false)] + Tokenize(SqrtCallPass(rest))
  {
    SqrtFractionCall(d, f, rest);
    FractionCallTokens(d, f, SqrtCallPass(rest));
  }

  lemma SqrtFractionCall(d: string, f: string, rest: string)
    requires AllDigits(d) && d != [] && AllDigits(f) && f != []
    requires rest == [] || !IsDigit(rest[0])
    ensures SqrtCallPass("√" + d + "." + f + rest) == "math.sqrt(" + d + "." + f + ")" + SqrtCallPass(rest)
  {
    var w := d + "." + f;
    FractionArg(d, f, rest);
    assert w + rest == d + "." + f + rest;
    SqrtCallAt(w, rest);
    Regroup("√", d, ".", f, [], rest);
    assert "√" + w + rest == "√" + d + "." + f + rest;
    Regroup("math.sqrt(", d, ".", f, ")", SqrtCallPass(rest));
  }

  lemma FractionCallTokens(d: string, f: string, t: string)
    requires AllDigits(d) && d != [] && AllDigits(f)
    ensures Tokenize("math.sqrt(" + d + "." + f + ")" + t) == [Number(DecimalValue(d, f), false)] + Tokenize(t)
  {
    var w := d + "." + f;
    assert "math.sqrt(" + w + ")" + t == "math.sqrt(" + d + "." + f + ")" + t;
    CallTokens(w, t);
    assert w + (")" + t) == d + "." + f + (")" + t);
    FractionToken(d, f, ")" + t);
  }

  /** The argument of a root sign takes the point and the digits after it. */
  lemma FractionArg(d: string, f: string, rest: string)
    requires AllDigits(d) && d != [] && AllDigits(f) && f != []
    requires rest == [] || !IsDigit(rest[0])
    ensures SqrtArgLen(d + "." + f + rest) == |d| + 1 + |f|
  {
    var u := "." + f + rest;
    assert u[0] == '.' && u[1..] == f + rest;
    DigitRunOf(f, rest);
    Regroup(d, ".", f, rest, [], []);
    ArgOfParts(d, u);
  }

  /** Digits `d`, then a point with digits after it: the argument runs over both. */
  lemma ArgOfParts(d: string, u: string)
    requires AllDigits(d) && d != []
    requires u != [] && u[0] == '.' && DigitRun(u[1..]) > 0
    ensures SqrtArgLen(d + u) == |d| + 1 + DigitRun(u[1..])
  {
    var t := d + u;
    DigitRunOf(d, u);
    assert t[|d|] == '.';
    assert t[|d| + 1..] == u[1..];
  }

  /** The tokenizer skips the call text around a number, and the `)` after it. */
  lemma CallTokens(n: string, t: string)
    ensures Tokenize("math.sqrt(" + n + ")" + t) == Tokenize(n + (")" + t))
    ensures Tokenize(")" + t) == Tokenize(t)
  {
    var call := "math.sqrt(";
    CallIsNoise(call);
    Regroup(call, n, ")", t, [], []);
    assert call + n + ")" + t == call + (n + (")" + t));
    SkipsNoiseText(call, n + (")" + t));
    SkipsNoiseText(")", t);
  }

  lemma CallIsNoise(call: string)
    requires call == "math.sqrt("
    ensures forall i | 0 <= i < |call| :: !IsDigit(call[i]) && !IsOperatorChar(call[i])
  {
  }

  /** Python's `\s` for text patterns: the characters `str.isspace` accepts. */
  predicate IsSpace(c: char)
  {
    var k := c as int;
    k == 0x20 || 0x09 <= k <= 0x0d || 0x1c <= k <= 0x1f || k == 0x85 || k == 0xa0
    || k == 0x1680 || 0x2000 <= k <= 0x200a || k == 0x2028 || k == 0x2029 || k == 0x202f
    || k == 0x205f || k == 0x3000
  }

  /** The length of the run of `\s` characters at the start of `s`. */
  function SpaceRun(s: string): (n: nat)
    ensures n <= |s|
  {
    if s != [] && IsSpace(s[0]) then 1 + SpaceRun(s[1..]) else 0
  }

  /** A match of `(\d+\.?\d*)\s*\*\*\s*(\d+\.?\d*)`: its length and where its second group
      starts. The first group starts the match. */
  datatype PowerMatch = PowerMatch(length: nat, exponentAt: nat)

  /** The match of the exponent pattern at the start of `t`, if any. Each part of the
      pattern is greedy and no shorter choice of one part lets the next part match, so this
      is the match the regular expression engine finds. */
  function MatchPower(t: string): (m: Option<PowerMatch>)
    ensures m.Some? ==> 0 < LiteralLen(t) && m.value.exponentAt < m.value.length <= |t|
    ensures m.Some? ==> 0 < LiteralLen(t[m.value.exponentAt..])
  {
    var l1 := LiteralLen(t);
    if l1 == 0 then None
    else
      var j := l1 + SpaceRun(t[l1..]);
      if j + 2 <= |t| && t[j] == '*' && t[j + 1] == '*' then
        var k := j + 2 + SpaceRun(t[j + 2..]);
        var l2 := LiteralLen(t[k..]);
        if l2 == 0 then None
        else Some(PowerMatch(k + l2, k))
      else None
  }

  /** A match starts with a digit and holds the two stars of the operator. */
  lemma MatchPowerShape(t: string)
    requires MatchPower(t).Some?
    ensures var m := MatchPower(t).value;
      IsDigit(t[0]) && HasPair(t[..m.length], '*')
  {
    var l1 := LiteralLen(t);
    var j := l1 + SpaceRun(t[l1..]);
    var m := MatchPower(t).value;
    PairAt(t[..m.length], '*', j);
  }

  /** One `re.sub` of the exponent pattern: every match, from left to right and without
      overlap, is replaced by `str(float(a) ** float(b))`. */
  function PowerPass(lib: MathLib, s: string): (r: string)
    decreases |s|
  {
    if s == [] then []
    else
      match MatchPower(s)
      case Some(m) =>
        lib.str(lib.pow(LiteralValue(s), LiteralValue(s[m.exponentAt..]))) + PowerPass(lib, s[m.length..])
      case None => [s[0]] + PowerPass(lib, s[1..])
  }

  /** What the rewrite loops rely on from `str(float)`: its text (digits, `.`, `-`, `e`,
      `+`, `inf` or `nan`) holds no `*`, no parenthesis and no root sign. */
  ghost predicate PlainNumbers(lib: MathLib)
  {
    forall x :: '*' !in lib.str(x) && '(' !in lib.str(x) && ')' !in lib.str(x) && '√' !in lib.str(x)
  }

  /** The text of a number under `PlainNumbers`. */
  lemma PlainText(lib: MathLib, x: real)
    requires PlainNumbers(lib)
    ensures '*' !in lib.str(x) && '(' !in lib.str(x) && ')' !in lib.str(x) && '√' !in lib.str(x)
  {
  }

  /** No `*`, no parenthesis and no root sign. */
  predicate Plain(s: string)
  {
    '*' !in s && '(' !in s && ')' !in s && '√' !in s
  }

  lemma DigitsPlain(s: string)
    requires AllDigits(s)
    ensures Plain(s)
  {
    forall i | 0 <= i < |s| ensures s[i] !in "*()√" {
      assert IsDigit(s[i]);
    }
  }

  lemma PlainConcat(a: string, b: string)
    requires Plain(a) && Plain(b)
    ensures Plain(a + b)
  {
    forall c | c in a + b ensures c in a || c in b {
      var i :| 0 <= i < |a + b| && (a + b)[i] == c;
      if i >= |a| {
        assert b[i - |a|] == c;
      }
    }
  }

  /** The positional rendering `Str` writes plain numbers. */
  lemma StrIsPlain(x: real)
    ensures '*' !in Str(x) && '(' !in Str(x) && ')' !in Str(x) && '√' !in Str(x)
  {
    var a := Abs(x);
    var n := (a * Scale as real).Floor as nat;
    var i, f := NatDigits(n / Scale), FractionDigits(n % Scale);
    PositionalOf(a, n);
    DigitsPlain(i);
    DigitsPlain(f);
    PlainConcat(i, ".");
    PlainConcat(i + ".", f);
    PlainConcat("-", i + "." + f);
    assert Str(x) == i + "." + f || Str(x) == "-" + (i + "." + f);
  }

  /** A value substituted back into the buffer is text: the tokenizer reads `str(x)` as a
      `-` operator when x < 0, then one number, `|x|` truncated to `Decimals` decimals. */
  lemma SubstitutedTokens(x: real, rest: string)
    requires rest == [] || (!IsDigit(rest[0]) && rest[0] != '%')
    ensures Tokenize(Str(x) + rest)
      == (if x < 0.0 then [Operator('-')] else []) + [Number(Truncated(Abs(x)), false)] + Tokenize(rest)
  {
    var a := Abs(x);
    var number := Number(Truncated(a), false);
    PositionalTokens(a, rest);
    if x < 0.0 {
      StrNegative(x, a);
      SignTokens(Str(x), Positional(a), rest, number);
      assert [Operator('-'), number] == [Operator('-')] + [number];
    } else {
      assert Str(x) == Positional(a);
      assert [] + [number] == [number];
    }
  }

  lemma StrNegative(x: real, a: real)
    requires x < 0.0 && a == -x
    ensures Str(x) == "-" + Positional(a)
  {
    assert Str(x) == "-" + Positional(-x);
    assert -x == a;
  }

  lemma SignTokens(s: string, p: string, rest: string, number: Token)
    requires s == "-" + p && Tokenize(p + rest) == [number] + Tokenize(rest)
    ensures Tokenize(s + rest) == [Operator('-'), number] + Tokenize(rest)
  {
    var u := p + rest;
    Prepend('-', p, rest);
    OperatorToken('-', u);
    Cons2(Operator('-'), number, Tokenize(rest));
  }

  lemma Prepend(c: char, p: string, rest: string)
    ensures [c] + p + rest == [c] + (p + rest)
  {
  }

  lemma Cons2(a: Token, b: Token, t: seq<Token>)
    ensures [a] + ([b] + t) == [a, b] + t
  {
  }

  /** The positional text of a non-negative number is read as that one number, truncated. */
  lemma PositionalTokens(a: real, rest: string)
    requires a >= 0.0
    requires rest == [] || (!IsDigit(rest[0]) && rest[0] != '%')
    ensures Tokenize(Positional(a) + rest) == [Number(Truncated(a), false)] + Tokenize(rest)
  {
    var n := (a * Scale as real).Floor as nat;
    PositionalOf(a, n);
    PositionalRoundTrip(a);
    LiteralTokens(NatDigits(n / Scale), FractionDigits(n % Scale), Positional(a), rest);
  }

  lemma LiteralTokens(i: string, f: string, w: string, rest: string)
    requires AllDigits(i) && i != [] && AllDigits(f) && w == i + "." + f
    requires rest == [] || (!IsDigit(rest[0]) && rest[0] != '%')
    ensures LiteralLen(w) > 0
    ensures Tokenize(w + rest) == [Number(LiteralValue(w), false)] + Tokenize(rest)
  {
    FractionLiteral(i, f, []);
    assert w + [] == w;
    FractionToken(i, f, rest);
  }

  /** With the positional rendering as `str`, the rewrite loops' assumption holds. */
  lemma StrPlainNumbers(lib: MathLib)
    requires lib.str == Str
    ensures PlainNumbers(lib)
  {
    forall x ensures '*' !in lib.str(x) && '(' !in lib.str(x) && ')' !in lib.str(x) && '√' !in lib.str(x) {
      StrIsPlain(x);
    }
  }

  /** A pass either changes nothing or removes at least one `**`: every match holds the two
      stars of its operator and is replaced by text without stars. */
  lemma {:induction false} PowerPassShrinks(lib: MathLib, s: string)
    requires PlainNumbers(lib)
    ensures PowerPass(lib, s) == s || Count(PowerPass(lib, s), '*') + 2 <= Count(s, '*')
    decreases |s|
  {
    if s != [] {
      match MatchPower(s)
      case Some(m) =>
        PowerPassShrinks(lib, s[m.length..]);
        MatchShrinks(lib, s);
      case None =>
        PowerPassShrinks(lib, s[1..]);
        SkipKeepsCount(lib, s);
    }
  }

  /** Replacing a match removes its two stars and adds none. */
  lemma MatchShrinks(lib: MathLib, s: string)
    requires PlainNumbers(lib) && MatchPower(s).Some?
    requires var rest := s[MatchPower(s).value.length..];
      PowerPass(lib, rest) == rest || Count(PowerPass(lib, rest), '*') + 2 <= Count(rest, '*')
    ensures Count(PowerPass(lib, s), '*') + 2 <= Count(s, '*')
  {
    var m := MatchPower(s).value;
    var x := lib.pow(LiteralValue(s), LiteralValue(s[m.exponentAt..]));
    var head := lib.str(x);
    var rest := s[m.length..];
    MatchHasStars(s);
    PassAtMatch(lib, s);
    PlainText(lib, x);
    CountConcat(head, PowerPass(lib, rest), '*');
    CountLength(rest, PowerPass(lib, rest));
  }

  /** A match holds at least the two stars of its operator. */
  lemma MatchHasStars(s: string)
    requires MatchPower(s).Some?
    ensures var n := MatchPower(s).value.length;
      Count(s, '*') >= Count(s[n..], '*') + 2
  {
    var n := MatchPower(s).value.length;
    assert s == s[..n] + s[n..];
    CountConcat(s[..n], s[n..], '*');
    MatchPowerShape(s);
    PairNeedsTwo(s[..n], '*');
  }

  /** The pass writes the match's value and goes on after the match. */
  lemma PassAtMatch(lib: MathLib, s: string)
    requires MatchPower(s).Some?
    ensures var m := MatchPower(s).value;
      PowerPass(lib, s)
      == lib.str(lib.pow(LiteralValue(s), LiteralValue(s[m.exponentAt..]))) + PowerPass(lib, s[m.length..])
  {
  }

  /** `t` starts with a literal of `l1` characters, then `**` with no space around it, then a
      literal of `l2` characters. */
  predicate LiteralPowerAt(t: string, l1: nat, l2: nat)
  {
    0 < LiteralLen(t) == l1 && l1 + 2 <= |t| && t[l1] == '*' && t[l1 + 1] == '*'
    && 0 < LiteralLen(t[l1 + 2..]) == l2
  }

  /** The exponent pattern at the start of `t`, with the literal lengths known: a literal,
      `**` with no space around it, and a second literal. */
  lemma MatchOf(t: string, l1: nat, l2: nat)
    requires LiteralPowerAt(t, l1, l2)
    ensures MatchPower(t) == Some(PowerMatch(l1 + 2 + l2, l1 + 2))
  {
    NoSpaceAround(t, l1);
  }

  /** Neither the operator nor a literal starts with white space. */
  lemma NoSpaceAround(t: string, l1: nat)
    requires l1 + 2 < |t| && t[l1] == '*' && IsDigit(t[l1 + 2])
    ensures SpaceRun(t[l1..]) == 0 && SpaceRun(t[l1 + 2..]) == 0
  {
    assert t[l1..][0] == '*' && t[l1 + 2..][0] == t[l1 + 2];
  }

  /** The pass at a literal, `**` with no space around it, and a second literal: it writes
      `str(float(a) ** float(b))` for the two literals and goes on after the second. */
  lemma PowerAt(lib: MathLib, t: string, l1: nat, l2: nat)
    requires LiteralPowerAt(t, l1, l2)
    ensures PowerPass(lib, t)
      == lib.str(lib.pow(LiteralValue(t), LiteralValue(t[l1 + 2..]))) + PowerPass(lib, t[l1 + 2 + l2..])
  {
    MatchOf(t, l1, l2);
    PassAt(lib, t, l1 + 2 + l2, l1 + 2);
  }

  /** `PassAtMatch` for a match whose length and second group are known. */
  lemma PassAt(lib: MathLib, t: string, n: nat, e: nat)
    requires MatchPower(t) == Some(PowerMatch(n, e))
    ensures e <= n <= |t| && 0 < LiteralLen(t) && 0 < LiteralLen(t[e..])
    ensures PowerPass(lib, t) == lib.str(lib.pow(LiteralValue(t), LiteralValue(t[e..]))) + PowerPass(lib, t[n..])
  {
    PassAtMatch(lib, t);
  }

  /** Where a match starts, it always holds the pair `**`. */
  lemma MatchHasPair(s: string)
    requires MatchPower(s).Some?
    ensures HasPair(s, '*')
  {
    var l1 := LiteralLen(s);
    PairAt(s, '*', l1 + SpaceRun(s[l1..]));
  }

  /** Text without `**` is left as it is. */
  lemma {:induction false} PowerPassKeeps(lib: MathLib, s: string)
    requires !HasPair(s, '*')
    ensures PowerPass(lib, s) == s
    decreases |s|
  {
    if s != [] {
      if MatchPower(s).Some? {
        MatchHasPair(s);
      }
      PowerPassKeeps(lib, s[1..]);
      assert [s[0]] + s[1..] == s;
    }
  }

  /** Text that starts with a character other than a digit and holds no `**` after it is
      left as it is. */
  lemma PassKeepsAfterHead(lib: MathLib, r: string)
    requires r != [] && !IsDigit(r[0]) && !HasPair(r[1..], '*')
    ensures PowerPass(lib, r) == r
  {
    PassSkips(lib, r);
    PowerPassKeeps(lib, r[1..]);
    assert [r[0]] + r[1..] == r;
  }

  /** `a**b**c` is folded from the left: one pass rewrites `a**b` and copies `**c` as it is,
      so the next pass raises the value of `a**b` to `c`. Here `c` holds no `**` and does not
      start with `*`. */
  lemma PowerChainAt(lib: MathLib, t: string, l1: nat, l2: nat)
    requires LiteralPowerAt(t, l1, l2)
    requires var r := t[l1 + 2 + l2..]; |r| >= 2 && r[0] == '*' && r[1] == '*' && !HasPair(r[1..], '*')
    ensures PowerPass(lib, t)
      == lib.str(lib.pow(LiteralValue(t), LiteralValue(t[l1 + 2..]))) + t[l1 + 2 + l2..]
  {
    PowerAt(lib, t, l1, l2);
    PassKeepsAfterHead(lib, t[l1 + 2 + l2..]);
  }

  /** One step of the `while '**' in expr` loop over `a**b**c`: the loop goes on with
      `str(float(a) ** float(b))` followed by `**c`. */
  lemma PowerChainStep(lib: MathLib, t: string, l1: nat, l2: nat, fuel: nat)
    requires LiteralPowerAt(t, l1, l2)
    requires var r := t[l1 + 2 + l2..]; |r| >= 2 && r[0] == '*' && r[1] == '*' && !HasPair(r[1..], '*')
    ensures PowerLoop(lib, t, fuel + 1)
      == PowerLoop(lib, lib.str(lib.pow(LiteralValue(t), LiteralValue(t[l1 + 2..]))) + t[l1 + 2 + l2..], fuel)
  {
    MatchOf(t, l1, l2);
    MatchHasPair(t);
    PowerChainAt(lib, t, l1, l2);
  }

  /** Copying a character that starts no match keeps the pass's effect on the rest. */
  lemma SkipKeepsCount(lib: MathLib, s: string)
    requires s != [] && MatchPower(s).None?
    requires PowerPass(lib, s[1..]) == s[1..] || Count(PowerPass(lib, s[1..]), '*') + 2 <= Count(s[1..], '*')
    ensures PowerPass(lib, s) == s || Count(PowerPass(lib, s), '*') + 2 <= Count(s, '*')
  {
    PassSkips(lib, s);
    PrependKeepsCount(s[0], s[1..], PowerPass(lib, s[1..]));
    assert s == [s[0]] + s[1..];
  }

  /** Where no match starts, the pass copies the first character. */
  lemma PassSkips(lib: MathLib, s: string)
    requires s != [] && MatchPower(s).None?
    ensures PowerPass(lib, s) == [s[0]] + PowerPass(lib, s[1..])
  {
  }

  /** A character written before both texts keeps them equal, or keeps the drop in stars. */
  lemma PrependKeepsCount(c: char, a: string, b: string)
    requires b == a || Count(b, '*') + 2 <= Count(a, '*')
    ensures [c] + b == [c] + a || Count([c] + b, '*') + 2 <= Count([c] + a, '*')
  {
    CountConcat([c], a, '*');
    CountConcat([c], b, '*');
  }

  /** A rewritten text whose star count did not drop is the text itself. */
  lemma CountLength(a: string, b: string)
    requires b == a || Count(b, '*') + 2 <= Count(a, '*')
    ensures Count(b, '*') <= Count(a, '*')
  {
  }

  /** `while '**' in expr: expr = rewrite(expr)`, with at most `fuel` passes. */
  function Rewrite(rewrite: string -> string, s: string, fuel: nat): (r: Outcome<string>)
    ensures !r.Raised?
    ensures r.Done? ==> !HasPair(r.value, '*')
    decreases fuel
  {
    if !HasPair(s, '*') then Done(s)
    else if fuel == 0 then Diverged
    else Rewrite(rewrite, rewrite(s), fuel - 1)
  }

  function PowerPassOf(lib: MathLib): string -> string
  {
    s => PowerPass(lib, s)
  }

  /** `while '**' in expr: expr = re.sub(...)`, with at most `fuel` passes. */
  function PowerLoop(lib: MathLib, s: string, fuel: nat): (r: Outcome<string>)
    ensures !r.Raised?
    ensures r.Done? ==> !HasPair(r.value, '*')
  {
    Rewrite(PowerPassOf(lib), s, fuel)
  }

  /** More passes never change a loop that has finished. */
  lemma {:induction false} PowerLoopMonotone(lib: MathLib, s: string, fuel: nat, more: nat)
    requires fuel <= more && !PowerLoop(lib, s, fuel).Diverged?
    ensures PowerLoop(lib, s, more) == PowerLoop(lib, s, fuel)
    decreases fuel
  {
    if HasPair(s, '*') {
      PowerLoopMonotone(lib, PowerPass(lib, s), fuel - 1, more - 1);
    }
  }

  /** A rewrite that changes nothing while `**` remains: the loop runs forever. */
  lemma {:induction false} RewriteStuck(rewrite: string -> string, s: string, fuel: nat)
    requires HasPair(s, '*') && rewrite(s) == s
    ensures Rewrite(rewrite, s, fuel) == Diverged
    decreases fuel
  {
    if fuel > 0 {
      RewriteStuck(rewrite, s, fuel - 1);
    }
  }

  /** A rewrite that either changes nothing or removes two stars: when its loop is still
      running after half as many passes as there are stars, it runs forever. */
  lemma {:induction false} RewriteDecided(rewrite: string -> string, s: string, fuel: nat, other: nat)
    requires forall u :: rewrite(u) == u || Count(rewrite(u), '*') + 2 <= Count(u, '*')
    requires 2 * fuel + 1 >= Count(s, '*') && Rewrite(rewrite, s, fuel) == Diverged
    ensures Rewrite(rewrite, s, other) == Diverged
    decreases fuel
  {
    PairNeedsTwo(s, '*');
    var t := rewrite(s);
    if t == s {
      RewriteStuck(rewrite, s, other);
    } else if other > 0 {
      RewriteDecided(rewrite, t, fuel - 1, other - 1);
    }
  }

  /** While `**` is left, one more pass of the loop is one more `PowerPass`. */
  lemma PowerLoopStep(lib: MathLib, s: string, fuel: nat)
    requires HasPair(s, '*')
    ensures PowerLoop(lib, s, fuel + 1) == PowerLoop(lib, PowerPass(lib, s), fuel)
    ensures !HasPair(PowerPass(lib, s), '*') ==> PowerLoop(lib, s, fuel + 1) == Done(PowerPass(lib, s))
  {
  }

  /** A pass that changes nothing while `**` remains: the source loops forever. */
  lemma PowerStuck(lib: MathLib, s: string, fuel: nat)
    requires HasPair(s, '*') && PowerPass(lib, s) == s
    ensures PowerLoop(lib, s, fuel) == Diverged
  {
    RewriteStuck(PowerPassOf(lib), s, fuel);
  }

  /** Half the number of stars bounds the passes of a loop that ends: when the loop is still
      running after that many passes (`2 * fuel + 1 >= stars`), it runs forever. */
  lemma PowerLoopDecided(lib: MathLib, s: string, fuel: nat, other: nat)
    requires PlainNumbers(lib)
    requires 2 * fuel + 1 >= Count(s, '*') && PowerLoop(lib, s, fuel) == Diverged
    ensures PowerLoop(lib, s, other) == Diverged
  {
    var rewrite := PowerPassOf(lib);
    forall u ensures rewrite(u) == u || Count(rewrite(u), '*') + 2 <= Count(u, '*') {
      PowerPassShrinks(lib, u);
    }
    RewriteDecided(rewrite, s, fuel, other);
  }

  /** `evaluate_simple_expression(s)`: its value (`None` when no number is left), a raised
      fault, or `Diverged` when the exponent loop does not end within `fuel` passes. It never
      raises the square-root error: a `√` that reaches it is dropped, not evaluated. */
  function Simple(lib: MathLib, s: string, fuel: nat): (r: Outcome<Option<real>>)
    ensures r.Raised? ==> r.fault != MathDomain
  {
    match PowerLoop(lib, SqrtCallPass(Normalize(s)), fuel)
    case Done(t) => Reduce(Tokenize(t))
    case Diverged => Diverged
  }

  /** The source's method, with its exponent loop; `fuel` bounds the passes. */
  method EvaluateSimple(lib: MathLib, expr: string, fuel: nat) returns (r: Outcome<Option<real>>)
    ensures r == Simple(lib, expr, fuel)
  {
    var e := SqrtCallPass(Normalize(expr));
    ghost var start := e;
    var passes := fuel;
    while HasPair(e, '*')
      invariant PowerLoop(lib, e, passes) == PowerLoop(lib, start, fuel)
      decreases passes
    {
      if passes == 0 {
        return Diverged;
      }
      e := PowerPass(lib, e);
      passes := passes - 1;
    }
    assert PowerLoop(lib, start, fuel) == Done(e);
    var tokens := Tokenize(e);
    r := Accumulate(tokens);
  }
}
