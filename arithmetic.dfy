/** The last stage of `evaluate_simple_expression`: the tokenizer
    `re.findall(r'(\d+\.?\d*%?|[\+\-\×\÷\*\/])', expr)` and the left-to-right loop that folds
    the tokens into `current_value`. There is no operator precedence and no unary minus:
    every operator applies to the value accumulated so far. */
module Arithmetic {
  import opened Runtime
  import opened Numerals

  /** The six operator characters of the tokenizer's character class. */
  predicate IsOperatorChar(c: char) { c in "+-×÷*/" }

  /** A token: a number, possibly with a trailing `%`, or an operator character. */
  datatype Token = Number(value: real, percent: bool) | Operator(symbol: char)

  predicate WellFormed(ts: seq<Token>)
  {
    forall k | 0 <= k < |ts| ::
      (ts[k].Operator? ==> IsOperatorChar(ts[k].symbol)) && (ts[k].Number? ==> ts[k].value >= 0.0)
  }

  predicate HasNumber(ts: seq<Token>) { exists k | 0 <= k < |ts| :: ts[k].Number? }

  predicate HasDigit(s: string) { exists i | 0 <= i < |s| :: IsDigit(s[i]) }

  /** `re.findall` with the tokenizer's pattern. At each position the literal alternative is
      tried first (with its optional `%`), then an operator character; any other character
      is skipped. */
  function Tokenize(s: string): (ts: seq<Token>)
    ensures WellFormed(ts)
    decreases |s|
  {
    if s == [] then []
    else
      var n := LiteralLen(s);
      if n > 0 then
        var percent := n < |s| && s[n] == '%';
        var m := if percent then n + 1 else n;
        [Number(LiteralValue(s), percent)] + Tokenize(s[m..])
      else if IsOperatorChar(s[0]) then [Operator(s[0])] + Tokenize(s[1..])
      else Tokenize(s[1..])
  }

  lemma HasDigitTail(s: string)
    requires s != [] && !IsDigit(s[0])
    ensures HasDigit(s) <==> HasDigit(s[1..])
  {
    if HasDigit(s) {
      var i :| 0 <= i < |s| && IsDigit(s[i]);
      assert s[1..][i - 1] == s[i];
    }
    if HasDigit(s[1..]) {
      var i :| 0 <= i < |s[1..]| && IsDigit(s[1..][i]);
      assert s[i + 1] == s[1..][i];
    }
  }

  lemma HasNumberCons(t: Token, rest: seq<Token>)
    ensures HasNumber([t] + rest) <==> t.Number? || HasNumber(rest)
  {
    var ts := [t] + rest;
    if t.Number? {
      assert ts[0].Number?;
    }
    if HasNumber(ts) && !t.Number? {
      var k :| 0 <= k < |ts| && ts[k].Number?;
      assert rest[k - 1] == ts[k];
    }
    if HasNumber(rest) {
      var k :| 0 <= k < |rest| && rest[k].Number?;
      assert ts[k + 1] == rest[k];
    }
  }

  /** The tokens hold a number exactly when the text holds a digit. */
  lemma {:induction false} TokensHaveNumber(s: string)
    ensures HasNumber(Tokenize(s)) <==> HasDigit(s)
    decreases |s|
  {
    if s != [] {
      if LiteralLen(s) > 0 {
        assert Tokenize(s)[0].Number?;
        assert IsDigit(s[0]);
      } else {
        TokensHaveNumber(s[1..]);
        HasDigitTail(s);
        if IsOperatorChar(s[0]) {
          HasNumberCons(Operator(s[0]), Tokenize(s[1..]));
        }
      }
    }
  }

  /** A character that neither starts a literal nor is an operator is skipped: letters,
      parentheses, spaces, a lone `.`, the text `None` or `math.sqrt(`. */
  lemma SkipsNoise(c: char, rest: string)
    requires !IsDigit(c) && !IsOperatorChar(c)
    ensures Tokenize([c] + rest) == Tokenize(rest)
  {
    assert ([c] + rest)[1..] == rest;
  }

  /** Text of such characters leaves no token at all: `math.sqrt(` or `None`. */
  lemma {:induction false} SkipsNoiseText(p: string, rest: string)
    requires forall i | 0 <= i < |p| :: !IsDigit(p[i]) && !IsOperatorChar(p[i])
    ensures Tokenize(p + rest) == Tokenize(rest)
    decreases |p|
  {
    if p != [] {
      var tail := p[1..] + rest;
      assert p + rest == [p[0]] + tail;
      SkipsNoise(p[0], tail);
      SkipsNoiseText(p[1..], rest);
    } else {
      assert p + rest == rest;
    }
  }

  lemma OperatorToken(c: char, rest: string)
    requires IsOperatorChar(c)
    ensures Tokenize([c] + rest) == [Operator(c)] + Tokenize(rest)
  {
    assert ([c] + rest)[1..] == rest;
  }

  /** A whole number written as the digits `d`, not followed by a digit, `.` or `%`. */
  lemma WholeToken(d: string, rest: string)
    requires AllDigits(d) && d != []
    requires rest == [] || (!IsDigit(rest[0]) && rest[0] != '.' && rest[0] != '%')
    ensures Tokenize(d + rest) == [Number(DigitsValue(d) as real, false)] + Tokenize(rest)
  {
    WholeLiteral(d, rest);
    assert (d + rest)[|d|..] == rest;
  }

  /** A whole number written as the digits `d` directly followed by `%`. */
  lemma PercentToken(d: string, rest: string)
    requires AllDigits(d) && d != []
    ensures Tokenize(d + "%" + rest) == [Number(DigitsValue(d) as real, true)] + Tokenize(rest)
  {
    var s := d + "%" + rest;
    assert s == d + ("%" + rest);
    WholeLiteral(d, "%" + rest);
    assert s[|d|] == '%';
    assert s[|d| + 1..] == rest;
  }

  /** The number `d.f`, not followed by a digit or `%`. */
  lemma FractionToken(d: string, f: string, rest: string)
    requires AllDigits(d) && d != [] && AllDigits(f)
    requires rest == [] || (!IsDigit(rest[0]) && rest[0] != '%')
    ensures Tokenize(d + "." + f + rest) == [Number(DecimalValue(d, f), false)] + Tokenize(rest)
  {
    var s := d + "." + f + rest;
    FractionLiteral(d, f, rest);
    assert s[|d| + 1 + |f|..] == rest;
  }

  /** The loop state: `current_value` and `last_operator`. */
  datatype Acc = Acc(current: Option<real>, lastOp: Option<char>)

  const Start := Acc(None, None)

  /** `current_value OP= operand` for the operators the chain of `elif`s names, and `None`
      for any other operator. Division by zero raises. */
  function Operate(op: char, current: real, operand: real): (r: Option<Outcome<real>>)
    ensures r.None? <==> !IsOperatorChar(op)
    ensures r.Some? ==> (r.value.Raised? <==> (op in "÷/" && operand == 0.0))
    ensures r.Some? && r.value.Raised? ==> r.value.fault == ZeroDivision
    ensures r.Some? ==> !r.value.Diverged?
  {
    if op == '+' then Some(Done(current + operand))
    else if op == '-' then Some(Done(current - operand))
    else if op == '×' || op == '*' then Some(Done(current * operand))
    else if op == '÷' || op == '/' then
      Some(if operand == 0.0 then Raised(ZeroDivision) else Done(current / operand))
    else None
  }

  /** One iteration of the loop body. An operator is remembered. A percentage `p%` reads as
      `p/100`; after `+` or `-` it adds or removes that share of the current value, after
      `×` or `÷` it multiplies or divides by it, and with no operator yet it replaces the
      current value; with an operator but no current value the source computes on `None`
      and raises `TypeError`. A plain number becomes the current value when there is none,
      is combined by the last operator otherwise, and is dropped when there is no operator. */
  function Step(acc: Acc, t: Token): (r: Outcome<Acc>)
    ensures !r.Diverged?
    ensures r.Done? && acc.current.Some? ==> r.value.current.Some?
    ensures r.Done? && t.Number? ==> r.value.current.Some?
    ensures r.Done? && t.Number? ==> r.value.lastOp == acc.lastOp
    ensures r.Raised? ==> t.Number? && (r.fault == TypeError || r.fault == ZeroDivision)
  {
    match t
    case Operator(o) => Done(Acc(acc.current, Some(o)))
    case Number(v, percent) =>
      if percent then
        var num := Percent(v);
        if acc.lastOp.None? || !IsOperatorChar(acc.lastOp.value) then Done(Acc(Some(num), acc.lastOp))
        else if acc.current.None? then Raised(TypeError)
        else
          Resume(Operate(acc.lastOp.value, acc.current.value, PercentOperand(acc.lastOp.value, acc.current.value, num)).value, acc.lastOp)
      else if acc.current.None? then Done(Acc(Some(v), acc.lastOp))
      else if acc.lastOp.None? || !IsOperatorChar(acc.lastOp.value) then Done(acc)
      else Resume(Operate(acc.lastOp.value, acc.current.value, v).value, acc.lastOp)
  }

  /** What a percentage contributes: a share of the current value after `+` or `-`, the
      fraction itself after `×` or `÷`. */
  function PercentOperand(op: char, current: real, fraction: real): real
  {
    if op == '+' || op == '-' then current * fraction else fraction
  }

  /** The fraction `float(p) / 100` a token `p%` stands for. */
  function Percent(v: real): real
  {
    v / 100.0
  }

  /** A percentage `p%` stands for the fraction `p/100`: with no operator seen it becomes
      the value, and after an operator but before any number it raises `TypeError`. */
  lemma PercentAlone(acc: Acc, p: real)
    ensures var r := Step(acc, Number(p, true));
      (acc.lastOp.None? ==> r == Done(Acc(Some(Percent(p)), acc.lastOp)))
      && (acc.lastOp.Some? && IsOperatorChar(acc.lastOp.value) && acc.current.None? ==> r == Raised(TypeError))
  {
  }

  /** After `+` or `-` a percentage grows or shrinks the value by that share of itself. */
  lemma PercentShare(c: real, o: char, p: real)
    requires o == '+' || o == '-'
    ensures var r := Step(Acc(Some(c), Some(o)), Number(p, true));
      var share := c * Percent(p);
      r == Done(Acc(Some(if o == '+' then c + share else c - share), Some(o)))
  {
    assert o in "+-×÷*/" by {
      assert "+-×÷*/"[0] == '+' && "+-×÷*/"[1] == '-';
    }
  }

  /** After `×` a percentage multiplies by the fraction: the new value is `c·p/100`. */
  lemma PercentScales(c: real, o: char, p: real)
    requires o == '×' || o == '*'
    ensures var r := Step(Acc(Some(c), Some(o)), Number(p, true));
      r.Done? && r.value.lastOp == Some(o) && r.value.current.Some?
      && r.value.current.value * 100.0 == c * p
  {
    assert o in "+-×÷*/" by {
      assert "+-×÷*/"[2] == '×' && "+-×÷*/"[4] == '*';
    }
  }

  /** After `÷` a percentage divides by the fraction, and `0%` is a zero divisor. */
  lemma PercentDivides(c: real, o: char, p: real)
    requires o == '÷' || o == '/'
    ensures var r := Step(Acc(Some(c), Some(o)), Number(p, true));
      r == if p == 0.0 then Raised(ZeroDivision) else Done(Acc(Some(c / Percent(p)), Some(o)))
  {
    assert o in "+-×÷*/" by {
      assert "+-×÷*/"[3] == '÷' && "+-×÷*/"[5] == '/';
    }
  }

  function Resume(r: Outcome<real>, lastOp: Option<char>): (a: Outcome<Acc>)
    ensures a.Done? <==> r.Done?
    ensures a.Done? ==> a.value == Acc(Some(r.value), lastOp)
    ensures a.Raised? <==> r.Raised?
    ensures a.Raised? ==> a.fault == r.fault
  {
    match r
    case Done(v) => Done(Acc(Some(v), lastOp))
    case Raised(f) => Raised(f)
    case Diverged => Diverged
  }

  /** The `for token in tokens` loop from a given state; the first raise ends it. */
  function Fold(acc: Acc, ts: seq<Token>): (r: Outcome<Acc>)
    ensures !r.Diverged?
    ensures r.Raised? ==> r.fault == TypeError || r.fault == ZeroDivision
    ensures r.Done? && acc.current.Some? ==> r.value.current.Some?
    decreases |ts|
  {
    if ts == [] then Done(acc)
    else
      match Step(acc, ts[0])
      case Done(next) => Fold(next, ts[1..])
      case Raised(f) => Raised(f)
  }

  /** The value `evaluate_simple_expression` returns for its tokens: `current_value` at the
      end of the loop, `None` when no number was read. */
  function Reduce(ts: seq<Token>): (r: Outcome<Option<real>>)
    ensures !r.Diverged?
    ensures r.Raised? ==> r.fault == TypeError || r.fault == ZeroDivision
  {
    match Fold(Start, ts)
    case Done(acc) => Done(acc.current)
    case Raised(f) => Raised(f)
    case Diverged => Diverged
  }

  /** The loop, written as the source writes it. */
  method Accumulate(tokens: seq<Token>) returns (r: Outcome<Option<real>>)
    ensures r == Reduce(tokens)
  {
    var current: Option<real> := None;
    var lastOp: Option<char> := None;
    for i := 0 to |tokens|
      invariant Fold(Start, tokens) == Fold(Acc(current, lastOp), tokens[i..])
    {
      assert tokens[i..][1..] == tokens[i + 1..];
      assert tokens[i..][0] == tokens[i];
      var token := tokens[i];
      match token {
        case Operator(o) =>
          lastOp := Some(o);
        case Number(v, percent) =>
          var num := if percent then Percent(v) else v;
          if percent && (lastOp.None? || !IsOperatorChar(lastOp.value)) {
            current := Some(num);
          } else if current.None? {
            if percent {
              return Raised(TypeError);
            }
            current := Some(num);
          } else if lastOp.Some? && IsOperatorChar(lastOp.value) {
            var operand := if percent then PercentOperand(lastOp.value, current.value, num) else num;
            var next := Operate(lastOp.value, current.value, operand).value;
            if next.Raised? {
              return Raised(next.fault);
            }
            current := Some(next.value);
          }
      }
    }
    assert tokens[|tokens|..] == [];
    return Done(current);
  }

  /** Reduce returns `None` exactly when no number token is read, and never loops. */
  lemma {:induction false} NoneWithoutNumbers(acc: Acc, ts: seq<Token>)
    requires acc.current.None?
    ensures Fold(acc, ts).Done? && Fold(acc, ts).value.current.None? <==> !HasNumber(ts)
    decreases |ts|
  {
    if ts != [] {
      if ts[0].Number? {
        assert HasNumber(ts);
      } else {
        var next := Acc(acc.current, Some(ts[0].symbol));
        NoneWithoutNumbers(next, ts[1..]);
        assert HasNumber(ts) <==> HasNumber(ts[1..]) by {
          if HasNumber(ts) {
            var k :| 0 <= k < |ts| && ts[k].Number?;
            assert k > 0 && ts[1..][k - 1] == ts[k];
          }
          if HasNumber(ts[1..]) {
            var k :| 0 <= k < |ts[1..]| && ts[1..][k].Number?;
            assert ts[k + 1] == ts[1..][k];
          }
        }
      }
    }
  }

  lemma ReduceNone(ts: seq<Token>)
    ensures Reduce(ts) == Done(None) <==> !HasNumber(ts)
  {
    NoneWithoutNumbers(Start, ts);
  }

  /** The first number read is a percentage and the operator last seen before it is one
      of the six: the case in which the source computes on `None`. */
  function PercentOnNothing(ts: seq<Token>, afterOperator: bool): bool
  {
    if ts == [] then false
    else if ts[0].Operator? then PercentOnNothing(ts[1..], IsOperatorChar(ts[0].symbol))
    else ts[0].percent && afterOperator
  }

  lemma {:induction false} NoTypeErrorOnceStarted(acc: Acc, ts: seq<Token>)
    requires acc.current.Some?
    ensures Fold(acc, ts) != Raised(TypeError)
    decreases |ts|
  {
    if ts != [] {
      var s := Step(acc, ts[0]);
      if s.Done? {
        NoTypeErrorOnceStarted(s.value, ts[1..]);
      }
    }
  }

  lemma {:induction false} TypeErrorFrom(acc: Acc, ts: seq<Token>)
    requires acc.current.None?
    ensures Fold(acc, ts) == Raised(TypeError)
        <==> PercentOnNothing(ts, acc.lastOp.Some? && IsOperatorChar(acc.lastOp.value))
    decreases |ts|
  {
    if ts != [] {
      var s := Step(acc, ts[0]);
      if ts[0].Operator? {
        TypeErrorFrom(s.value, ts[1..]);
      } else if s.Done? {
        NoTypeErrorOnceStarted(s.value, ts[1..]);
      }
    }
  }

  /** The only `TypeError` the loop raises is a percentage that comes before any number but
      after an operator, as in `+50%`; then nothing else is evaluated. */
  lemma TypeErrorExactly(ts: seq<Token>)
    ensures Reduce(ts) == Raised(TypeError) <==> PercentOnNothing(ts, false)
  {
    TypeErrorFrom(Start, ts);
  }

  /** An operator followed by an operand. */
  datatype Link = Link(op: char, operand: real)

  /** The tokens of the chain `first o1 a1 o2 a2 …`, with no percentages. */
  function ChainTokens(first: real, links: seq<Link>): (ts: seq<Token>)
    ensures |ts| == 1 + 2 * |links|
  {
    [Number(first, false)] + LinkTokens(links)
  }

  function LinkTokens(links: seq<Link>): (ts: seq<Token>)
    ensures |ts| == 2 * |links|
  {
    if links == [] then [] else [Operator(links[0].op), Number(links[0].operand, false)] + LinkTokens(links[1..])
  }

  /** The reference reading of a chain: strictly from left to right, each operator applied
      to the value so far, as a simple four-function calculator does. */
  function LeftToRight(value: real, links: seq<Link>): Outcome<real>
    requires forall k | 0 <= k < |links| :: IsOperatorChar(links[k].op)
    decreases |links|
  {
    if links == [] then Done(value)
    else
      var l := links[0];
      var r := if l.op == '+' then Done(value + l.operand)
        else if l.op == '-' then Done(value - l.operand)
        else if l.op == '×' || l.op == '*' then Done(value * l.operand)
        else if l.operand == 0.0 then Raised(ZeroDivision)
        else Done(value / l.operand);
      match r
      case Done(v) => LeftToRight(v, links[1..])
      case Raised(f) => Raised(f)
      case Diverged => Diverged
  }

  lemma {:induction false} ChainFold(value: real, lastOp: Option<char>, links: seq<Link>)
    requires forall k | 0 <= k < |links| :: IsOperatorChar(links[k].op)
    ensures var f := Fold(Acc(Some(value), lastOp), LinkTokens(links));
      var g := LeftToRight(value, links);
      (f.Done? <==> g.Done?) && (f.Done? ==> f.value.current == Some(g.value))
        && (f.Raised? ==> g.Raised? && f.fault == g.fault)
    decreases |links|
  {
    if links != [] {
      var l := links[0];
      var ts := LinkTokens(links);
      assert ts[1..][1..] == LinkTokens(links[1..]);
      var a := Acc(Some(value), Some(l.op));
      var r := Operate(l.op, value, l.operand).value;
      if r.Done? {
        ChainFold(r.value, Some(l.op), links[1..]);
      }
    }
  }

  /** The fold evaluates a chain of plain numbers strictly from left to right: no operator
      binds tighter than another, so `2+3×4` is `20`. */
  lemma ChainIsLeftToRight(first: real, links: seq<Link>)
    requires forall k | 0 <= k < |links| :: IsOperatorChar(links[k].op)
    ensures var r := Reduce(ChainTokens(first, links));
      var g := LeftToRight(first, links);
      (r.Done? <==> g.Done?) && (r.Done? ==> r.value == Some(g.value))
        && (r.Raised? ==> g.Raised? && r.fault == g.fault)
  {
    var ts := ChainTokens(first, links);
    assert ts[1..] == LinkTokens(links);
    ChainFold(first, None, links);
  }

  /** A sign before the first number is ignored: `-5+1` is `6`. */
  lemma LeadingSignIgnored(o: char, v: real, p: char, ts: seq<Token>)
    requires IsOperatorChar(o) && IsOperatorChar(p)
    ensures Reduce([Operator(o), Number(v, false), Operator(p)] + ts)
         == Reduce([Number(v, false), Operator(p)] + ts)
  {
    var a := [Operator(o), Number(v, false), Operator(p)] + ts;
    var b := [Number(v, false), Operator(p)] + ts;
    assert a[1..] == b;
    assert b[1..][1..] == ts;
    var started := Acc(Some(v), Some(p));
    assert Fold(Start, a) == Fold(Acc(None, Some(o)), b);
    assert Fold(Acc(None, Some(o)), b) == Fold(Acc(Some(v), Some(o)), b[1..]);
    assert Fold(Acc(Some(v), Some(o)), b[1..]) == Fold(started, ts);
    assert Fold(Start, b) == Fold(Acc(Some(v), None), b[1..]);
    assert Fold(Acc(Some(v), None), b[1..]) == Fold(started, ts);
  }
}
