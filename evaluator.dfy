/** `evaluate_expression`: validation, the root loop, the parenthesis loop, the final simple
    evaluation, formatting, and the mapping of exceptions to messages. Every rewrite loop is
    bounded by `fuel` passes; a loop still running when its passes run out is `Diverged`. */
module Evaluator {
  import opened Runtime
  import opened Text
  import opened Numerals
  import opened SimpleEval
  import opened Formatting

  /** An entry of the history panel: the input as typed and the formatted result. */
  datatype HistoryItem = HistoryItem(expression: string, result: string)

  /** What `evaluate_expression` does with an input: returns the formatted result and
      records it in the history, returns a message and records nothing, or never returns. */
  datatype Reply = Formatted(text: string) | Message(text: string) | Hangs

  /** `\d+\.\d+\.` matched from the last digit of its first run, at the start of `s`. */
  predicate DoubleDotAt(s: string)
  {
    |s| >= 3 && IsDigit(s[0]) && s[1] == '.'
    && var d := DigitRun(s[2..]); d > 0 && 2 + d < |s| && s[2 + d] == '.'
  }

  /** `re.search(r'\d+\.\d+\.', s)` finds a match. */
  predicate HasDoubleDot(s: string)
    decreases |s|
  {
    s != [] && (DoubleDotAt(s) || HasDoubleDot(s[1..]))
  }

  /** The search succeeds exactly when a match starts at some position. */
  lemma {:induction false} DoubleDotSearch(s: string)
    ensures HasDoubleDot(s) <==> exists j | 0 <= j < |s| :: DoubleDotAt(s[j..])
    decreases |s|
  {
    if s != [] {
      DoubleDotSearch(s[1..]);
      if DoubleDotAt(s) {
        assert s[0..] == s;
      }
      if HasDoubleDot(s[1..]) {
        var j :| 0 <= j < |s[1..]| && DoubleDotAt(s[1..][j..]);
        assert s[1..][j..] == s[j + 1..];
      }
      if j :| 0 <= j < |s| && DoubleDotAt(s[j..]) {
        if j > 0 {
          assert s[1..][j - 1..] == s[j..];
        } else {
          assert s[j..] == s;
        }
      }
    }
  }

  /** A digit, a point, digits and a second point anywhere in the input is a match. */
  lemma DoubleDotWitness(s: string, i: nat, k: nat)
    requires i + 2 < k < |s| && IsDigit(s[i]) && s[i + 1] == '.' && s[k] == '.'
    requires AllDigits(s[i + 2..k])
    ensures HasDoubleDot(s)
  {
    var t := s[i..];
    assert t[2..k - i] == s[i + 2..k];
    DoubleDotAtStart(t, k - i);
    DoubleDotSearch(s);
  }

  /** A digit, a point, digits and a second point at position `m` is a match at the start. */
  lemma DoubleDotAtStart(t: string, m: nat)
    requires 2 < m < |t| && IsDigit(t[0]) && t[1] == '.' && t[m] == '.'
    requires AllDigits(t[2..m])
    ensures DoubleDotAt(t)
  {
    assert t[2..] == t[2..m] + t[m..];
    DigitRunOf(t[2..m], t[m..]);
  }

  /** The three checks, in order: the first that fails gives the returned message. */
  function Validate(s: string): (m: Option<string>)
    ensures m == Some("Input too long") <==> |s| > 100
    ensures m == Some("Unbalanced parentheses") <==> |s| <= 100 && Count(s, '(') != Count(s, ')')
    ensures m == Some("Invalid number")
      <==> |s| <= 100 && Count(s, '(') == Count(s, ')') && HasDoubleDot(s)
    ensures m == None <==> |s| <= 100 && Count(s, '(') == Count(s, ')') && !HasDoubleDot(s)
  {
    if |s| > 100 then Some("Input too long")
    else if Count(s, '(') != Count(s, ')') then Some("Unbalanced parentheses")
    else if HasDoubleDot(s) then Some("Invalid number")
    else None
  }

  /** `head` written before the text a pass produces, if it produces one. */
  function Prefix(head: string, o: Outcome<string>): (r: Outcome<string>)
  {
    match o
    case Done(t) => Done(head + t)
    case Raised(f) => Raised(f)
    case Diverged => Diverged
  }

  /** The length of the group `g` of a `√\(([^)]+)\)` match at the start of `t`, or 0 when
      there is none. The group runs to the first `)`, whatever it holds. */
  function RootGroupLen(t: string): (n: nat)
    ensures n > 0 ==> 3 + n <= |t| && t[0] == '√' && t[1] == '(' && t[2 + n] == ')'
  {
    if |t| >= 2 && t[0] == '√' && t[1] == '(' then
      var u := t[2..];
      var n := RunAvoiding(u, {')'});
      if n < |u| then assert u[n] == t[2 + n]; n else 0
    else 0
  }

  /** `√(g)` followed by anything matches with group `g` when `g` is not empty and holds no
      `)`; with an empty group nothing matches. */
  lemma RootGroupOf(g: string, rest: string)
    requires ')' !in g
    ensures RootGroupLen("√(" + g + ")" + rest) == |g|
  {
    var t := "√(" + g + ")" + rest;
    assert t[0] == '√' && t[1] == '(';
    assert t[2..] == g + ")" + rest;
    forall i | 0 <= i < |g| ensures g[i] !in {')'} {
      assert g[i] in g;
    }
    assert g + ")" + rest == g + (")" + rest);
    RunAvoidingStops(g, ")" + rest, {')'});
  }

  /** A run avoiding `stops` over `a` stops at the first character of `b`, when that one is
      a stop. */
  lemma {:induction false} RunAvoidingStops(a: string, b: string, stops: set<char>)
    requires forall i | 0 <= i < |a| :: a[i] !in stops
    requires b != [] && b[0] in stops
    ensures RunAvoiding(a + b, stops) == |a|
    decreases |a|
  {
    if a != [] {
      assert (a + b)[1..] == a[1..] + b;
      RunAvoidingStops(a[1..], b, stops);
    }
  }

  /** The replacement text for a matched `√(g)`: `str(math.sqrt(float(simple(g))))`.
      `float(None)` is a `TypeError`; a negative value is the domain error. */
  function RootOfGroup(lib: MathLib, g: string, fuel: nat): (r: Outcome<string>)
    ensures r.Raised? && r.fault == MathDomain
      ==> exists v :: Simple(lib, g, fuel) == Done(Some(v)) && v < 0.0
  {
    match Simple(lib, g, fuel)
    case Done(None) => Raised(TypeError)
    case Done(Some(v)) => if v < 0.0 then Raised(MathDomain) else Done(lib.str(lib.sqrt(v)))
    case Raised(f) => Raised(f)
    case Diverged => Diverged
  }

  /** One `re.sub(r'√\(([^)]+)\)', ...)`: the groups are evaluated from left to right, and
      the first exception ends the pass. */
  function RootGroupPass(lib: MathLib, s: string, fuel: nat): (r: Outcome<string>)
    decreases |s|
  {
    if s == [] then Done([])
    else
      var n := RootGroupLen(s);
      if n > 0 then
        match RootOfGroup(lib, s[2..2 + n], fuel)
        case Done(head) => Prefix(head, RootGroupPass(lib, s[3 + n..], fuel))
        case Raised(f) => Raised(f)
        case Diverged => Diverged
      else Prefix([s[0]], RootGroupPass(lib, s[1..], fuel))
  }

  /** One `re.sub(r'√(\d+\.?\d*)', ...)`: each root sign before a number becomes
      `str(math.sqrt(float(n)))`; the number is never negative, so this pass never raises. */
  function BareRootPass(lib: MathLib, s: string): (r: string)
    decreases |s|
  {
    if s == [] then []
    else
      var n := LiteralLen(s[1..]);
      if s[0] == '√' && n > 0 then lib.str(lib.sqrt(LiteralValue(s[1..]))) + BareRootPass(lib, s[1 + n..])
      else [s[0]] + BareRootPass(lib, s[1..])
  }

  /** At a `√(g)`, the pass writes the text of the root of `simple(g)` and goes on after the
      `)`; a group without a number, with a negative value, or whose evaluation raises ends
      the pass with that fault. */
  lemma RootGroupAtMatch(lib: MathLib, g: string, rest: string, fuel: nat)
    requires g != [] && ')' !in g
    ensures var o, r := Simple(lib, g, fuel), RootGroupPass(lib, "√(" + g + ")" + rest, fuel);
      && (o.Done? && o.value.Some? && o.value.value >= 0.0
          ==> r == Prefix(lib.str(lib.sqrt(o.value.value)), RootGroupPass(lib, rest, fuel)))
      && (o.Done? && o.value.Some? && o.value.value < 0.0 ==> r == Raised(MathDomain))
      && (o == Done(None) ==> r == Raised(TypeError))
      && (o.Raised? ==> r == Raised(o.fault))
      && (o.Diverged? ==> r == Diverged)
  {
    var s := "√(" + g + ")" + rest;
    RootGroupOf(g, rest);
    assert s[2..2 + |g|] == g;
    assert s[3 + |g|..] == rest;
    RootGroupAt(lib, s, fuel);
  }

  lemma RootGroupAt(lib: MathLib, s: string, fuel: nat)
    requires RootGroupLen(s) > 0
    ensures var n := RootGroupLen(s); var o := RootOfGroup(lib, s[2..2 + n], fuel);
      RootGroupPass(lib, s, fuel) == if o.Done? then Prefix(o.value, RootGroupPass(lib, s[3 + n..], fuel)) else o
  {
  }

  /** A buffer without a root sign passes through the group pass unchanged. */
  lemma {:induction false} RootGroupPassKeeps(lib: MathLib, s: string, fuel: nat)
    requires '√' !in s
    ensures RootGroupPass(lib, s, fuel) == Done(s)
    decreases |s|
  {
    if s != [] {
      assert s[0] != '√';
      assert '√' !in s[1..] by {
        forall i | 0 <= i < |s[1..]| ensures s[1..][i] != '√' {
          assert s[1..][i] == s[i + 1];
        }
      }
      RootGroupPassKeeps(lib, s[1..], fuel);
      assert [s[0]] + s[1..] == s;
    }
  }

  /** At a root sign before the whole number `d`, the bare pass writes the text of the root
      of `d` and goes on after the number. */
  lemma BareRootWhole(lib: MathLib, d: string, rest: string)
    requires AllDigits(d) && d != []
    requires rest == [] || (!IsDigit(rest[0]) && rest[0] != '.')
    ensures BareRootPass(lib, "√" + d + rest)
      == lib.str(lib.sqrt(DigitsValue(d) as real)) + BareRootPass(lib, rest)
  {
    var s := "√" + d + rest;
    assert s[1..] == d + rest;
    WholeLiteral(d, rest);
    assert s[1 + |d|..] == rest;
  }

  /** The same for a number `d.f`, whose point may have no digits after it. */
  lemma BareRootFraction(lib: MathLib, d: string, f: string, rest: string)
    requires AllDigits(d) && d != [] && AllDigits(f)
    requires rest == [] || !IsDigit(rest[0])
    ensures BareRootPass(lib, "√" + d + "." + f + rest)
      == lib.str(lib.sqrt(DecimalValue(d, f))) + BareRootPass(lib, rest)
  {
    var w := d + "." + f;
    FractionLiteral(d, f, rest);
    Regroup("√", d, ".", f, [], rest);
    BareRootAt(lib, w, rest);
  }

  /** A root sign before a literal `w` that the pattern takes whole. */
  lemma BareRootAt(lib: MathLib, w: string, rest: string)
    requires LiteralLen(w + rest) == |w| > 0
    ensures BareRootPass(lib, "√" + w + rest) == lib.str(lib.sqrt(LiteralValue(w + rest))) + BareRootPass(lib, rest)
  {
    var s := "√" + w + rest;
    assert s[1..] == w + rest;
    assert s[1 + |w|..] == rest;
  }

  /** A buffer without a root sign passes through the bare pass unchanged. */
  lemma {:induction false} BareRootPassKeeps(lib: MathLib, s: string)
    requires '√' !in s
    ensures BareRootPass(lib, s) == s
    decreases |s|
  {
    if s != [] {
      assert s[0] != '√';
      assert '√' !in s[1..] by {
        forall i | 0 <= i < |s[1..]| ensures s[1..][i] != '√' {
          assert s[1..][i] == s[i + 1];
        }
      }
      BareRootPassKeeps(lib, s[1..]);
      assert [s[0]] + s[1..] == s;
    }
  }

  /** A pass over the buffer, given the passes still left for the evaluations inside it. */
  type Pass = (string, nat) -> Outcome<string>

  /** `while c in expr: expr = pass(expr)`, with at most `fuel` iterations; the pass is given
      the iterations still left. */
  function Loop(pass: Pass, c: char, s: string, fuel: nat): (r: Outcome<string>)
    ensures r.Done? ==> c !in r.value
    decreases fuel
  {
    if c !in s then Done(s)
    else if fuel == 0 then Diverged
    else
      match pass(s, fuel)
      case Done(t) => Loop(pass, c, t, fuel - 1)
      case Raised(f) => Raised(f)
      case Diverged => Diverged
  }

  /** A pass that leaves the buffer as it is while `c` is in it: the loop never ends. */
  lemma {:induction false} LoopStuck(pass: Pass, c: char, s: string, fuel: nat)
    requires c in s && forall k: nat {:trigger pass(s, k)} :: pass(s, k) == Done(s)
    ensures Loop(pass, c, s, fuel) == Diverged
    decreases fuel
  {
    if fuel > 0 {
      assert pass(s, fuel) == Done(s);
      LoopStuck(pass, c, s, fuel - 1);
    }
  }

  /** The source's `while` loop, reassigning the buffer pass by pass. */
  method RunLoop(pass: Pass, c: char, expr: string, fuel: nat) returns (r: Outcome<string>)
    ensures r == Loop(pass, c, expr, fuel)
  {
    var e := expr;
    var passes := fuel;
    while c in e
      invariant Loop(pass, c, e, passes) == Loop(pass, c, expr, fuel)
      decreases passes
    {
      if passes == 0 {
        return Diverged;
      }
      var next := pass(e, passes);
      if !next.Done? {
        return next;
      }
      e := next.value;
      passes := passes - 1;
    }
    return Done(e);
  }

  /** A pass whose result, once it is reached, stays the same with more passes left. */
  ghost predicate PassMonotone(pass: Pass)
  {
    forall t: string, k: nat, m: nat {:trigger pass(t, k), pass(t, m)}
      :: k <= m && !pass(t, k).Diverged? ==> pass(t, m) == pass(t, k)
  }

  /** A loop of such a pass that ends within `fuel` iterations ends the same way with more. */
  lemma {:induction false} LoopMonotone(pass: Pass, c: char, s: string, fuel: nat, more: nat)
    requires PassMonotone(pass)
    requires fuel <= more && !Loop(pass, c, s, fuel).Diverged?
    ensures Loop(pass, c, s, more) == Loop(pass, c, s, fuel)
    decreases fuel
  {
    if c in s {
      var p := pass(s, fuel);
      assert pass(s, more) == p;
      if p.Done? {
        LoopMonotone(pass, c, p.value, fuel - 1, more - 1);
      }
    }
  }

  /** One iteration of `while '√' in expr:`: the group pass, then the bare pass over its text. */
  function RootStep(lib: MathLib, s: string, fuel: nat): Outcome<string>
  {
    match RootGroupPass(lib, s, fuel)
    case Done(t) => Done(BareRootPass(lib, t))
    case Raised(f) => Raised(f)
    case Diverged => Diverged
  }

  function RootPassOf(lib: MathLib): Pass
  {
    (s: string, fuel: nat) => RootStep(lib, s, fuel)
  }

  /** `while '√' in expr:` both root passes, with at most `fuel` iterations. */
  function RootLoop(lib: MathLib, s: string, fuel: nat): (r: Outcome<string>)
    ensures r.Done? ==> '√' !in r.value
  {
    Loop(RootPassOf(lib), '√', s, fuel)
  }

  /** The length of the group of a `\(([^()]+)\)` match at the start of `t`, or 0: an
      innermost, non-empty parenthesised group. */
  function ParenGroupLen(t: string): (n: nat)
    ensures n > 0 ==> 2 + n <= |t| && t[0] == '(' && t[1 + n] == ')'
  {
    if t != [] && t[0] == '(' then
      var u := t[1..];
      var n := RunAvoiding(u, {'(', ')'});
      if n < |u| && u[n] == ')' then assert u[n] == t[1 + n]; n else 0
    else 0
  }

  /** `(g)` followed by anything matches with group `g` when `g` is not empty and holds no
      parenthesis. */
  lemma ParenGroupOf(g: string, rest: string)
    requires '(' !in g && ')' !in g
    ensures ParenGroupLen("(" + g + ")" + rest) == |g|
  {
    var t := "(" + g + ")" + rest;
    assert t[0] == '(';
    assert t[1..] == g + ")" + rest;
    forall i | 0 <= i < |g| ensures g[i] !in {'(', ')'} {
      assert g[i] in g;
    }
    assert g + ")" + rest == g + (")" + rest);
    RunAvoidingStops(g, ")" + rest, {'(', ')'});
    assert (g + ")" + rest)[|g|] == ')';
  }

  /** The replacement text for a matched `(g)`: `str(simple(g))`, which is `"None"` when the
      group holds no number. */
  function GroupText(lib: MathLib, g: string, fuel: nat): (r: Outcome<string>)
    ensures r.Raised? ==> Simple(lib, g, fuel) == Raised(r.fault)
  {
    match Simple(lib, g, fuel)
    case Done(None) => Done("None")
    case Done(Some(v)) => Done(lib.str(v))
    case Raised(f) => Raised(f)
    case Diverged => Diverged
  }

  /** One `re.sub(r'\(([^()]+)\)', ...)`, from left to right. */
  function ParenPass(lib: MathLib, s: string, fuel: nat): (r: Outcome<string>)
    decreases |s|
  {
    if s == [] then Done([])
    else
      var n := ParenGroupLen(s);
      if n > 0 then
        match GroupText(lib, s[1..1 + n], fuel)
        case Done(head) => Prefix(head, ParenPass(lib, s[2 + n..], fuel))
        case Raised(f) => Raised(f)
        case Diverged => Diverged
      else Prefix([s[0]], ParenPass(lib, s[1..], fuel))
  }

  /** At an innermost `(g)`, the pass writes the text of `simple(g)` (`None` when the group
      holds no number) and goes on after the `)`; a fault of the group ends the pass. */
  lemma ParenAtMatch(lib: MathLib, g: string, rest: string, fuel: nat)
    requires g != [] && '(' !in g && ')' !in g
    ensures var o, r := Simple(lib, g, fuel), ParenPass(lib, "(" + g + ")" + rest, fuel);
      && (o.Done? && o.value.Some? ==> r == Prefix(lib.str(o.value.value), ParenPass(lib, rest, fuel)))
      && (o == Done(None) ==> r == Prefix("None", ParenPass(lib, rest, fuel)))
      && (o.Raised? ==> r == Raised(o.fault))
      && (o.Diverged? ==> r == Diverged)
  {
    var s := "(" + g + ")" + rest;
    ParenGroupOf(g, rest);
    assert s[1..1 + |g|] == g;
    assert s[2 + |g|..] == rest;
    ParenAt(lib, s, fuel);
  }

  lemma ParenAt(lib: MathLib, s: string, fuel: nat)
    requires ParenGroupLen(s) > 0
    ensures var n := ParenGroupLen(s); var o := GroupText(lib, s[1..1 + n], fuel);
      ParenPass(lib, s, fuel) == if o.Done? then Prefix(o.value, ParenPass(lib, s[2 + n..], fuel)) else o
  {
  }

  /** A buffer without `(` passes through the parenthesis pass unchanged. */
  lemma {:induction false} ParenPassKeeps(lib: MathLib, s: string, fuel: nat)
    requires '(' !in s
    ensures ParenPass(lib, s, fuel) == Done(s)
    decreases |s|
  {
    if s != [] {
      assert s[0] != '(';
      assert '(' !in s[1..] by {
        forall i | 0 <= i < |s[1..]| ensures s[1..][i] != '(' {
          assert s[1..][i] == s[i + 1];
        }
      }
      ParenPassKeeps(lib, s[1..], fuel);
      assert [s[0]] + s[1..] == s;
    }
  }

  function ParenPassOf(lib: MathLib): Pass
  {
    (s: string, fuel: nat) => ParenPass(lib, s, fuel)
  }

  /** `while '(' in expr:` one parenthesis pass, with at most `fuel` iterations. */
  function ParenLoop(lib: MathLib, s: string, fuel: nat): (r: Outcome<string>)
    ensures r.Done? ==> '(' !in r.value
  {
    Loop(ParenPassOf(lib), '(', s, fuel)
  }

  /** The value `evaluate_expression` formats: roots, then parentheses, then the rest;
      `abs(None)` is a `TypeError`. */
  function Compute(lib: MathLib, s: string, fuel: nat): Outcome<real>
  {
    match RootLoop(lib, s, fuel)
    case Raised(f) => Raised(f)
    case Diverged => Diverged
    case Done(a) =>
      match ParenLoop(lib, a, fuel)
      case Raised(f) => Raised(f)
      case Diverged => Diverged
      case Done(b) =>
        match Simple(lib, b, fuel)
        case Done(None) => Raised(TypeError)
        case Done(Some(v)) => Done(v)
        case Raised(f) => Raised(f)
        case Diverged => Diverged
  }

  /** The `except` clauses: the domain error, the zero division, and everything else. */
  function FaultMessage(f: Fault): (m: string)
    ensures m == "Invalid sqrt input" <==> f == MathDomain
    ensures m == "Cannot divide by 0" <==> f == ZeroDivision
    ensures m == "Error" <==> f == TypeError
  {
    match f
    case MathDomain => "Invalid sqrt input"
    case ZeroDivision => "Cannot divide by 0"
    case TypeError => "Error"
  }

  /** The reply to the outcome of the checks and, when they pass, of the computation. */
  function Respond(lib: MathLib, check: Option<string>, computed: Outcome<real>): Reply
  {
    match check
    case Some(m) => Message(m)
    case None =>
      match computed
      case Done(v) => Formatted(Format(lib, v))
      case Raised(f) => Message(FaultMessage(f))
      case Diverged => Hangs
  }

  /** `evaluate_expression(s)` without its history update. */
  function Evaluate(lib: MathLib, s: string, fuel: nat): (r: Reply)
    ensures r.Formatted? <==> Validate(s).None? && Compute(lib, s, fuel).Done?
    ensures r == Hangs <==> Validate(s).None? && Compute(lib, s, fuel).Diverged?
    ensures r.Message? ==> r.text in Messages
  {
    ReplyCauses(lib, Validate(s), Compute(lib, s, fuel));
    Respond(lib, Validate(s), Compute(lib, s, fuel))
  }

  /** Every message the evaluation can answer with: the three checks' and the three
      `except` clauses'. */
  const Messages := {"Input too long", "Unbalanced parentheses", "Invalid number",
    "Invalid sqrt input", "Cannot divide by 0", "Error"}

  /** An expression with neither a root nor a parenthesis goes straight to the simple
      evaluation, whose `None` becomes the `TypeError` of `abs(None)`. */
  lemma ComputePlain(lib: MathLib, s: string, fuel: nat)
    requires '√' !in s && '(' !in s
    ensures Simple(lib, s, fuel).Done? && Simple(lib, s, fuel).value.Some?
      ==> Compute(lib, s, fuel) == Done(Simple(lib, s, fuel).value.value)
    ensures Simple(lib, s, fuel) == Done(None) ==> Compute(lib, s, fuel) == Raised(TypeError)
    ensures Simple(lib, s, fuel).Raised? ==> Compute(lib, s, fuel) == Raised(Simple(lib, s, fuel).fault)
    ensures Simple(lib, s, fuel).Diverged? ==> Compute(lib, s, fuel) == Diverged
  {
  }

  /** Every entry of a history holds an expression with the result it evaluates to. */
  predicate Recorded(lib: MathLib, fuel: nat, history: seq<HistoryItem>)
  {
    forall i {:trigger Evaluate(lib, history[i].expression, fuel)} | 0 <= i < |history| ::
      Evaluate(lib, history[i].expression, fuel) == Formatted(history[i].result)
  }

  /** Each reply comes from exactly one cause: a formatted result from a computation that
      ends, each error message from a failed check or from its one fault, and no reply from
      a computation that does not end. */
  lemma ReplyCauses(lib: MathLib, check: Option<string>, computed: Outcome<real>)
    requires check == None || check == Some("Input too long")
      || check == Some("Unbalanced parentheses") || check == Some("Invalid number")
    ensures var r := Respond(lib, check, computed);
      (r.Formatted? <==> check.None? && computed.Done?)
      && (r.Formatted? ==> r.text == Format(lib, computed.value))
      && (r == Hangs <==> check.None? && computed.Diverged?)
      && (r == Message("Cannot divide by 0") <==> check.None? && computed == Raised(ZeroDivision))
      && (r == Message("Invalid sqrt input") <==> check.None? && computed == Raised(MathDomain))
      && (r == Message("Error") <==> check.None? && computed == Raised(TypeError))
      && (check.Some? ==> r == Message(check.value))
  {
    if check.None? && computed.Raised? {
      assert Respond(lib, check, computed) == Message(FaultMessage(computed.fault));
    }
  }

  /** Once `evaluate_simple_expression` ends within `fuel` passes, more passes change nothing. */
  lemma SimpleMonotone(lib: MathLib, s: string, fuel: nat, more: nat)
    requires fuel <= more && !Simple(lib, s, fuel).Diverged?
    ensures Simple(lib, s, more) == Simple(lib, s, fuel)
  {
    PowerLoopMonotone(lib, SqrtCallPass(Normalize(s)), fuel, more);
  }

  /** The replacement for one root group, once reached, is the same with more fuel. */
  lemma RootOfGroupMonotone(lib: MathLib, g: string, fuel: nat, more: nat)
    requires fuel <= more && !RootOfGroup(lib, g, fuel).Diverged?
    ensures RootOfGroup(lib, g, more) == RootOfGroup(lib, g, fuel)
  {
    SimpleMonotone(lib, g, fuel, more);
  }

  /** The replacement for one parenthesised group, once reached, is the same with more fuel. */
  lemma GroupTextMonotone(lib: MathLib, g: string, fuel: nat, more: nat)
    requires fuel <= more && !GroupText(lib, g, fuel).Diverged?
    ensures GroupText(lib, g, more) == GroupText(lib, g, fuel)
  {
    SimpleMonotone(lib, g, fuel, more);
  }

  /** A root-group pass that ends within `fuel` gives the same text with more fuel. */
  lemma {:induction false} RootGroupPassMonotone(lib: MathLib, s: string, fuel: nat, more: nat)
    requires fuel <= more && !RootGroupPass(lib, s, fuel).Diverged?
    ensures RootGroupPass(lib, s, more) == RootGroupPass(lib, s, fuel)
    decreases |s|
  {
    if s != [] {
      var n := RootGroupLen(s);
      if n > 0 {
        var g := s[2..2 + n];
        RootOfGroupMonotone(lib, g, fuel, more);
        if RootOfGroup(lib, g, fuel).Done? {
          RootGroupPassMonotone(lib, s[3 + n..], fuel, more);
        }
      } else {
        RootGroupPassMonotone(lib, s[1..], fuel, more);
      }
    }
  }

  /** A root loop that ends within `fuel` passes ends the same way with more. */
  lemma RootLoopMonotone(lib: MathLib, s: string, fuel: nat, more: nat)
    requires fuel <= more && !RootLoop(lib, s, fuel).Diverged?
    ensures RootLoop(lib, s, more) == RootLoop(lib, s, fuel)
  {
    var pass := RootPassOf(lib);
    forall t: string, k: nat, m: nat | k <= m && !pass(t, k).Diverged?
      ensures pass(t, m) == pass(t, k)
    {
      RootGroupPassMonotone(lib, t, k, m);
    }
    LoopMonotone(pass, '√', s, fuel, more);
  }

  /** A parenthesis pass that ends within `fuel` gives the same text with more fuel. */
  lemma {:induction false} ParenPassMonotone(lib: MathLib, s: string, fuel: nat, more: nat)
    requires fuel <= more && !ParenPass(lib, s, fuel).Diverged?
    ensures ParenPass(lib, s, more) == ParenPass(lib, s, fuel)
    decreases |s|
  {
    if s != [] {
      var n := ParenGroupLen(s);
      if n > 0 {
        var g := s[1..1 + n];
        GroupTextMonotone(lib, g, fuel, more);
        if GroupText(lib, g, fuel).Done? {
          ParenPassMonotone(lib, s[2 + n..], fuel, more);
        }
      } else {
        ParenPassMonotone(lib, s[1..], fuel, more);
      }
    }
  }

  /** A parenthesis loop that ends within `fuel` passes ends the same way with more. */
  lemma ParenLoopMonotone(lib: MathLib, s: string, fuel: nat, more: nat)
    requires fuel <= more && !ParenLoop(lib, s, fuel).Diverged?
    ensures ParenLoop(lib, s, more) == ParenLoop(lib, s, fuel)
  {
    var pass := ParenPassOf(lib);
    forall t: string, k: nat, m: nat | k <= m && !pass(t, k).Diverged?
      ensures pass(t, m) == pass(t, k)
    {
      ParenPassMonotone(lib, t, k, m);
    }
    LoopMonotone(pass, '(', s, fuel, more);
  }

  /** The fuel only decides whether an answer is reached, never which answer: an input that
      gets a reply within `fuel` passes per loop gets the same reply with any more. */
  lemma EvaluateMonotone(lib: MathLib, s: string, fuel: nat, more: nat)
    requires fuel <= more && Evaluate(lib, s, fuel) != Hangs
    ensures Evaluate(lib, s, more) == Evaluate(lib, s, fuel)
  {
    if Validate(s).None? {
      RootLoopMonotone(lib, s, fuel, more);
      var a := RootLoop(lib, s, fuel);
      if a.Done? {
        ParenLoopMonotone(lib, a.value, fuel, more);
        var b := ParenLoop(lib, a.value, fuel);
        if b.Done? {
          SimpleMonotone(lib, b.value, fuel, more);
        }
      }
    }
  }
}
