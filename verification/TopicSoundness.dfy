/** WHERE expressions, their tokens and their truth; the analysis reads the tokens back
    exactly, so the topics it proves cover every row that the expression keeps. */
module TopicSoundness {
  import opened Bytes
  import opened TopicNarrowing

  /** SQL truth values. */
  datatype Truth = Yes | No | Unknown

  datatype Row = Row(topic0: Option<string>, fields: seq<string>)

  /** Predicates that the analysis does not look into have some arbitrary meaning. */
  type Oracle = (seq<Token>, Row) -> Truth

  datatype Expr =
    | Disj(parts: Parts)
    | Conj(parts: Parts)
    | Paren(inner: Expr)
    | TopicEq(literal: Token)
    | TopicIn(literals: seq<Token>)
    | Between(operand: seq<Token>, low: seq<Token>, high: seq<Token>)
    | Opaque(tokens: seq<Token>)

  datatype Parts = Last(e: Expr) | Then(e: Expr, rest: Parts)

  // ---- Tokens of an expression ----

  function Render(e: Expr): seq<Token> {
    match e
    case Disj(parts) => RenderAll(parts, "or")
    case Conj(parts) => RenderAll(parts, "and")
    case Paren(inner) => ["("] + Render(inner) + [")"]
    case TopicEq(literal) => ["topic0", "=", literal]
    case TopicIn(literals) => ["topic0", "in", "("] + Commas(literals) + [")"]
    case Between(operand, low, high) => operand + ["between"] + low + ["and"] + high
    case Opaque(tokens) => tokens
  }

  function RenderAll(parts: Parts, op: Token): seq<Token> {
    match parts
    case Last(e) => Render(e)
    case Then(e, rest) => Render(e) + [op] + RenderAll(rest, op)
  }

  function Renders(parts: Parts): seq<seq<Token>> {
    match parts
    case Last(e) => [Render(e)]
    case Then(e, rest) => [Render(e)] + Renders(rest)
  }

  function Commas(literals: seq<Token>): seq<Token> {
    if literals == [] then []
    else if |literals| == 1 then literals
    else [literals[0], ","] + Commas(literals[1..])
  }

  /** Balanced tokens without AND, OR or BETWEEN outside parentheses. */
  predicate PlainFrom(ts: seq<Token>, depth: nat) {
    if ts == [] then depth == 0
    else
      var d := depth + Delta(ts[0]);
      d >= 0 && (d == 0 ==> ts[0] !in {"or", "and", "between"}) && PlainFrom(ts[1..], d)
  }

  /** AND binds tighter than OR; anything else inside them is a predicate or in parentheses.
      A predicate that looks like a topic test or is wrapped in parentheses is represented as such. */
  predicate WellFormed(e: Expr) {
    match e
    case Disj(parts) => parts.Then? && AllWellFormed(parts, true)
    case Conj(parts) => parts.Then? && AllWellFormed(parts, false)
    case Paren(inner) => WellFormed(inner)
    case TopicEq(literal) => TopicLiteral(literal)
    case TopicIn(literals) => literals != [] && AllLiterals(literals)
    case Between(operand, low, high) => PlainFrom(operand, 0) && PlainFrom(low, 0) && PlainFrom(high, 0)
    case Opaque(tokens) => tokens != [] && PlainFrom(tokens, 0) && !Wrapped(tokens) && AtomTopics(tokens).None?
  }

  predicate AllWellFormed(parts: Parts, conjunctions: bool) {
    && WellFormed(parts.e) && !parts.e.Disj? && (parts.e.Conj? ==> conjunctions)
    && (parts.Then? ==> AllWellFormed(parts.rest, conjunctions))
  }

  // ---- Truth ----

  function And(a: Truth, b: Truth): Truth {
    if a == No || b == No then No else if a == Yes && b == Yes then Yes else Unknown
  }

  function Or(a: Truth, b: Truth): Truth {
    if a == Yes || b == Yes then Yes else if a == No && b == No then No else Unknown
  }

  /** A literal spells the topic between its quotes. */
  function Quoted(topic: string): Token {
    "'" + topic + "'"
  }

  /** Whether the row's topic is one of the literals. */
  function SpelledBy(row: Row, literals: seq<Token>): Truth {
    if row.topic0.None? then Unknown else if Quoted(row.topic0.value) in literals then Yes else No
  }

  function Eval(oracle: Oracle, e: Expr, row: Row): Truth
    requires WellFormed(e)
  {
    match e
    case Disj(parts) => EvalAll(oracle, parts, true, row)
    case Conj(parts) => EvalAll(oracle, parts, false, row)
    case Paren(inner) => Eval(oracle, inner, row)
    case TopicEq(literal) => SpelledBy(row, [literal])
    case TopicIn(literals) => SpelledBy(row, literals)
    case Between(_, _, _) => oracle(Render(e), row)
    case Opaque(tokens) => oracle(tokens, row)
  }

  function EvalAll(oracle: Oracle, parts: Parts, disjunction: bool, row: Row): Truth
    requires AllWellFormed(parts, disjunction)
  {
    var first := Eval(oracle, parts.e, row);
    if parts.Last? then first
    else if disjunction then Or(first, EvalAll(oracle, parts.rest, disjunction, row))
    else And(first, EvalAll(oracle, parts.rest, disjunction, row))
  }

  // ---- What the analysis finds, by the structure of the expression ----

  function Proven(e: Expr): Option<Topics>
    requires WellFormed(e)
  {
    match e
    case Disj(parts) => Union(AllProven(parts, true))
    case Conj(parts) => Intersection(AllProven(parts, false))
    case Paren(inner) => Proven(inner)
    case TopicEq(literal) => Some(LiteralTopics([literal]))
    case TopicIn(literals) => Some(LiteralTopics(literals))
    case Between(_, _, _) => None
    case Opaque(_) => None
  }

  function AllProven(parts: Parts, conjunctions: bool): seq<Option<Topics>>
    requires AllWellFormed(parts, conjunctions)
  {
    [Proven(parts.e)] + if parts.Last? then [] else AllProven(parts.rest, conjunctions)
  }

  // ---- Walking tokens ----

  /** Parenthesis depth after the tokens, None if it ever falls below zero. */
  function DepthAfter(ts: seq<Token>, depth: nat): Option<nat> {
    if ts == [] then Some(depth)
    else if depth + Delta(ts[0]) < 0 then None
    else DepthAfter(ts[1..], depth + Delta(ts[0]))
  }

  /** Depth and BETWEEN flag after tokens at which the splitter does not split. */
  function Skip(op: Token, ts: seq<Token>, depth: nat, between: bool): Option<(nat, bool)> {
    if ts == [] then Some((depth, between))
    else
      var t, d := ts[0], depth + Delta(ts[0]);
      if d < 0 then None
      else if d > 0 then Skip(op, ts[1..], d, between)
      else if t == "between" then Skip(op, ts[1..], d, true)
      else if t == "and" && between then Skip(op, ts[1..], d, false)
      else if t == op then None
      else Skip(op, ts[1..], d, between)
  }

  lemma {:induction false} DepthConcat(a: seq<Token>, b: seq<Token>, depth: nat)
    requires DepthAfter(a, depth).Some?
    ensures DepthAfter(a + b, depth) == DepthAfter(b, DepthAfter(a, depth).value)
    decreases |a|
  {
    if a == [] {
      assert a + b == b;
    } else {
      assert (a + b)[1..] == a[1..] + b;
      DepthConcat(a[1..], b, depth + Delta(a[0]));
    }
  }

  lemma {:induction false} SkipConcat(op: Token, a: seq<Token>, b: seq<Token>, depth: nat, between: bool)
    requires Skip(op, a, depth, between).Some?
    ensures var (d, f) := Skip(op, a, depth, between).value; Skip(op, a + b, depth, between) == Skip(op, b, d, f)
    decreases |a|
  {
    if a == [] {
      assert a + b == b;
    } else {
      assert (a + b)[1..] == a[1..] + b;
      var d := depth + Delta(a[0]);
      var f :=
        if d > 0 then between
        else if a[0] == "between" then true
        else if a[0] == "and" && between then false
        else between;
      SkipConcat(op, a[1..], b, d, f);
    }
  }

  /** The splitter passes over skipped tokens. */
  lemma {:induction false} SplitPasses(
    op: Token, ts: seq<Token>, rest: seq<Token>, depth: nat, between: bool, current: seq<Token>)
    requires Skip(op, ts, depth, between).Some?
    ensures var (d, f) := Skip(op, ts, depth, between).value;
            SplitFrom(op, ts + rest, depth, between, current) == SplitFrom(op, rest, d, f, current + ts)
    decreases |ts|
  {
    if ts == [] {
      assert ts + rest == rest && current + ts == current;
    } else {
      assert (ts + rest)[1..] == ts[1..] + rest;
      assert current + [ts[0]] + ts[1..] == current + ts;
      var d := depth + Delta(ts[0]);
      var f :=
        if d > 0 then between
        else if ts[0] == "between" then true
        else if ts[0] == "and" && between then false
        else between;
      SplitPasses(op, ts[1..], rest, d, f, current + [ts[0]]);
    }
  }

  lemma {:induction false} PlainIsSkipped(op: Token, ts: seq<Token>, depth: nat, between: bool)
    requires PlainFrom(ts, depth) && op in {"or", "and"}
    ensures Skip(op, ts, depth, between) == Some((0, between))
    ensures DepthAfter(ts, depth) == Some(0)
    decreases |ts|
  {
    if ts != [] { PlainIsSkipped(op, ts[1..], depth + Delta(ts[0]), between); }
  }

  /** Inside parentheses nothing is split. */
  lemma {:induction false} InsideIsSkipped(op: Token, ts: seq<Token>, k: nat, between: bool)
    requires DepthAfter(ts, k).Some?
    ensures Skip(op, ts, k + 1, between) == Some((DepthAfter(ts, k).value + 1, between))
    decreases |ts|
  {
    if ts != [] { InsideIsSkipped(op, ts[1..], k + Delta(ts[0]), between); }
  }

  lemma {:induction false} ZeroWithin(a: seq<Token>, b: seq<Token>, depth: nat)
    requires a != [] && DepthAfter(a, depth) == Some(0)
    ensures FirstZero(a + b, depth).Some? && FirstZero(a + b, depth).value < |a|
    decreases |a|
  {
    assert (a + b)[1..] == a[1..] + b;
    if depth + Delta(a[0]) != 0 {
      ZeroWithin(a[1..], b, depth + Delta(a[0]));
    }
  }

  lemma {:induction false} ZeroAfter(ts: seq<Token>, k: nat)
    requires DepthAfter(ts, k) == Some(0)
    ensures FirstZero(ts + [")"], k + 1) == Some(|ts|)
    decreases |ts|
  {
    if ts == [] {
      assert ts + [")"] == [")"];
    } else {
      assert (ts + [")"])[1..] == ts[1..] + [")"];
      ZeroAfter(ts[1..], k + Delta(ts[0]));
    }
  }

  // ---- Walking rendered expressions ----

  ghost predicate Closed(op: Token, ts: seq<Token>) {
    Skip(op, ts, 0, false) == Some((0, false))
  }

  lemma ParenSkipped(op: Token, ts: seq<Token>)
    requires DepthAfter(ts, 0) == Some(0) && op in {"or", "and"}
    ensures Closed(op, ["("] + ts + [")"])
    ensures DepthAfter(["("] + ts + [")"], 0) == Some(0)
  {
    hide DepthAfter;
    hide Skip;
    InsideIsSkipped(op, ts, 0, false);
    SkipOne(op, "(", 0, false);
    SkipOne(op, ")", 1, false);
    SkipConcat(op, ["("], ts, 0, false);
    SkipConcat(op, ["("] + ts, [")"], 0, false);
    SkippedDepth(op, ["("] + ts + [")"], 0, false);
  }

  lemma SkipOne(op: Token, t: Token, depth: nat, between: bool)
    ensures var d := depth + Delta(t);
            Skip(op, [t], depth, between)
            == if d < 0 then None
               else if d > 0 then Some((d, between))
               else if t == "between" then Some((d, true))
               else if t == "and" && between then Some((d, false))
               else if t == op then None
               else Some((d, between))
  {
    assert [t][1..] == [];
  }

  lemma {:induction false} SkippedDepth(op: Token, ts: seq<Token>, depth: nat, between: bool)
    requires Skip(op, ts, depth, between).Some?
    ensures DepthAfter(ts, depth) == Some(Skip(op, ts, depth, between).value.0)
    decreases |ts|
  {
    if ts != [] {
      var d := depth + Delta(ts[0]);
      var f :=
        if d > 0 then between
        else if ts[0] == "between" then true
        else if ts[0] == "and" && between then false
        else between;
      SkippedDepth(op, ts[1..], d, f);
    }
  }

  lemma BetweenSkipped(op: Token, x: seq<Token>, low: seq<Token>, high: seq<Token>)
    requires PlainFrom(x, 0) && PlainFrom(low, 0) && PlainFrom(high, 0) && op in {"or", "and"}
    ensures Closed(op, x + ["between"] + low + ["and"] + high)
  {
    hide Skip;
    hide PlainFrom;
    PlainIsSkipped(op, x, 0, false);
    SkipOne(op, "between", 0, false);
    SkipConcat(op, x, ["between"], 0, false);
    PlainIsSkipped(op, low, 0, true);
    SkipConcat(op, x + ["between"], low, 0, false);
    SkipOne(op, "and", 0, true);
    SkipConcat(op, x + ["between"] + low, ["and"], 0, false);
    PlainIsSkipped(op, high, 0, false);
    SkipConcat(op, x + ["between"] + low + ["and"], high, 0, false);
  }

  lemma {:induction false} CommasPlain(literals: seq<Token>)
    requires AllLiterals(literals)
    ensures DepthAfter(Commas(literals), 0) == Some(0)
    decreases |literals|
  {
    if |literals| == 1 {
      assert literals[1..] == [];
      assert DepthAfter(literals, 0) == DepthAfter([], 0);
    } else if |literals| > 1 {
      var rest := Commas(literals[1..]);
      CommasPlain(literals[1..]);
      var all := [literals[0], ","] + rest;
      assert all[1..] == [","] + rest && ([","] + rest)[1..] == rest;
      assert DepthAfter(all, 0) == DepthAfter([","] + rest, 0);
    }
  }

  lemma TopicInSkipped(op: Token, literals: seq<Token>)
    requires AllLiterals(literals) && op in {"or", "and"}
    ensures Closed(op, ["topic0", "in", "("] + Commas(literals) + [")"])
  {
    CommasPlain(literals);
    ParenSkipped(op, Commas(literals));
    var tail := ["("] + Commas(literals) + [")"];
    hide Skip;
    SkipOne(op, "topic0", 0, false);
    SkipOne(op, "in", 0, false);
    SkipConcat(op, ["topic0"], ["in"], 0, false);
    assert ["topic0"] + ["in"] == ["topic0", "in"];
    SkipConcat(op, ["topic0", "in"], tail, 0, false);
    assert ["topic0", "in"] + tail == ["topic0", "in", "("] + Commas(literals) + [")"];
  }

  lemma TopicEqSkipped(op: Token, literal: Token)
    requires TopicLiteral(literal) && op in {"or", "and"}
    ensures Closed(op, ["topic0", "=", literal])
  {
    hide Skip;
    SkipOne(op, "topic0", 0, false);
    SkipOne(op, "=", 0, false);
    SkipOne(op, literal, 0, false);
    SkipConcat(op, ["topic0"], ["="], 0, false);
    assert ["topic0"] + ["="] == ["topic0", "="];
    SkipConcat(op, ["topic0", "="], [literal], 0, false);
    assert ["topic0", "="] + [literal] == ["topic0", "=", literal];
  }

  /** A part of a disjunction is never split at OR, a part of a conjunction never at either. */
  lemma {:induction false} RenderClosed(e: Expr)
    requires WellFormed(e)
    ensures Render(e) != [] && DepthAfter(Render(e), 0) == Some(0)
    ensures !e.Disj? ==> Closed("or", Render(e))
    ensures !e.Disj? && !e.Conj? ==> Closed("and", Render(e))
  {
    hide Skip;
    hide DepthAfter;
    hide PlainFrom;
    match e
    case Disj(parts) => RenderAllClosed(parts, "or", true);
    case Conj(parts) => RenderAllClosed(parts, "and", false);
    case Paren(inner) =>
      RenderClosed(inner);
      ParenSkipped("or", Render(inner));
      ParenSkipped("and", Render(inner));
    case TopicEq(literal) =>
      TopicEqSkipped("or", literal);
      TopicEqSkipped("and", literal);
      SkippedDepth("or", Render(e), 0, false);
    case TopicIn(literals) =>
      TopicInSkipped("or", literals);
      TopicInSkipped("and", literals);
      SkippedDepth("or", Render(e), 0, false);
    case Between(x, low, high) =>
      BetweenSkipped("or", x, low, high);
      BetweenSkipped("and", x, low, high);
      SkippedDepth("or", Render(e), 0, false);
    case Opaque(tokens) =>
      PlainIsSkipped("or", tokens, 0, false);
      PlainIsSkipped("and", tokens, 0, false);
  }

  lemma {:induction false} RenderAllClosed(parts: Parts, op: Token, conjunctions: bool)
    requires AllWellFormed(parts, conjunctions) && op == (if conjunctions then "or" else "and")
    ensures RenderAll(parts, op) != [] && DepthAfter(RenderAll(parts, op), 0) == Some(0)
    ensures !conjunctions ==> Closed("or", RenderAll(parts, op))
    ensures forall i :: 0 <= i < |Renders(parts)| ==> Closed(op, Renders(parts)[i])
  {
    hide Skip;
    hide DepthAfter;
    RenderClosed(parts.e);
    if parts.Then? {
      RenderAllClosed(parts.rest, op, conjunctions);
      JoinDepth(Render(parts.e), op, RenderAll(parts.rest, op));
      if !conjunctions {
        JoinSkipped(Render(parts.e), RenderAll(parts.rest, op));
      }
    }
  }

  lemma JoinDepth(a: seq<Token>, op: Token, b: seq<Token>)
    requires DepthAfter(a, 0) == Some(0) && DepthAfter(b, 0) == Some(0) && op in {"or", "and"}
    ensures DepthAfter(a + [op] + b, 0) == Some(0)
  {
    assert [op][1..] == [];
    assert DepthAfter([op], 0) == Some(0);
    DepthConcat(a, [op], 0);
    DepthConcat(a + [op], b, 0);
  }

  lemma JoinSkipped(a: seq<Token>, b: seq<Token>)
    requires Closed("or", a) && Closed("or", b)
    ensures Closed("or", a + ["and"] + b)
  {
    hide Skip;
    SkipOne("or", "and", 0, false);
    SkipConcat("or", a, ["and"], 0, false);
    SkipConcat("or", a + ["and"], b, 0, false);
  }

  // ---- Splitting rendered expressions ----

  lemma ClosedIsOnePart(op: Token, ts: seq<Token>, current: seq<Token>)
    requires Closed(op, ts)
    ensures SplitFrom(op, ts, 0, false, current) == Some([current + ts])
  {
    SplitPasses(op, ts, [], 0, false, current);
    assert ts + [] == ts;
  }

  /** Splitting at the operator recovers exactly the rendered parts. */
  lemma {:induction false} SplitRecovers(parts: Parts, op: Token)
    requires op in {"or", "and"}
    requires forall i :: 0 <= i < |Renders(parts)| ==> Closed(op, Renders(parts)[i])
    ensures Split(op, RenderAll(parts, op)) == Some(Renders(parts))
  {
    hide Skip;
    hide Render;
    assert Closed(op, Renders(parts)[0]);
    assert [] + Render(parts.e) == Render(parts.e);
    match parts
    case Last(e) => ClosedIsOnePart(op, Render(e), []);
    case Then(e, rest) =>
      assert forall i :: 0 <= i < |Renders(rest)| ==> Renders(rest)[i] == Renders(parts)[i + 1];
      SplitRecovers(rest, op);
      var tail := [op] + RenderAll(rest, op);
      assert Render(e) + [op] + RenderAll(rest, op) == Render(e) + tail;
      SplitPasses(op, Render(e), tail, 0, false, []);
      SplitHere(op, RenderAll(rest, op), Render(e));
  }

  lemma SplitHere(op: Token, ts: seq<Token>, current: seq<Token>)
    requires op in {"or", "and"}
    ensures SplitFrom(op, [op] + ts, 0, false, current) == Prepend([current], Split(op, ts))
  {
    assert ([op] + ts)[1..] == ts;
  }

  lemma {:induction false} RendersCount(parts: Parts)
    ensures |Renders(parts)| >= 1 && (parts.Then? ==> |Renders(parts)| >= 2)
  {
    if parts.Then? { RendersCount(parts.rest); }
  }

  // ---- Parentheses ----

  lemma JoinNotWrapped(a: seq<Token>, b: seq<Token>)
    requires a != [] && b != [] && DepthAfter(a, 0) == Some(0)
    ensures !Wrapped(a + b)
  {
    hide FirstZero;
    ZeroWithin(a, b, 0);
  }

  lemma ParenWrapped(ts: seq<Token>)
    requires DepthAfter(ts, 0) == Some(0)
    ensures Wrapped(["("] + ts + [")"])
    ensures (["("] + ts + [")"])[1..|ts| + 1] == ts
  {
    ZeroAfter(ts, 0);
    var all := ["("] + ts + [")"];
    assert all[1..] == ts + [")"];
  }

  lemma AtomNotWrapped(e: Expr)
    requires WellFormed(e) && !e.Paren?
    ensures !Wrapped(Render(e))
  {
    hide FirstZero;
    hide DepthAfter;
    hide Skip;
    hide PlainFrom;
    match e
    case Disj(parts) => PartsNotWrapped(parts, "or", true);
    case Conj(parts) => PartsNotWrapped(parts, "and", false);
    case Between(x, low, high) =>
      if x != [] {
        PlainIsSkipped("or", x, 0, false);
        assert Render(e) == x + (["between"] + low + ["and"] + high);
        JoinNotWrapped(x, ["between"] + low + ["and"] + high);
      }
    case _ =>
  }

  lemma PartsNotWrapped(parts: Parts, op: Token, conjunctions: bool)
    requires AllWellFormed(parts, conjunctions) && parts.Then?
    ensures !Wrapped(RenderAll(parts, op))
  {
    hide FirstZero;
    hide DepthAfter;
    hide Skip;
    RenderClosed(parts.e);
    assert RenderAll(parts, op) == Render(parts.e) + ([op] + RenderAll(parts.rest, op));
    JoinNotWrapped(Render(parts.e), [op] + RenderAll(parts.rest, op));
  }

  // ---- Atoms ----

  lemma {:induction false} CommasItems(literals: seq<Token>)
    requires literals != []
    ensures |Commas(literals)| >= 1
    ensures ListItems(Commas(literals)) == Some(literals)
    decreases |literals|
  {
    if |literals| > 1 {
      CommasItems(literals[1..]);
      var all := [literals[0], ","] + Commas(literals[1..]);
      assert all[2..] == Commas(literals[1..]);
      assert [literals[0]] + literals[1..] == literals;
    }
  }

  lemma AtomRecovers(e: Expr)
    requires WellFormed(e) && !e.Disj? && !e.Conj? && !e.Paren?
    ensures AtomTopics(Render(e)) == Proven(e)
  {
    match e
    case TopicEq(_) =>
    case TopicIn(literals) =>
      hide Commas;
      hide ListItems;
      CommasItems(literals);
      var ts := Render(e);
      assert ts[3..|ts| - 1] == Commas(literals);
    case Between(x, low, high) => BetweenIsNoAtom(x, low, high);
    case Opaque(_) =>
  }

  /** A topic test holds literals and punctuation only, so it cannot hide a BETWEEN. */
  lemma AtomToken(ts: seq<Token>, k: nat)
    requires AtomTopics(ts).Some? && k < |ts|
    ensures ts[k] in {"topic0", "=", "in", "(", ")", ","} || TopicLiteral(ts[k])
  {
    hide ListItems;
    var values := AtomValues(ts).value;
    if |ts| == 3 && ts[1] == "=" {
      assert values[0] == ts[2];
    } else if 3 <= k < |ts| - 1 {
      assert ts[3..|ts| - 1][k - 3] == ts[k];
      ItemsOrCommas(ts[3..|ts| - 1], k - 3);
    }
  }

  lemma BetweenIsNoAtom(x: seq<Token>, low: seq<Token>, high: seq<Token>)
    ensures AtomTopics(x + ["between"] + low + ["and"] + high).None?
  {
    hide AtomTopics;
    var ts := x + ["between"] + low + ["and"] + high;
    assert ts[|x|] == "between";
    if AtomTopics(ts).Some? {
      AtomToken(ts, |x|);
    }
  }

  lemma {:induction false} ItemsOrCommas(ts: seq<Token>, k: nat)
    requires ListItems(ts).Some? && k < |ts|
    ensures ts[k] == "," || ts[k] in ListItems(ts).value
    decreases |ts|
  {
    if k >= 2 { ItemsOrCommas(ts[2..], k - 2); }
  }

  // ---- What the literals of a topic test stand for ----

  /** A literal is a 32-byte topic in lower-case hexadecimal, in quotes. */
  lemma LiteralShape(t: Token)
    ensures TopicLiteral(t) <==>
              exists digits: string ::
                && t == Quoted("0x" + digits) && |digits| == 64
                && forall i :: 0 <= i < 64 ==> digits[i] in "0123456789abcdef"
  {
    if TopicLiteral(t) {
      var digits := t[3..67];
      assert t == Quoted("0x" + digits);
      forall i | 0 <= i < 64
        ensures digits[i] in "0123456789abcdef"
      {
        DigitListed(t[i + 3]);
      }
    }
    forall digits: string |
      && t == Quoted("0x" + digits) && |digits| == 64
      && forall i :: 0 <= i < 64 ==> digits[i] in "0123456789abcdef"
      ensures TopicLiteral(t)
    {
      forall i | 3 <= i < 67
        ensures HexDigit(t[i])
      {
        assert t[i] == digits[i - 3];
        DigitListed(t[i]);
      }
    }
  }

  lemma DigitListed(c: char)
    ensures HexDigit(c) <==> c in "0123456789abcdef"
  {
    var all := "0123456789abcdef";
    if '0' <= c <= '9' { assert all[c as int - '0' as int] == c; }
    if 'a' <= c <= 'f' { assert all[10 + c as int - 'a' as int] == c; }
  }

  /** A topic is found for literals exactly when one of them spells it. */
  lemma LiteralsExact(literals: seq<Token>, topic: string)
    requires AllLiterals(literals)
    ensures topic in LiteralTopics(literals) <==> Quoted(topic) in literals
  {
    if topic in LiteralTopics(literals) {
      var i :| 0 <= i < |literals| && Unquoted(literals[i]) == topic;
      assert Quoted(topic) == literals[i];
    }
    if Quoted(topic) in literals {
      var i :| 0 <= i < |literals| && literals[i] == Quoted(topic);
      assert Unquoted(literals[i]) == topic;
    }
  }

  lemma {:induction false} ItemsFromList(ts: seq<Token>, item: Token)
    requires ListItems(ts).Some? && item in ListItems(ts).value
    ensures item in ts
    decreases |ts|
  {
    if |ts| >= 3 && item != ts[0] {
      ItemsFromList(ts[2..], item);
      assert forall t :: t in ts[2..] ==> t in ts;
    }
  }

  /** The topics found for a topic test are exactly those whose quoted form is one of its tokens. */
  lemma AtomExact(tokens: seq<Token>, topic: string)
    requires AtomTopics(tokens).Some?
    ensures topic in AtomTopics(tokens).value <==> Quoted(topic) in tokens
  {
    hide ListItems;
    var values := AtomValues(tokens).value;
    LiteralsExact(values, topic);
    var t := Quoted(topic);
    assert t[0] == '\'';
    if t in values && !(|tokens| == 3 && tokens[1] == "=") {
      ItemsFromList(tokens[3..|tokens| - 1], t);
      assert forall x :: x in tokens[3..|tokens| - 1] ==> x in tokens;
    }
    if t in tokens {
      var k :| 0 <= k < |tokens| && tokens[k] == t;
      if |tokens| == 3 && tokens[1] == "=" {
        assert values[0] == tokens[2];
      } else {
        assert tokens[3..|tokens| - 1][k - 3] == t;
        ItemsOrCommas(tokens[3..|tokens| - 1], k - 3);
      }
    }
  }

  // ---- Main results ----

  lemma AllowedParts(parts: Parts, op: Token, i: nat)
    requires Allowed(RenderAll(parts, op)) && i < |Renders(parts)|
    ensures Allowed(Renders(parts)[i])
    decreases parts
  {
    match parts
    case Last(e) =>
    case Then(e, rest) =>
      var head, tail := Render(e), RenderAll(rest, op);
      var all := RenderAll(parts, op);
      assert forall k :: 0 <= k < |head| ==> head[k] == all[k];
      assert forall k :: 0 <= k < |tail| ==> tail[k] == all[|head| + 1 + k];
      if i > 0 { AllowedParts(rest, op, i - 1); }
  }

  /** On the tokens of any well-formed expression the analysis computes the structural result. */
  lemma {:induction false} AnalysisRecovers(e: Expr)
    requires WellFormed(e) && Allowed(Render(e))
    ensures TopicConstraint(Render(e)) == Proven(e)
  {
    hide SplitFrom;
    hide FirstZero;
    hide AtomTopics;
    hide DepthAfter;
    hide Skip;
    RenderClosed(e);
    if !e.Paren? { AtomNotWrapped(e); }
    match e
    case Disj(parts) =>
      RenderAllClosed(parts, "or", true);
      SplitRecovers(parts, "or");
      RendersCount(parts);
      PartsRecover(parts, "or", true, |Render(e)|);
    case Conj(parts) =>
      ClosedIsOnePart("or", Render(e), []);
      RenderAllClosed(parts, "and", false);
      SplitRecovers(parts, "and");
      RendersCount(parts);
      PartsRecover(parts, "and", false, |Render(e)|);
    case Paren(inner) =>
      RenderClosed(inner);
      ParenWrapped(Render(inner));
      assert forall k :: 0 <= k < |Render(inner)| ==> Render(inner)[k] == Render(e)[k + 1];
      AnalysisRecovers(inner);
    case _ =>
      ClosedIsOnePart("or", Render(e), []);
      ClosedIsOnePart("and", Render(e), []);
      AtomRecovers(e);
  }

  lemma {:induction false} PartsRecover(parts: Parts, op: Token, conjunctions: bool, size: nat)
    requires AllWellFormed(parts, conjunctions) && Allowed(RenderAll(parts, op))
    requires forall i :: 0 <= i < |Renders(parts)| ==> |Renders(parts)[i]| < size
    ensures Constraints(Renders(parts), size) == AllProven(parts, conjunctions)
  {
    hide TopicConstraint;
    hide Render;
    AllowedParts(parts, op, 0);
    AnalysisRecovers(parts.e);
    if parts.Then? {
      var head, tail, all := Render(parts.e), RenderAll(parts.rest, op), RenderAll(parts, op);
      assert forall k :: 0 <= k < |tail| ==> tail[k] == all[|head| + 1 + k];
      assert Renders(parts)[1..] == Renders(parts.rest);
      assert forall i :: 0 <= i < |Renders(parts.rest)| ==> Renders(parts.rest)[i] == Renders(parts)[i + 1];
      PartsRecover(parts.rest, op, conjunctions, size);
    }
  }

  /** The structural result covers every row the expression keeps. */
  lemma {:induction false} ProvenCovers(oracle: Oracle, e: Expr, row: Row)
    requires WellFormed(e) && Eval(oracle, e, row) == Yes && Proven(e).Some?
    ensures row.topic0.Some? && row.topic0.value in Proven(e).value
  {
    match e
    case Disj(parts) => DisjunctionCovers(oracle, parts, row);
    case Conj(parts) => ConjunctionCovers(oracle, parts, row);
    case Paren(inner) => ProvenCovers(oracle, inner, row);
    case TopicEq(literal) => LiteralsExact([literal], row.topic0.value);
    case TopicIn(literals) => LiteralsExact(literals, row.topic0.value);
    case _ =>
  }

  lemma {:induction false} DisjunctionCovers(oracle: Oracle, parts: Parts, row: Row)
    requires AllWellFormed(parts, true) && EvalAll(oracle, parts, true, row) == Yes
             && Union(AllProven(parts, true)).Some?
    ensures row.topic0.Some? && row.topic0.value in Union(AllProven(parts, true)).value
  {
    hide Eval;
    hide Proven;
    var all := AllProven(parts, true);
    if parts.Then? { assert all[1..] == AllProven(parts.rest, true); }
    if Eval(oracle, parts.e, row) == Yes {
      ProvenCovers(oracle, parts.e, row);
    } else {
      DisjunctionCovers(oracle, parts.rest, row);
    }
  }

  lemma {:induction false} ConjunctionCovers(oracle: Oracle, parts: Parts, row: Row)
    requires AllWellFormed(parts, false) && EvalAll(oracle, parts, false, row) == Yes
             && Intersection(AllProven(parts, false)).Some?
    ensures row.topic0.Some? && row.topic0.value in Intersection(AllProven(parts, false)).value
  {
    hide Eval;
    hide Proven;
    var all := AllProven(parts, false);
    if parts.Then? { assert all[1..] == AllProven(parts.rest, false); }
    if Proven(parts.e).Some? { ProvenCovers(oracle, parts.e, row); }
    if parts.Then? && Intersection(AllProven(parts.rest, false)).Some? {
      ConjunctionCovers(oracle, parts.rest, row);
    }
  }

  /** No row that a WHERE expression keeps has a topic outside the proven set. */
  lemma NarrowingIsSound(oracle: Oracle, e: Expr, row: Row)
    requires WellFormed(e) && Eval(oracle, e, row) == Yes && TopicConstraint(Render(e)).Some?
    ensures row.topic0.Some? && row.topic0.value in TopicConstraint(Render(e)).value
  {
    hide Proven;
    hide Eval;
    RenderClosed(e);
    AnalysisRecovers(e);
    ProvenCovers(oracle, e, row);
  }

  // ---- The returned set is the least one ----

  /** With nothing known about the other predicates, they may all be true. */
  function AllTrue(): Oracle {
    (tokens: seq<Token>, row: Row) => Yes
  }

  /** If every other predicate is true, an expression keeps a row exactly when nothing is proven
      about it or the row's topic is in the set. */
  lemma {:induction false} ProvenIsLeast(e: Expr, row: Row)
    requires WellFormed(e)
    ensures Eval(AllTrue(), e, row) == Yes <==>
              Proven(e).None? || (row.topic0.Some? && row.topic0.value in Proven(e).value)
  {
    match e
    case Disj(parts) => UnionIsLeast(parts, row);
    case Conj(parts) => IntersectionIsLeast(parts, row);
    case Paren(inner) => ProvenIsLeast(inner, row);
    case TopicEq(literal) => if row.topic0.Some? { LiteralsExact([literal], row.topic0.value); }
    case TopicIn(literals) => if row.topic0.Some? { LiteralsExact(literals, row.topic0.value); }
    case _ =>
  }

  lemma {:induction false} UnionIsLeast(parts: Parts, row: Row)
    requires AllWellFormed(parts, true)
    ensures var all := Union(AllProven(parts, true));
            EvalAll(AllTrue(), parts, true, row) == Yes <==>
              all.None? || (row.topic0.Some? && row.topic0.value in all.value)
  {
    hide Eval;
    hide Proven;
    ProvenIsLeast(parts.e, row);
    if parts.Then? {
      assert AllProven(parts, true)[1..] == AllProven(parts.rest, true);
      UnionIsLeast(parts.rest, row);
    } else {
      assert AllProven(parts, true)[1..] == [];
    }
  }

  lemma {:induction false} IntersectionIsLeast(parts: Parts, row: Row)
    requires AllWellFormed(parts, false)
    ensures var all := Intersection(AllProven(parts, false));
            EvalAll(AllTrue(), parts, false, row) == Yes <==>
              all.None? || (row.topic0.Some? && row.topic0.value in all.value)
  {
    hide Eval;
    hide Proven;
    ProvenIsLeast(parts.e, row);
    if parts.Then? {
      assert AllProven(parts, false)[1..] == AllProven(parts.rest, false);
      IntersectionIsLeast(parts.rest, row);
    } else {
      assert AllProven(parts, false)[1..] == [];
    }
  }

  /** The analysis returns exactly the topics that some row kept by the expression can have, for all
      that is known; and it returns nothing only when a row of any topic can be kept. */
  lemma NarrowingIsTight(e: Expr, row: Row)
    requires WellFormed(e) && Allowed(Render(e))
    ensures var found := TopicConstraint(Render(e));
            Eval(AllTrue(), e, row) == Yes <==> found.None? || (row.topic0.Some? && row.topic0.value in found.value)
  {
    hide Proven;
    hide Eval;
    AnalysisRecovers(e);
    ProvenIsLeast(e, row);
  }

  // ---- What the analysis refuses ----

  lemma {:induction false} SplitBalanced(op: Token, ts: seq<Token>, depth: nat, between: bool, current: seq<Token>)
    requires SplitFrom(op, ts, depth, between, current).Some?
    ensures DepthAfter(ts, depth) == Some(0)
    decreases |ts|
  {
    if ts != [] {
      var d := depth + Delta(ts[0]);
      var f :=
        if d > 0 then between
        else if ts[0] == "between" then true
        else if ts[0] == "and" && between then false
        else between;
      if d == 0 && ts[0] != "between" && !(ts[0] == "and" && between) && ts[0] == op {
        SplitBalanced(op, ts[1..], d, between, []);
      } else {
        SplitBalanced(op, ts[1..], d, f, current + [ts[0]]);
      }
    }
  }

  /** Whatever the tokens, nothing is proven of an expression with a CASE, a subquery or parentheses
      that do not match. */
  lemma {:induction false} RefusedUnproven(tokens: seq<Token>)
    requires TopicConstraint(tokens).Some?
    ensures "case" !in tokens && "select" !in tokens && "exists" !in tokens
    ensures DepthAfter(tokens, 0) == Some(0)
    decreases |tokens|
  {
    hide SplitFrom;
    hide AtomTopics;
    hide FirstZero;
    if Wrapped(tokens) {
      var inner := tokens[1..|tokens| - 1];
      RefusedUnproven(inner);
      var last := tokens[|tokens| - 1];
      assert tokens[1..] == inner + [last];
      assert tokens == ["("] + inner + [last];
      assert FirstZero(inner + [last], 1) == Some(|inner|) by { FirstZeroStep(tokens); }
      LastCloses(inner, last, 0);
      ParenSkipped("or", inner);
    } else {
      SplitBalanced("or", tokens, 0, false, []);
    }
  }

  lemma FirstZeroStep(tokens: seq<Token>)
    requires Wrapped(tokens)
    ensures FirstZero(tokens[1..], 1) == Some(|tokens| - 2)
  {
  }

  lemma {:induction false} LastCloses(ts: seq<Token>, last: Token, k: nat)
    requires DepthAfter(ts, k) == Some(0) && FirstZero(ts + [last], k + 1) == Some(|ts|)
    ensures last == ")"
    decreases |ts|
  {
    if ts == [] {
      assert ts + [last] == [last];
    } else {
      assert (ts + [last])[1..] == ts[1..] + [last];
      LastCloses(ts[1..], last, k + Delta(ts[0]));
    }
  }

  // ---- Reading pre-filtered input ----

  function KeptOne(oracle: Oracle, e: Expr, row: Row): seq<Row>
    requires WellFormed(e)
  {
    if Eval(oracle, e, row) == Yes then [row] else []
  }

  function Kept(oracle: Oracle, e: Expr, rows: seq<Row>): seq<Row>
    requires WellFormed(e)
  {
    if rows == [] then [] else KeptOne(oracle, e, rows[0]) + Kept(oracle, e, rows[1..])
  }

  function Prefiltered(topics: Topics, rows: seq<Row>): seq<Row> {
    if rows == [] then []
    else
      var first := if rows[0].topic0.Some? && rows[0].topic0.value in topics then [rows[0]] else [];
      first + Prefiltered(topics, rows[1..])
  }

  /** Narrowed input holds the rows with a listed topic, as often as before, and no others. */
  lemma {:induction false} PrefilteredExact(topics: Topics, rows: seq<Row>, row: Row)
    ensures multiset(Prefiltered(topics, rows))[row]
            == if row.topic0.Some? && row.topic0.value in topics then multiset(rows)[row] else 0
    decreases |rows|
  {
    if rows != [] {
      PrefilteredExact(topics, rows[1..], row);
      assert rows == [rows[0]] + rows[1..];
    }
  }

  /** A direct read keeps the same rows, in the same order, from input narrowed to any set of
      topics that includes the proven ones. */
  lemma {:induction false} NarrowedInputSuffices(oracle: Oracle, e: Expr, topics: Topics, rows: seq<Row>)
    requires WellFormed(e) && TopicConstraint(Render(e)).Some? && TopicConstraint(Render(e)).value <= topics
    ensures Kept(oracle, e, Prefiltered(topics, rows)) == Kept(oracle, e, rows)
    decreases |rows|
  {
    hide Eval;
    hide WellFormed;
    hide TopicConstraint;
    if rows != [] {
      NarrowedInputSuffices(oracle, e, topics, rows[1..]);
      var rest := Prefiltered(topics, rows[1..]);
      if rows[0].topic0.Some? && rows[0].topic0.value in topics {
        assert Prefiltered(topics, rows) == [rows[0]] + rest;
        assert ([rows[0]] + rest)[1..] == rest;
      } else {
        assert Prefiltered(topics, rows) == [] + rest == rest;
        if Eval(oracle, e, rows[0]) == Yes { NarrowingIsSound(oracle, e, rows[0]); }
        assert KeptOne(oracle, e, rows[0]) == [];
      }
    }
  }
}
