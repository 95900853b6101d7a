/** The token-level analysis that narrows a query's input to some event topics, and why it
    never drops a row that the query would keep. */
module TopicNarrowing {
  import opened Bytes

  type Token = string
  type Topics = set<string>

  // ---- The analysis as a function of the tokens ----

  const BANNED: set<Token> := {"case", "select", "exists"}

  predicate Allowed(tokens: seq<Token>) {
    forall i :: 0 <= i < |tokens| ==> tokens[i] !in BANNED
  }

  function Delta(t: Token): int {
    if t == "(" then 1 else if t == ")" then -1 else 0
  }

  /** Position of the first token after which the depth, starting at `depth`, is zero. */
  function FirstZero(tokens: seq<Token>, depth: int): (r: Option<nat>)
    ensures r.Some? ==> r.value < |tokens|
  {
    if tokens == [] then None
    else if depth + Delta(tokens[0]) == 0 then Some(0)
    else match FirstZero(tokens[1..], depth + Delta(tokens[0]))
      case None => None
      case Some(i) => Some(i + 1)
  }

  /** One pair of parentheses encloses the whole expression. */
  predicate Wrapped(tokens: seq<Token>) {
    |tokens| >= 2 && tokens[0] == "(" && FirstZero(tokens, 0) == Some(|tokens| - 1)
  }

  /** Split at the operator outside parentheses, not counting the AND of a BETWEEN.
      None when the parentheses do not match. */
  function SplitFrom(op: Token, tokens: seq<Token>, depth: nat, between: bool, current: seq<Token>)
    : (r: Option<seq<seq<Token>>>)
    ensures r.Some? ==> |r.value| >= 1
    ensures r.Some? ==> forall i :: 0 <= i < |r.value| ==> |r.value[i]| <= |current| + |tokens|
    ensures r.Some? && |r.value| > 1 ==> forall i :: 0 <= i < |r.value| ==> |r.value[i]| < |current| + |tokens|
    decreases |tokens|
  {
    if tokens == [] then (if depth == 0 then Some([current]) else None)
    else
      var t, rest := tokens[0], tokens[1..];
      var d := depth + Delta(t);
      if d < 0 then None
      else if d > 0 then SplitFrom(op, rest, d, between, current + [t])
      else if t == "between" then SplitFrom(op, rest, d, true, current + [t])
      else if t == "and" && between then SplitFrom(op, rest, d, false, current + [t])
      else if t == op then
        match SplitFrom(op, rest, d, between, [])
        case None => None
        case Some(parts) => Some([current] + parts)
      else SplitFrom(op, rest, d, between, current + [t])
  }

  function Split(op: Token, tokens: seq<Token>): Option<seq<seq<Token>>> {
    SplitFrom(op, tokens, 0, false, [])
  }

  predicate HexDigit(c: char) {
    '0' <= c <= '9' || 'a' <= c <= 'f'
  }

  /** A quoted 32-byte topic. */
  predicate TopicLiteral(t: Token) {
    |t| == 68 && t[0] == '\'' && t[1] == '0' && t[2] == 'x' && t[67] == '\''
    && forall i :: 3 <= i < 67 ==> HexDigit(t[i])
  }

  function Unquoted(t: Token): string
    requires TopicLiteral(t)
  {
    t[1..67]
  }

  predicate AllLiterals(ts: seq<Token>) {
    forall i :: 0 <= i < |ts| ==> TopicLiteral(ts[i])
  }

  function LiteralTopics(ts: seq<Token>): Topics
    requires AllLiterals(ts)
  {
    set i | 0 <= i < |ts| :: Unquoted(ts[i])
  }

  /** Every second token of a comma-separated list, if it is one. */
  function ListItems(ts: seq<Token>): Option<seq<Token>> {
    if |ts| == 1 then Some(ts)
    else if |ts| >= 3 && ts[1] == "," then
      match ListItems(ts[2..])
      case None => None
      case Some(items) => Some([ts[0]] + items)
    else None
  }

  function AtomValues(tokens: seq<Token>): Option<seq<Token>> {
    if |tokens| == 3 && tokens[0] == "topic0" && tokens[1] == "=" then Some([tokens[2]])
    else if && |tokens| >= 5 && tokens[0] == "topic0" && tokens[1] == "in" && tokens[2] == "("
            && tokens[|tokens| - 1] == ")"
    then ListItems(tokens[3..|tokens| - 1])
    else None
  }

  function AtomTopics(tokens: seq<Token>): Option<Topics> {
    match AtomValues(tokens)
    case None => None
    case Some(values) => if AllLiterals(values) then Some(LiteralTopics(values)) else None
  }

  /** OR: known only if every part is. */
  function Union(proven: seq<Option<Topics>>): Option<Topics> {
    if proven == [] then Some({})
    else
      var rest := Union(proven[1..]);
      if proven[0].None? || rest.None? then None else Some(proven[0].value + rest.value)
  }

  /** AND: the known parts intersect. */
  function Intersection(proven: seq<Option<Topics>>): Option<Topics> {
    if proven == [] then None
    else
      var rest := Intersection(proven[1..]);
      if proven[0].None? then rest
      else if rest.None? then proven[0]
      else Some(proven[0].value * rest.value)
  }

  /** A superset of the topics the expression permits, or None if unproven. */
  function TopicConstraint(tokens: seq<Token>): Option<Topics>
    decreases |tokens|, 1, 0
  {
    if tokens == [] || !Allowed(tokens) then None
    else if Wrapped(tokens) then TopicConstraint(tokens[1..|tokens| - 1])
    else
      var disjuncts := Split("or", tokens);
      if disjuncts.None? then None
      else if |disjuncts.value| > 1 then Union(Constraints(disjuncts.value, |tokens|))
      else
        var conjuncts := Split("and", tokens);
        if conjuncts.None? then None
        else if |conjuncts.value| > 1 then Intersection(Constraints(conjuncts.value, |tokens|))
        else AtomTopics(tokens)
  }

  function Constraints(parts: seq<seq<Token>>, size: nat): (r: seq<Option<Topics>>)
    requires forall i :: 0 <= i < |parts| ==> |parts[i]| < size
    ensures |r| == |parts|
    ensures forall i :: 0 <= i < |parts| ==> r[i] == TopicConstraint(parts[i])
    decreases size, 0, |parts|
  {
    if parts == [] then [] else [TopicConstraint(parts[0])] + Constraints(parts[1..], size)
  }

  // ---- The loops of the source ----

  function Prepend(parts: seq<seq<Token>>, r: Option<seq<seq<Token>>>): Option<seq<seq<Token>>> {
    if r.None? then None else Some(parts + r.value)
  }

  lemma PrependNothing(r: Option<seq<seq<Token>>>)
    ensures Prepend([], r) == r
  {
    if r.Some? { assert [] + r.value == r.value; }
  }

  lemma PrependTwice(parts: seq<seq<Token>>, part: seq<Token>, r: Option<seq<seq<Token>>>)
    ensures Prepend(parts, Prepend([part], r)) == Prepend(parts + [part], r)
  {
    if r.Some? { assert parts + ([part] + r.value) == parts + [part] + r.value; }
  }

  method SplitLoop(op: Token, tokens: seq<Token>) returns (r: Option<seq<seq<Token>>>)
    ensures r == Split(op, tokens)
  {
    var parts: seq<seq<Token>> := [];
    var start, depth: nat, between := 0, 0, false;
    assert tokens[0..] == tokens && tokens[0..0] == [];
    PrependNothing(Split(op, tokens));
    for i := 0 to |tokens|
      invariant 0 <= start <= i
      invariant Split(op, tokens) == Prepend(parts, SplitFrom(op, tokens[i..], depth, between, tokens[start..i]))
    {
      var t := tokens[i];
      assert tokens[i..][0] == t && tokens[i..][1..] == tokens[i + 1..];
      assert tokens[start..i] + [t] == tokens[start..i + 1];
      if depth + Delta(t) < 0 { return None; }
      depth := depth + Delta(t);
      if depth > 0 { continue; }
      if t == "between" {
        between := true;
      } else if t == "and" && between {
        between := false;
      } else if t == op {
        PrependTwice(parts, tokens[start..i], SplitFrom(op, tokens[i + 1..], depth, between, []));
        parts := parts + [tokens[start..i]];
        start := i + 1;
        assert tokens[start..i + 1] == [];
      }
    }
    if depth > 0 { return None; }
    assert tokens[start..|tokens|] == tokens[start..];
    r := Some(parts + [tokens[start..]]);
  }

  method WrappedLoop(tokens: seq<Token>) returns (r: bool)
    requires tokens != []
    ensures r == Wrapped(tokens)
  {
    if tokens[0] != "(" { return false; }
    var depth := 0;
    assert tokens[0..] == tokens;
    for i := 0 to |tokens|
      invariant FirstZero(tokens, 0)
                == match FirstZero(tokens[i..], depth) case None => None case Some(k) => Some(i + k)
      invariant i == 0 ==> depth == 0
      invariant i == 1 ==> depth == 1
    {
      assert tokens[i..][0] == tokens[i] && tokens[i..][1..] == tokens[i + 1..];
      depth := depth + Delta(tokens[i]);
      if depth == 0 { return i == |tokens| - 1; }
    }
    r := false;
  }

  /** The recursive analysis with its loops. */
  method AnalyzeTopics(tokens: seq<Token>) returns (r: Option<Topics>)
    ensures r == TopicConstraint(tokens)
    decreases |tokens|, 1
  {
    hide SplitFrom;
    hide FirstZero;
    hide AtomTopics;
    if tokens == [] || exists i :: 0 <= i < |tokens| && tokens[i] in BANNED { return None; }
    var wrapped := WrappedLoop(tokens);
    if wrapped {
      r := AnalyzeTopics(tokens[1..|tokens| - 1]);
      return;
    }
    var parts := SplitLoop("or", tokens);
    if parts.None? { return None; }
    if |parts.value| > 1 {
      var proven := AnalyzeAll(parts.value, |tokens|);
      r := Union(proven);
      return;
    }
    parts := SplitLoop("and", tokens);
    if parts.None? { return None; }
    if |parts.value| > 1 {
      var proven := AnalyzeAll(parts.value, |tokens|);
      r := Intersection(proven);
      return;
    }
    r := AtomTopics(tokens);
  }

  method AnalyzeAll(parts: seq<seq<Token>>, ghost size: nat) returns (r: seq<Option<Topics>>)
    requires forall i :: 0 <= i < |parts| ==> |parts[i]| < size
    ensures r == Constraints(parts, size)
    decreases size, 0
  {
    hide TopicConstraint;
    r := [];
    for i := 0 to |parts|
      invariant |r| == i
      invariant forall k :: 0 <= k < i ==> r[k] == TopicConstraint(parts[k])
    {
      var one := AnalyzeTopics(parts[i]);
      r := r + [one];
    }
  }
}
