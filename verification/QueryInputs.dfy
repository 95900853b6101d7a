/** Which topics a whole query may read, and how queries share one captured input. */
module QueryInputs {
  import opened Bytes
  import opened TopicNarrowing
  import opened TopicSoundness

  const CLAUSE_ENDS: set<Token> := {"group", "order", "limit", "having", "union", "except", "intersect", ")"}

  /** A table read of `logs` starts here. */
  predicate ReadsLogs(tokens: seq<Token>, i: nat) {
    i + 1 < |tokens| && tokens[i] in {"from", "join"} && tokens[i + 1] == "logs"
  }

  predicate DirectRead(tokens: seq<Token>, i: nat) {
    i + 3 <= |tokens| && tokens[i] == "from" && tokens[i + 1] == "logs" && tokens[i + 2] == "where"
  }

  /** End of the WHERE clause that starts at `i`: the first clause keyword or closing parenthesis at depth zero. */
  function WhereEnd(tokens: seq<Token>, i: nat, depth: int): (end: nat)
    requires i <= |tokens|
    ensures i <= end <= |tokens|
    decreases |tokens| - i
  {
    if i == |tokens| || (depth == 0 && tokens[i] in CLAUSE_ENDS) then i
    else WhereEnd(tokens, i + 1, depth + Delta(tokens[i]))
  }

  function WhereTokens(tokens: seq<Token>, i: nat): seq<Token>
    requires DirectRead(tokens, i)
  {
    tokens[i + 3..WhereEnd(tokens, i + 3, 0)]
  }

  /** The read is direct and its WHERE clause proves a non-empty set of topics within `topics`. */
  predicate ReadProven(tokens: seq<Token>, i: nat, topics: Topics) {
    && DirectRead(tokens, i)
    && TopicConstraint(WhereTokens(tokens, i)).Some?
    && TopicConstraint(WhereTokens(tokens, i)).value != {}
    && TopicConstraint(WhereTokens(tokens, i)).value <= topics
  }

  method FindWhereEnd(tokens: seq<Token>, start: nat) returns (end: nat)
    requires start <= |tokens|
    ensures end == WhereEnd(tokens, start, 0)
  {
    var depth := 0;
    end := start;
    while end < |tokens|
      invariant start <= end <= |tokens|
      invariant WhereEnd(tokens, end, depth) == WhereEnd(tokens, start, 0)
    {
      if depth == 0 && tokens[end] in CLAUSE_ENDS { break; }
      depth := depth + Delta(tokens[end]);
      end := end + 1;
    }
  }

  /** Topics proven for one read, if it is direct and proven. */
  function ReadTopics(tokens: seq<Token>, i: nat): Option<Topics> {
    if !DirectRead(tokens, i) then None
    else
      var constraint := TopicConstraint(WhereTokens(tokens, i));
      if constraint.None? || constraint.value == {} then None else constraint
  }

  /** Topics of all reads before position `n`; None as soon as one is unproven. */
  function TopicsBefore(tokens: seq<Token>, n: nat): Option<Topics> {
    if n == 0 then Some({})
    else
      var before := TopicsBefore(tokens, n - 1);
      if before.None? || !ReadsLogs(tokens, n - 1) then before
      else match ReadTopics(tokens, n - 1)
        case None => None
        case Some(topics) => Some(before.value + topics)
  }

  /** Topics of the whole query; no read at all proves nothing. */
  function QueryTopics(tokens: seq<Token>): Option<Topics> {
    match TopicsBefore(tokens, |tokens|)
    case None => None
    case Some(topics) => if topics == {} then None else Some(topics)
  }

  /** The loop over reads. */
  method InputTopics(tokens: seq<Token>) returns (r: Option<Topics>)
    ensures r == QueryTopics(tokens)
  {
    hide TopicConstraint;
    hide WhereEnd;
    var topics: Topics := {};
    for i := 0 to |tokens|
      invariant TopicsBefore(tokens, i) == Some(topics)
    {
      if !ReadsLogs(tokens, i) { continue; }
      if !DirectRead(tokens, i) {
        StaysUnproven(tokens, i + 1, |tokens|);
        return None;
      }
      var end := FindWhereEnd(tokens, i + 3);
      var constraint := AnalyzeTopics(tokens[i + 3..end]);
      if constraint.None? || constraint.value == {} {
        StaysUnproven(tokens, i + 1, |tokens|);
        return None;
      }
      topics := topics + constraint.value;
    }
    r := if topics == {} then None else Some(topics);
  }

  lemma {:induction false} StaysUnproven(tokens: seq<Token>, n: nat, m: nat)
    requires n <= m && TopicsBefore(tokens, n).None?
    ensures TopicsBefore(tokens, m).None?
    decreases m
  {
    hide ReadTopics;
    if n < m { StaysUnproven(tokens, n, m - 1); }
  }

  /** Every detected read is direct, is proven, and stays within the topics of the query. */
  lemma {:induction false} EveryReadProven(tokens: seq<Token>, n: nat, i: nat)
    requires i < n && ReadsLogs(tokens, i) && TopicsBefore(tokens, n).Some?
    ensures ReadProven(tokens, i, TopicsBefore(tokens, n).value)
    decreases n
  {
    hide TopicConstraint;
    hide WhereEnd;
    if i < n - 1 { EveryReadProven(tokens, n - 1, i); }
  }

  /** When a set is returned it is exactly the topics of the reads: at least one read, each direct and
      with a non-empty proven set, and nothing that no read needs. Otherwise nothing is returned. */
  lemma QueryTopicsExact(tokens: seq<Token>)
    ensures QueryTopics(tokens).Some? <==>
              && (exists i: nat :: ReadsLogs(tokens, i))
              && (forall i: nat | ReadsLogs(tokens, i) :: ReadTopics(tokens, i).Some?)
    ensures QueryTopics(tokens).Some? ==>
              forall t :: t in QueryTopics(tokens).value <==>
                exists i: nat :: ReadsLogs(tokens, i) && Needs(tokens, i, t)
  {
    hide ReadTopics;
    hide TopicsBefore;
    BeforeExact(tokens, |tokens|);
    if QueryTopics(tokens).Some? {
      var t :| t in QueryTopics(tokens).value;
    } else if exists i: nat :: ReadsLogs(tokens, i) {
      var i: nat :| ReadsLogs(tokens, i);
      if ReadTopics(tokens, i).Some? {
        var t := SomeNeeded(tokens, i);
        assert TopicsBefore(tokens, |tokens|).Some? ==> t in TopicsBefore(tokens, |tokens|).value;
      }
    }
  }

  ghost predicate Needs(tokens: seq<Token>, i: nat, t: string) {
    ReadTopics(tokens, i).Some? && t in ReadTopics(tokens, i).value
  }

  lemma SomeNeeded(tokens: seq<Token>, i: nat) returns (t: string)
    requires ReadTopics(tokens, i).Some?
    ensures Needs(tokens, i, t)
  {
    hide TopicConstraint;
    t :| t in ReadTopics(tokens, i).value;
  }

  lemma {:induction false} BeforeExact(tokens: seq<Token>, n: nat)
    ensures TopicsBefore(tokens, n).Some? <==>
              forall i: nat | i < n && ReadsLogs(tokens, i) :: ReadTopics(tokens, i).Some?
    ensures TopicsBefore(tokens, n).Some? ==>
              forall t :: t in TopicsBefore(tokens, n).value <==>
                exists i: nat :: i < n && ReadsLogs(tokens, i) && Needs(tokens, i, t)
    decreases n
  {
    hide ReadTopics;
    if n > 0 {
      BeforeExact(tokens, n - 1);
      if TopicsBefore(tokens, n).Some? {
        forall t
          ensures t in TopicsBefore(tokens, n).value <==>
                    exists i: nat :: i < n && ReadsLogs(tokens, i) && Needs(tokens, i, t)
        {
          if t in TopicsBefore(tokens, n).value && t !in TopicsBefore(tokens, n - 1).value {
            assert Needs(tokens, n - 1, t);
          }
        }
      }
    }
  }

  // ---- Table references, independently of the detector ----

  /** Where the scan of a query stands, per open parenthesis. */
  datatype Place = Elsewhere | ExpectTable | AfterTable

  const FROM_ENDS: set<Token> :=
    {"where", "group", "order", "limit", "having", "window", "union", "except", "intersect", "select"}

  datatype Places = Outermost(top: Place) | Inside(top: Place, outer: Places)

  /** A FROM list holds table names, qualified or not, subqueries and parenthesized lists, separated by
      commas or JOIN, up to the next clause. */
  function Scanned(places: Places, t: Token, next: Option<Token>): Places {
    if t == "(" then
      if places.top == ExpectTable then Inside(ExpectTable, places.(top := AfterTable)) else Inside(Elsewhere, places)
    else if t == ")" then (if places.Inside? then places.outer else Outermost(Elsewhere))
    else if t == "from" || t == "join" then places.(top := ExpectTable)
    else if places.top == ExpectTable then
      if t == "select" then places.(top := Elsewhere)
      else if t == "." || next == Some(".") then places
      else places.(top := AfterTable)
    else if places.top == AfterTable then
      if t == "," then places.(top := ExpectTable)
      else if t in FROM_ENDS then places.(top := Elsewhere)
      else places
    else places
  }

  function NextToken(tokens: seq<Token>, k: nat): Option<Token> {
    if k + 1 < |tokens| then Some(tokens[k + 1]) else None
  }

  /** The places just before token `k`. */
  function PlacesAt(tokens: seq<Token>, k: nat): Places
    requires k <= |tokens|
  {
    if k == 0 then Outermost(Elsewhere) else Scanned(PlacesAt(tokens, k - 1), tokens[k - 1], NextToken(tokens, k - 1))
  }

  /** Token `k` names the table `logs` in a FROM list. */
  predicate TableRead(tokens: seq<Token>, k: nat) {
    && k < |tokens| && tokens[k] == "logs" && NextToken(tokens, k) != Some(".")
    && PlacesAt(tokens, k).top == ExpectTable
  }

  /** The table is read alone and under its own WHERE clause. */
  predicate FilteredRead(tokens: seq<Token>, k: nat) {
    TableRead(tokens, k) && 0 < k < |tokens| - 1 && tokens[k - 1] == "from" && tokens[k + 1] == "where"
  }

  /** Open parentheses between `start` and `j`. */
  ghost function OpenAt(tokens: seq<Token>, start: nat, j: nat): int
    requires start <= j <= |tokens|
  {
    multiset(tokens[start..j])["("] as int - multiset(tokens[start..j])[")"] as int
  }

  /** A clause that starts at `start` cannot go beyond `j`. */
  ghost predicate Ends(tokens: seq<Token>, start: nat, j: nat)
    requires start <= j <= |tokens|
  {
    || j == |tokens|
    || (&& OpenAt(tokens, start, j) == 0
        && tokens[j] in {"group", "order", "limit", "having", "union", "except", "intersect", ")"})
  }

  ghost predicate ClauseEnd(tokens: seq<Token>, start: nat, end: nat) {
    start <= end <= |tokens| && Ends(tokens, start, end) && forall j :: start <= j < end ==> !Ends(tokens, start, j)
  }

  lemma OpenMore(tokens: seq<Token>, start: nat, j: nat)
    requires start <= j < |tokens|
    ensures OpenAt(tokens, start, j + 1) == OpenAt(tokens, start, j) + Delta(tokens[j])
  {
    assert tokens[start..j + 1] == tokens[start..j] + [tokens[j]];
  }

  /** The scan for the end of a WHERE clause finds it. */
  lemma {:induction false} WhereEndExact(tokens: seq<Token>, start: nat, i: nat)
    requires start <= i <= |tokens| && forall j :: start <= j < i ==> !Ends(tokens, start, j)
    ensures ClauseEnd(tokens, start, WhereEnd(tokens, i, OpenAt(tokens, start, i)))
    decreases |tokens| - i
  {
    if !Ends(tokens, start, i) {
      OpenMore(tokens, start, i);
      WhereEndExact(tokens, start, i + 1);
    }
  }

  lemma ClauseEndUnique(tokens: seq<Token>, start: nat, end: nat)
    requires ClauseEnd(tokens, start, end)
    ensures end == WhereEnd(tokens, start, 0)
  {
    assert tokens[start..start] == [];
    WhereEndExact(tokens, start, start);
    assert Ends(tokens, start, end) && Ends(tokens, start, WhereEnd(tokens, start, 0));
  }

  /** `e` is the expression of the clause that starts at `start`. */
  ghost predicate Filters(tokens: seq<Token>, start: nat, e: Expr) {
    WellFormed(e) && exists end: nat :: ClauseEnd(tokens, start, end) && Render(e) == tokens[start..end]
  }

  /** `where` gives the expression of every WHERE clause over a single `logs`. */
  ghost predicate Parsed(tokens: seq<Token>, where: nat -> Expr) {
    forall k: nat :: FilteredRead(tokens, k) ==> Filters(tokens, k + 2, where(k))
  }

  lemma FilterFound(tokens: seq<Token>, k: nat, e: Expr)
    requires FilteredRead(tokens, k) && Filters(tokens, k + 2, e)
    ensures WellFormed(e) && DirectRead(tokens, k - 1) && Render(e) == WhereTokens(tokens, k - 1)
  {
    hide WhereEnd;
    hide WellFormed;
    hide Render;
    var start := k + 2;
    var end: nat :| ClauseEnd(tokens, start, end) && Render(e) == tokens[start..end];
    ClauseEndUnique(tokens, start, end);
  }

  /** The rows of `logs` that reach the query through this reference. */
  ghost function Visible(oracle: Oracle, tokens: seq<Token>, where: nat -> Expr, k: nat, rows: seq<Row>): seq<Row>
    requires Parsed(tokens, where)
  {
    if FilteredRead(tokens, k) then
      FilterFound(tokens, k, where(k));
      Kept(oracle, where(k), rows)
    else rows
  }

  /** Every reference to the table directly follows FROM or JOIN. */
  predicate AllDetected(tokens: seq<Token>) {
    forall k: nat | k < |tokens| && TableRead(tokens, k) ::
      k > 0 && tokens[k - 1] in {"from", "join"}
  }

  /** Every reference sees the same rows, in the same order, from input narrowed to `topics`. */
  ghost predicate InputUnchanged(oracle: Oracle, tokens: seq<Token>, where: nat -> Expr, topics: Topics)
    requires Parsed(tokens, where)
  {
    forall k: nat, rows: seq<Row> | TableRead(tokens, k) ::
      Visible(oracle, tokens, where, k, Prefiltered(topics, rows)) == Visible(oracle, tokens, where, k, rows)
  }

  /** Narrowing to the topics that the analysis returns leaves every reference unchanged if and only if
      every reference directly follows FROM or JOIN. */
  lemma NarrowingExact(oracle: Oracle, tokens: seq<Token>, where: nat -> Expr, topics: Topics)
    requires QueryTopics(tokens) == Some(topics) && Parsed(tokens, where)
    ensures InputUnchanged(oracle, tokens, where, topics) <==> AllDetected(tokens)
  {
    hide TopicConstraint;
    hide WellFormed;
    hide Kept;
    hide PlacesAt;
    if AllDetected(tokens) {
      forall k: nat, rows: seq<Row> | TableRead(tokens, k)
        ensures Visible(oracle, tokens, where, k, Prefiltered(topics, rows)) == Visible(oracle, tokens, where, k, rows)
      {
        EveryReadProven(tokens, |tokens|, k - 1);
        FilterFound(tokens, k, where(k));
        NarrowedInputSuffices(oracle, where(k), topics, rows);
      }
    } else {
      var k: nat :| TableRead(tokens, k) && !(k > 0 && tokens[k - 1] in {"from", "join"});
      var rows := [Row(None, [])];
      assert Prefiltered(topics, rows) == [] by { assert rows[1..] == []; }
      assert Visible(oracle, tokens, where, k, Prefiltered(topics, rows)) != Visible(oracle, tokens, where, k, rows);
    }
  }

  // ---- References that the detector misses ----

  lemma {:induction false} NoReads(tokens: seq<Token>, n: nat, m: nat)
    requires n <= m && forall i :: n <= i < m ==> !ReadsLogs(tokens, i)
    ensures TopicsBefore(tokens, m) == TopicsBefore(tokens, n)
    decreases m
  {
    hide ReadTopics;
    if n < m { NoReads(tokens, n, m - 1); }
  }

  function Digits(n: nat): (s: string)
    ensures |s| == n && forall i :: 0 <= i < n ==> s[i] == '0'
  {
    if n == 0 then "" else "0" + Digits(n - 1)
  }

  /** The topic of 32 zero bytes, and the literal for it. */
  function ZeroTopic(): string {
    "0x" + Digits(64)
  }

  function SomeTopic(): Token {
    "'" + ZeroTopic() + "'"
  }

  lemma SomeTopicIsLiteral()
    ensures TopicLiteral(SomeTopic()) && LiteralTopics([SomeTopic()]) == {ZeroTopic()}
  {
    assert SomeTopic()[67] == '\'';
    forall topic
      ensures topic in LiteralTopics([SomeTopic()]) <==> topic == ZeroTopic()
    {
      LiteralsExact([SomeTopic()], topic);
      assert Quoted(topic)[1..|topic| + 1] == topic && SomeTopic()[1..67] == ZeroTopic();
    }
  }

  /** The one detected read, whose WHERE clause tests one topic, proves that topic. */
  lemma OneReadProves(tokens: seq<Token>, i: nat)
    requires DirectRead(tokens, i) && WhereTokens(tokens, i) == ["topic0", "=", SomeTopic()] && ReadsLogs(tokens, i)
    requires forall k :: 0 <= k < |tokens| && k != i ==> !ReadsLogs(tokens, k)
    ensures QueryTopics(tokens) == Some({ZeroTopic()})
  {
    hide TopicConstraint;
    hide WhereEnd;
    hide SomeTopic;
    hide ZeroTopic;
    SomeTopicIsLiteral();
    var e := TopicEq(SomeTopic());
    assert Render(e) == ["topic0", "=", SomeTopic()];
    assert Allowed(Render(e)) by { LiteralIsAllowed(SomeTopic()); }
    AnalysisRecovers(e);
    NoReads(tokens, 0, i);
    NoReads(tokens, i + 1, |tokens|);
    assert TopicsBefore(tokens, i) == Some({});
    assert TopicsBefore(tokens, i + 1) == Some({} + {ZeroTopic()});
    assert {} + {ZeroTopic()} == {ZeroTopic()};
  }

  lemma LiteralIsAllowed(t: Token)
    requires TopicLiteral(t)
    ensures t !in BANNED
  {
  }

  /** `select * from (select * from logs where topic0 = '0x…') t, logs` */
  function CommaQuery(): seq<Token> {
    ["select", "*", "from", "(", "select", "*", "from", "logs", "where", "topic0", "=", SomeTopic(), ")", "t",
     ",", "logs"]
  }

  /** `select * from logs where topic0 = '0x…' union select * from main.logs` */
  function QualifiedQuery(): seq<Token> {
    ["select", "*", "from", "logs", "where", "topic0", "=", SomeTopic(),
     "union", "select", "*", "from", "main", ".", "logs"]
  }

  predicate Plain(t: Token) {
    t !in {"(", ")", "from", "join"}
  }

  predicate IsName(t: Token) {
    Plain(t) && t !in {",", "."} && t !in FROM_ENDS
  }

  /** Outside a FROM list only parentheses, FROM and JOIN change the places. */
  lemma {:induction false} Passed(tokens: seq<Token>, i: nat, j: nat)
    requires i <= j <= |tokens| && PlacesAt(tokens, i).top == Elsewhere
    requires forall k :: i <= k < j ==> Plain(tokens[k])
    ensures PlacesAt(tokens, j) == PlacesAt(tokens, i)
    decreases j
  {
    if i < j { Passed(tokens, i, j - 1); }
  }

  lemma FromStep(tokens: seq<Token>, k: nat)
    requires k < |tokens| && tokens[k] == "from"
    ensures PlacesAt(tokens, k + 1) == PlacesAt(tokens, k).(top := ExpectTable)
  {
  }

  lemma OpenStep(tokens: seq<Token>, k: nat)
    requires k < |tokens| && tokens[k] == "(" && PlacesAt(tokens, k).top == ExpectTable
    ensures PlacesAt(tokens, k + 1) == Inside(ExpectTable, PlacesAt(tokens, k).(top := AfterTable))
  {
  }

  lemma CloseStep(tokens: seq<Token>, k: nat)
    requires k < |tokens| && tokens[k] == ")" && PlacesAt(tokens, k).Inside?
    ensures PlacesAt(tokens, k + 1) == PlacesAt(tokens, k).outer
  {
  }

  /** A name in a FROM list: a table, the qualifier of a table, or an alias. */
  lemma NameStep(tokens: seq<Token>, k: nat)
    requires k < |tokens| && IsName(tokens[k])
    ensures PlacesAt(tokens, k).top == ExpectTable && NextToken(tokens, k) != Some(".") ==>
              PlacesAt(tokens, k + 1) == PlacesAt(tokens, k).(top := AfterTable)
    ensures PlacesAt(tokens, k).top == ExpectTable && NextToken(tokens, k) == Some(".") ==>
              PlacesAt(tokens, k + 1) == PlacesAt(tokens, k)
    ensures PlacesAt(tokens, k).top == AfterTable ==> PlacesAt(tokens, k + 1) == PlacesAt(tokens, k)
  {
  }

  lemma EndStep(tokens: seq<Token>, k: nat)
    requires k < |tokens| && PlacesAt(tokens, k).top != Elsewhere
    requires tokens[k] == "select" || (tokens[k] == "where" && PlacesAt(tokens, k).top == AfterTable)
    ensures PlacesAt(tokens, k + 1) == PlacesAt(tokens, k).(top := Elsewhere)
  {
  }

  lemma PlainTokens()
    ensures Plain("select") && Plain("*") && Plain("where") && Plain("topic0") && Plain("=") && Plain("union")
    ensures Plain(SomeTopic())
  {
    hide SomeTopic;
    SomeTopicIsNoKeyword();
  }

  lemma NameTokens()
    ensures IsName("logs") && IsName("t") && IsName("main")
  {
  }

  lemma CommaTokens()
    ensures var tokens := CommaQuery();
            && |tokens| == 16 && tokens[2] == "from" && tokens[3] == "(" && tokens[4] == "select" && tokens[6] == "from"
            && tokens[8] == "where" && tokens[12] == ")" && tokens[14] == "," && IsName(tokens[7]) && IsName(tokens[13])
            && NextToken(tokens, 7) != Some(".")
            && (forall k :: 0 <= k < 2 || 5 <= k < 6 || 9 <= k < 12 ==> Plain(tokens[k]))
  {
    hide SomeTopic;
    hide Plain;
    hide IsName;
    PlainTokens();
    NameTokens();
  }

  lemma CommaPlaces()
    ensures PlacesAt(CommaQuery(), 15) == Outermost(ExpectTable)
  {
    CommaTokens();
    hide CommaQuery;
    hide Plain;
    hide IsName;
    var tokens := CommaQuery();
    assert PlacesAt(tokens, 0) == Outermost(Elsewhere);
    hide PlacesAt;
    hide Scanned;
    Passed(tokens, 0, 2);
    FromStep(tokens, 2);
    OpenStep(tokens, 3);
    EndStep(tokens, 4);
    Passed(tokens, 5, 6);
    FromStep(tokens, 6);
    NameStep(tokens, 7);
    EndStep(tokens, 8);
    Passed(tokens, 9, 12);
    CloseStep(tokens, 12);
    NameStep(tokens, 13);
    CommaStep(tokens, 14);
  }

  lemma CommaStep(tokens: seq<Token>, k: nat)
    requires k < |tokens| && tokens[k] == "," && PlacesAt(tokens, k).top == AfterTable
    ensures PlacesAt(tokens, k + 1) == PlacesAt(tokens, k).(top := ExpectTable)
  {
  }

  lemma DotStep(tokens: seq<Token>, k: nat)
    requires k < |tokens| && tokens[k] == "." && PlacesAt(tokens, k).top == ExpectTable
    ensures PlacesAt(tokens, k + 1) == PlacesAt(tokens, k)
  {
  }

  lemma SomeTopicIsNoKeyword()
    ensures |SomeTopic()| == 68
    ensures SomeTopic() !in {"(", ")", "from", "join", "select", ".", ",", "logs"}
  {
    hide Digits;
    var shorter := {"(", ")", "from", "join", "select", ".", ",", "logs"};
    assert forall t :: t in shorter ==> |t| <= 6;
  }

  /** The subquery's topic is proven for the whole query, yet the table after the comma is read whole. */
  lemma CommaReadIsMissed()
    ensures QueryTopics(CommaQuery()) == Some({ZeroTopic()})
    ensures TableRead(CommaQuery(), 15) && !AllDetected(CommaQuery())
  {
    hide SomeTopic;
    hide PlacesAt;
    var tokens := CommaQuery();
    SomeTopicIsNoKeyword();
    CommaPlaces();
    assert TableRead(tokens, 15) && !ReadsLogs(tokens, 14);
    assert WhereEnd(tokens, 12, 0) == 12;
    assert WhereEnd(tokens, 11, 0) == 12;
    assert WhereEnd(tokens, 10, 0) == 12;
    assert WhereEnd(tokens, 9, 0) == 12;
    assert WhereTokens(tokens, 6) == ["topic0", "=", SomeTopic()];
    OneReadProves(tokens, 6);
  }

  lemma QualifiedTokens()
    ensures var tokens := QualifiedQuery();
            && |tokens| == 15 && tokens[2] == "from" && tokens[4] == "where" && tokens[11] == "from"
            && tokens[13] == "." && IsName(tokens[3]) && IsName(tokens[12])
            && NextToken(tokens, 3) != Some(".")
            && (forall k :: 0 <= k < 2 || 5 <= k < 11 ==> Plain(tokens[k]))
  {
    hide SomeTopic;
    hide Plain;
    hide IsName;
    PlainTokens();
    NameTokens();
  }

  lemma QualifiedPlaces()
    ensures PlacesAt(QualifiedQuery(), 14) == Outermost(ExpectTable)
  {
    QualifiedTokens();
    hide QualifiedQuery;
    hide Plain;
    hide IsName;
    var tokens := QualifiedQuery();
    assert PlacesAt(tokens, 0) == Outermost(Elsewhere);
    hide PlacesAt;
    hide Scanned;
    Passed(tokens, 0, 2);
    FromStep(tokens, 2);
    NameStep(tokens, 3);
    EndStep(tokens, 4);
    Passed(tokens, 5, 11);
    FromStep(tokens, 11);
    NameStep(tokens, 12);
    DotStep(tokens, 13);
  }

  /** So is a table under a qualified name. */
  lemma QualifiedReadIsMissed()
    ensures QueryTopics(QualifiedQuery()) == Some({ZeroTopic()})
    ensures TableRead(QualifiedQuery(), 14) && !AllDetected(QualifiedQuery())
  {
    hide SomeTopic;
    hide PlacesAt;
    var tokens := QualifiedQuery();
    SomeTopicIsNoKeyword();
    QualifiedPlaces();
    assert TableRead(tokens, 14) && !ReadsLogs(tokens, 13);
    assert WhereEnd(tokens, 8, 0) == 8;
    assert WhereEnd(tokens, 7, 0) == 8;
    assert WhereEnd(tokens, 6, 0) == 8;
    assert WhereEnd(tokens, 5, 0) == 8;
    assert WhereTokens(tokens, 2) == ["topic0", "=", SomeTopic()];
    OneReadProves(tokens, 2);
  }

  // ---- Grouping queries over one captured input ----

  datatype Key = Key(addresses: seq<string>, fromBlock: nat, toBlock: nat)

  /** A query with its input key and the topics proven for it. */
  datatype Case = Case(id: string, key: Key, topics: Option<Topics>)

  datatype Group = Group(topics: Option<Topics>, cases: seq<string>)

  function CasesOf(cases: seq<Case>, key: Key): seq<Case> {
    if cases == [] then []
    else
      var init, last := cases[..|cases| - 1], cases[|cases| - 1];
      if last.key == key then CasesOf(init, key) + [last] else CasesOf(init, key)
  }

  function Ids(cases: seq<Case>): seq<string> {
    if cases == [] then [] else Ids(cases[..|cases| - 1]) + [cases[|cases| - 1].id]
  }

  /** The input captured for a group suffices for each of its queries and nothing in it is unneeded. */
  ghost predicate Covers(topics: Option<Topics>, cases: seq<Case>) {
    && (topics.Some? <==> forall i :: 0 <= i < |cases| ==> cases[i].topics.Some?)
    && (topics.Some? ==> forall i :: 0 <= i < |cases| ==> cases[i].topics.value <= topics.value)
    && (topics.Some? ==> forall t :: t in topics.value ==> exists i :: 0 <= i < |cases| && t in cases[i].topics.value)
  }

  lemma CoversOne(c: Case)
    ensures Covers(c.topics, [c])
  {
    assert [c][0] == c;
    if c.topics.Some? {
      forall t | t in c.topics.value
        ensures exists i :: 0 <= i < |[c]| && t in [c][i].topics.value
      {
        assert [c][0] == c;
      }
    }
  }

  lemma CoversMore(topics: Option<Topics>, cases: seq<Case>, c: Case)
    requires Covers(topics, cases)
    ensures Covers(if topics.Some? && c.topics.Some? then Some(topics.value + c.topics.value) else None, cases + [c])
  {
    var all := cases + [c];
    assert all[|cases|] == c;
    assert forall i :: 0 <= i < |cases| ==> all[i] == cases[i];
    if topics.Some? && c.topics.Some? {
      forall t | t in topics.value + c.topics.value
        ensures exists i :: 0 <= i < |all| && t in all[i].topics.value
      {
        if t in c.topics.value {
          assert t in all[|cases|].topics.value;
        } else {
          var i :| 0 <= i < |cases| && t in cases[i].topics.value;
          assert t in all[i].topics.value;
        }
      }
    }
  }

  /** The entry for a key lists the key's queries in order and covers them. */
  ghost predicate GroupOk(groups: map<Key, Group>, cases: seq<Case>, key: Key) {
    var members := CasesOf(cases, key);
    && (key in groups <==> members != [])
    && (key in groups ==>
          && groups[key].cases == Ids(members)
          && Covers(groups[key].topics, members)
          && (groups[key].topics.Some? ==> groups[key].topics.value != {}))
  }

  lemma CasesOfSnoc(cases: seq<Case>, c: Case, key: Key)
    ensures CasesOf(cases + [c], key) == if c.key == key then CasesOf(cases, key) + [c] else CasesOf(cases, key)
  {
    assert (cases + [c])[..|cases|] == cases;
  }

  lemma IdsSnoc(cases: seq<Case>, c: Case)
    ensures Ids(cases + [c]) == Ids(cases) + [c.id]
  {
    assert (cases + [c])[..|cases|] == cases;
  }

  method AddCase(groups: map<Key, Group>, ghost cases: seq<Case>, c: Case) returns (r: map<Key, Group>)
    requires forall key :: GroupOk(groups, cases, key)
    requires c.topics.Some? ==> c.topics.value != {}
    ensures forall key :: GroupOk(r, cases + [c], key)
  {
    hide Covers;
    hide CasesOf;
    hide Ids;
    ghost var members := CasesOf(cases, c.key);
    assert GroupOk(groups, cases, c.key);
    CasesOfSnoc(cases, c, c.key);
    IdsSnoc(members, c);
    if c.key !in groups {
      CoversOne(c);
      assert members + [c] == [c];
      NoIds();
      r := groups[c.key := Group(c.topics, [c.id])];
    } else {
      var prior := groups[c.key];
      CoversMore(prior.topics, members, c);
      var merged := if prior.topics.Some? && prior.topics.value != {} && c.topics.Some? && c.topics.value != {}
                    then Some(prior.topics.value + c.topics.value) else None;
      r := groups[c.key := Group(merged, prior.cases + [c.id])];
    }
    forall key ensures GroupOk(r, cases + [c], key) {
      CasesOfSnoc(cases, c, key);
      assert GroupOk(groups, cases, key);
    }
  }

  lemma NoIds()
    ensures Ids([]) == []
  {
  }

  /** One group per key, listing its queries in order; its topics suffice for all of them. */
  method Selections(cases: seq<Case>) returns (groups: map<Key, Group>)
    requires forall i :: 0 <= i < |cases| && cases[i].topics.Some? ==> cases[i].topics.value != {}
    ensures forall key :: GroupOk(groups, cases, key)
  {
    groups := map[];
    for i := 0 to |cases|
      invariant forall key :: GroupOk(groups, cases[..i], key)
    {
      groups := AddCase(groups, cases[..i], cases[i]);
      assert cases[..i] + [cases[i]] == cases[..i + 1];
    }
    assert cases[..|cases|] == cases;
  }
}
