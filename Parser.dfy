/** The recursive-descent parser: it pulls tokens from a `Lexer` and builds the ordered
    list of user-agent groups, merging groups whose user-agent strings are identical.

    The functions `ExpectKind`, `RuleSpec`, `GroupBody`, `GroupSpec` and `RawGroups`
    give the grammar over a token `Stream`; `Merge` gives the group merging. The
    methods `NextTokenIs`, `ParseRule`, `ParseGroup` (with its loop `ParseLines`) and
    `Parse` (with its merge step `MergeGroup`) are the parser over a stateful lexer,
    proved against them. */
module Parser {
  import opened Wrappers
  import opened Tokens
  import opened Errors
  import opened Lexer

  /** The type of a rule: "ALLOW" or "DISALLOW". */
  datatype RuleType = Allowed | Disallowed

  datatype Rule = Rule(ruleType: RuleType, path: string)

  /** A group: the user-agent product token and its rules in file order. */
  datatype RobotRule = RobotRule(userAgent: string, rules: seq<Rule>)

  // ---------------------------------------------------------------------------
  // The grammar over a token stream
  // ---------------------------------------------------------------------------

  /** Consumes the next token, which must be of kind `kind`. */
  function ExpectKind(s: Stream, kind: TokenType): (r: Result<(Token, Stream), Error>)
    requires WellFormed(s)
    ensures r.Ok? ==> r.value.0.tokenType == kind && Head(s) == Ok(r.value.0)
    ensures r.Ok? ==> WellFormed(r.value.1) && |r.value.1.toks| <= |s.toks|
    ensures r.Ok? && kind != Eof ==> |r.value.1.toks| < |s.toks|
  {
    match Head(s)
    case Err(e) => Err(e)
    case Ok(t) => if t.tokenType != kind then Err(UnexpectedToken(t, Some(kind))) else Ok((t, Tail(s)))
  }

  /** The value of an Allow or Disallow line: a separator and one identifier. */
  function RuleSpec(s: Stream): (r: Result<(string, Stream), Error>)
    requires WellFormed(s)
    ensures r.Ok? ==> WellFormed(r.value.1) && |r.value.1.toks| < |s.toks|
  {
    match ExpectKind(s, Separator)
    case Err(e) => Err(e)
    case Ok((_, s1)) =>
      match ExpectKind(s1, Ident)
      case Err(e) => Err(e)
      case Ok((t, s2)) => Ok((t.literal, s2))
  }

  /** The lines of a group after its header, appended to `rules`. The group ends,
      without consuming it, at end of input or at the next User-agent line. */
  function GroupBody(s: Stream, rules: seq<Rule>): (r: Result<(seq<Rule>, Stream), Error>)
    requires WellFormed(s)
    ensures r.Ok? ==> WellFormed(r.value.1) && |r.value.1.toks| <= |s.toks|
    ensures r.Ok? ==> Head(r.value.1).Ok? && Head(r.value.1).value.tokenType in {Eof, UserAgent}
    ensures r.Ok? ==> rules <= r.value.0
    decreases |s.toks|
  {
    match Head(s)
    case Err(e) => Err(e)
    case Ok(t) =>
      if t.tokenType == Eof || t.tokenType == UserAgent then Ok((rules, s))
      else
        var s1 := Tail(s);
        match t.tokenType
        case Comment => GroupBody(s1, rules)
        case Allow =>
          (match RuleSpec(s1)
           case Err(e) => Err(e)
           case Ok((path, s2)) => GroupBody(s2, rules + [Rule(Allowed, path)]))
        case Disallow =>
          (match RuleSpec(s1)
           case Err(e) => Err(e)
           case Ok((path, s2)) => GroupBody(s2, rules + [Rule(Disallowed, path)]))
        case _ => Err(UnexpectedToken(t, None))
  }

  /** How a group body reacts to the head of the stream. */
  lemma GroupBodyStep(s: Stream, rules: seq<Rule>)
    requires WellFormed(s)
    ensures Head(s).Err? ==> GroupBody(s, rules) == Err(Head(s).error)
    ensures Head(s).Ok? ==> var t := Head(s).value;
      && (t.tokenType in {Eof, UserAgent} ==> GroupBody(s, rules) == Ok((rules, s)))
      && (t.tokenType == Comment ==> GroupBody(s, rules) == GroupBody(Tail(s), rules))
      && (t.tokenType in {Allow, Disallow} ==>
            var rt := if t.tokenType == Allow then Allowed else Disallowed;
            match RuleSpec(Tail(s))
            case Err(e) => GroupBody(s, rules) == Err(e)
            case Ok((path, s2)) => GroupBody(s, rules) == GroupBody(s2, rules + [Rule(rt, path)]))
      && (t.tokenType !in {Eof, UserAgent, Comment, Allow, Disallow} ==>
            GroupBody(s, rules) == Err(UnexpectedToken(t, None)))
  {
  }

  /** A group after its User-agent keyword: a separator, the product token, the lines. */
  function GroupSpec(s: Stream): (r: Result<(RobotRule, Stream), Error>)
    requires WellFormed(s)
    ensures r.Ok? ==> WellFormed(r.value.1) && |r.value.1.toks| <= |s.toks|
  {
    match ExpectKind(s, Separator)
    case Err(e) => Err(e)
    case Ok((_, s1)) =>
      match ExpectKind(s1, Ident)
      case Err(e) => Err(e)
      case Ok((t, s2)) =>
        match GroupBody(s2, [])
        case Err(e) => Err(e)
        case Ok((rules, s3)) => Ok((RobotRule(t.literal, rules), s3))
  }

  /** The groups of a document in file order, before merging. At top level only
      User-agent lines, comments and end of input are accepted. */
  function RawGroups(s: Stream): Result<seq<RobotRule>, Error>
    requires WellFormed(s)
    decreases |s.toks|
  {
    match Head(s)
    case Err(e) => Err(e)
    case Ok(t) =>
      match t.tokenType
      case Eof => Ok([])
      case Comment => RawGroups(Tail(s))
      case UserAgent =>
        (match GroupSpec(Tail(s))
         case Err(e) => Err(e)
         case Ok((g, rest)) =>
           match RawGroups(rest)
           case Err(e) => Err(e)
           case Ok(gs) => Ok([g] + gs))
      case _ => Err(UnexpectedToken(t, None))
  }

  // ---------------------------------------------------------------------------
  // Group merging
  // ---------------------------------------------------------------------------

  /** The first group whose user agent is exactly `ua` (`result.find(...)`). */
  function IndexOfAgent(groups: seq<RobotRule>, ua: string): (r: Option<nat>)
    ensures r.Some? ==> r.value < |groups| && groups[r.value].userAgent == ua
    ensures r.Some? ==> forall j | 0 <= j < r.value :: groups[j].userAgent != ua
    ensures r.None? ==> forall j | 0 <= j < |groups| :: groups[j].userAgent != ua
  {
    if groups == [] then None
    else if groups[0].userAgent == ua then Some(0)
    else match IndexOfAgent(groups[1..], ua)
      case None => None
      case Some(i) => Some(i + 1)
  }

  /** Adds a parsed group: its rules go to the end of an existing group with the same
      user agent, otherwise it becomes a new last group. */
  function AddGroup(groups: seq<RobotRule>, g: RobotRule): seq<RobotRule>
  {
    match IndexOfAgent(groups, g.userAgent)
    case Some(i) => groups[i := RobotRule(groups[i].userAgent, groups[i].rules + g.rules)]
    case None => groups + [g]
  }

  /** The document: the raw groups added one after the other. */
  function Merge(raw: seq<RobotRule>): seq<RobotRule>
  {
    if raw == [] then [] else AddGroup(Merge(raw[..|raw| - 1]), raw[|raw| - 1])
  }

  /** The parse of a whole input: the lexer's stream, parsed and merged. */
  function ParseSpec(input: seq<byte>): Result<seq<RobotRule>, Error>
  {
    match RawGroups(Remaining(input, 0))
    case Err(e) => Err(e)
    case Ok(raw) => Ok(Merge(raw))
  }

  lemma MergeStep(raw: seq<RobotRule>, g: RobotRule)
    ensures Merge(raw + [g]) == AddGroup(Merge(raw), g)
  {
    assert (raw + [g])[..|raw|] == raw;
  }

  /** The user agents of the groups, in order. */
  function Agents(groups: seq<RobotRule>): (r: seq<string>)
    ensures |r| == |groups|
    ensures forall i | 0 <= i < |groups| :: r[i] == groups[i].userAgent
  {
    seq(|groups|, i requires 0 <= i < |groups| => groups[i].userAgent)
  }

  /** The strings of `xs` in order of first appearance, each once. */
  function Dedup(xs: seq<string>): seq<string>
  {
    if xs == [] then []
    else
      var d := Dedup(xs[..|xs| - 1]);
      if xs[|xs| - 1] in d then d else d + [xs[|xs| - 1]]
  }

  /** The rules of every raw group whose user agent is exactly `ua`, in file order. */
  function RulesFor(raw: seq<RobotRule>, ua: string): seq<Rule>
  {
    if raw == [] then []
    else RulesFor(raw[..|raw| - 1], ua) + (if raw[|raw| - 1].userAgent == ua then raw[|raw| - 1].rules else [])
  }

  lemma {:induction false} RulesForAbsent(raw: seq<RobotRule>, ua: string)
    requires ua !in Agents(raw)
    ensures RulesFor(raw, ua) == []
  {
    if raw != [] {
      assert Agents(raw[..|raw| - 1]) == Agents(raw)[..|raw| - 1];
      RulesForAbsent(raw[..|raw| - 1], ua);
    }
  }

  /** Merging keeps one group per distinct user agent, in order of first appearance,
      and gives each the rules of all raw groups with exactly that user agent, in file
      order. */
  lemma {:induction false} MergeSpec(raw: seq<RobotRule>)
    ensures Agents(Merge(raw)) == Dedup(Agents(raw))
    ensures forall i | 0 <= i < |Merge(raw)| :: Merge(raw)[i].rules == RulesFor(raw, Merge(raw)[i].userAgent)
  {
    if raw != [] {
      var init, g := raw[..|raw| - 1], raw[|raw| - 1];
      MergeSpec(init);
      MergeUnique(init);
      var m := Merge(init);
      assert Agents(raw)[..|raw| - 1] == Agents(init);
      assert raw[..|raw| - 1] == init;
      match IndexOfAgent(m, g.userAgent)
      case Some(i) =>
        assert g.userAgent in Dedup(Agents(init)) by {
          assert Agents(m)[i] == g.userAgent;
        }
        assert Agents(Merge(raw)) == Agents(m);
        forall j | 0 <= j < |Merge(raw)|
          ensures Merge(raw)[j].rules == RulesFor(raw, Merge(raw)[j].userAgent)
        {
          if j != i {
            assert m[j].userAgent != g.userAgent;
          }
        }
      case None =>
        assert g.userAgent !in Dedup(Agents(init)) by {
          forall k | 0 <= k < |Agents(m)| ensures Agents(m)[k] != g.userAgent {}
        }
        assert g.userAgent !in Agents(init) by {
          DedupMembers(Agents(init));
        }
        RulesForAbsent(init, g.userAgent);
        assert Agents(Merge(raw)) == Agents(m) + [g.userAgent];
        forall j | 0 <= j < |Merge(raw)|
          ensures Merge(raw)[j].rules == RulesFor(raw, Merge(raw)[j].userAgent)
        {
          if j < |m| {
            assert m[j].userAgent != g.userAgent;
          }
        }
    }
  }

  lemma {:induction false} DedupMembers(xs: seq<string>)
    ensures forall x :: x in Dedup(xs) <==> x in xs
  {
    if xs != [] {
      DedupMembers(xs[..|xs| - 1]);
      assert xs == xs[..|xs| - 1] + [xs[|xs| - 1]];
    }
  }

  /** No two merged groups have the same user agent. */
  lemma {:induction false} MergeUnique(raw: seq<RobotRule>)
    ensures forall i, j | 0 <= i < j < |Merge(raw)| :: Merge(raw)[i].userAgent != Merge(raw)[j].userAgent
  {
    if raw != [] {
      MergeUnique(raw[..|raw| - 1]);
    }
  }

  /** The merge is case-sensitive: "GoogleBot" and "googlebot" stay two groups. */
  lemma MergeIsCaseSensitive(r1: seq<Rule>, r2: seq<Rule>)
    ensures |Merge([RobotRule("GoogleBot", r1), RobotRule("googlebot", r2)])| == 2
  {
    var raw := [RobotRule("GoogleBot", r1), RobotRule("googlebot", r2)];
    assert raw[..1][..0] == [];
    assert Merge(raw[..1]) == [raw[0]];
    assert "GoogleBot"[0] != "googlebot"[0];
  }

  // ---------------------------------------------------------------------------
  // Properties of the grammar
  // ---------------------------------------------------------------------------

  /** A document of comments only parses to no groups. */
  lemma {:induction false} CommentsOnly(s: Stream)
    requires WellFormed(s) && s.failure.None?
    requires forall i | 0 <= i < |s.toks| - 1 :: s.toks[i].tokenType == Comment
    ensures RawGroups(s) == Ok([])
    decreases |s.toks|
  {
    if s.toks[0].tokenType != Eof {
      var t := Tail(s);
      assert forall i | 0 <= i < |t.toks| - 1 :: t.toks[i] == s.toks[i + 1];
      CommentsOnly(t);
    }
  }

  /** An input of nothing but whitespace parses to no groups. */
  lemma EmptyDocument(input: seq<byte>)
    requires forall i | 0 <= i < |input| :: IsWhitespace(input[i])
    ensures ParseSpec(input) == Ok([])
  {
    assert WhitespaceEnd(input, 0) == |input|;
  }

  /** At top level any token other than User-agent, a comment or end of input is an
      error naming that token. */
  lemma TopLevelRejects(s: Stream)
    requires WellFormed(s) && Head(s).Ok?
    requires Head(s).value.tokenType !in {UserAgent, Comment, Eof}
    ensures RawGroups(s) == Err(UnexpectedToken(Head(s).value, None))
  {
  }

  /** A group header without a separator, or without an identifier after it, is an
      error naming the token found and the kind expected. */
  lemma HeaderNeedsSeparatorAndIdent(s: Stream)
    requires WellFormed(s) && Head(s).Ok?
    ensures Head(s).value.tokenType != Separator ==>
      GroupSpec(s) == Err(UnexpectedToken(Head(s).value, Some(Separator)))
    ensures Head(s).value.tokenType == Separator && Head(Tail(s)).Ok? && Head(Tail(s)).value.tokenType != Ident ==>
      GroupSpec(s) == Err(UnexpectedToken(Head(Tail(s)).value, Some(Ident)))
  {
  }

  /** An Allow or Disallow line adds exactly one rule, whose path is the literal of the
      single identifier after the separator; a comment line adds nothing. */
  lemma RuleLineAddsOneRule(s: Stream, rules: seq<Rule>)
    requires WellFormed(s) && |s.toks| >= 1
    requires s.toks[0].tokenType in {Allow, Disallow, Comment}
    requires s.toks[0].tokenType != Comment ==>
      |s.toks| >= 3 && s.toks[1].tokenType == Separator && s.toks[2].tokenType == Ident
    ensures s.toks[0].tokenType == Comment ==> GroupBody(s, rules) == GroupBody(Tail(s), rules)
    ensures s.toks[0].tokenType != Comment ==>
      var rt := if s.toks[0].tokenType == Allow then Allowed else Disallowed;
      GroupBody(s, rules) == GroupBody(Tail(Tail(Tail(s))), rules + [Rule(rt, s.toks[2].literal)])
  {
  }

  /** A rule line without a colon is an error naming the token found instead. */
  lemma RuleLineNeedsSeparator(s: Stream, rules: seq<Rule>)
    requires WellFormed(s) && |s.toks| >= 2
    requires s.toks[0].tokenType in {Allow, Disallow} && s.toks[1].tokenType != Separator
    ensures GroupBody(s, rules) == Err(UnexpectedToken(s.toks[1], Some(Separator)))
  {
  }

  // ---------------------------------------------------------------------------
  // The parser over a stateful lexer
  // ---------------------------------------------------------------------------

  /** Consumes the next token and fails unless it is of kind `kind`. */
  method NextTokenIs(l: Lexer, kind: TokenType) returns (r: Result<Token, Error>)
    requires l.Valid()
    modifies l
    ensures l.Valid()
    ensures var x := ExpectKind(old(l.Pending()), kind);
      (x.Ok? ==> r == Ok(x.value.0) && l.Pending() == x.value.1)
      && (x.Err? ==> r == Err(x.error))
  {
    var token :- l.NextToken();
    if token.tokenType != kind {
      return Err(UnexpectedToken(token, Some(kind)));
    }
    return Ok(token);
  }

  /** Parses the value of an Allow or Disallow line. */
  method ParseRule(l: Lexer) returns (r: Result<string, Error>)
    requires l.Valid()
    modifies l
    ensures l.Valid()
    ensures var x := RuleSpec(old(l.Pending()));
      (x.Ok? ==> r == Ok(x.value.0) && l.Pending() == x.value.1)
      && (x.Err? ==> r == Err(x.error))
  {
    var _ :- NextTokenIs(l, Separator);
    var token :- NextTokenIs(l, Ident);
    return Ok(token.literal);
  }

  /** Parses a group after its User-agent keyword. */
  method ParseGroup(l: Lexer) returns (r: Result<RobotRule, Error>)
    requires l.Valid()
    modifies l
    ensures l.Valid()
    ensures var x := GroupSpec(old(l.Pending()));
      (x.Ok? ==> r == Ok(x.value.0) && l.Pending() == x.value.1)
      && (x.Err? ==> r == Err(x.error))
  {
    var _ :- NextTokenIs(l, Separator);
    var token :- NextTokenIs(l, Ident);
    var rules :- ParseLines(l, []);
    return Ok(RobotRule(token.literal, rules));
  }

  /** The loop of `parseGroup`: reads Allow, Disallow and comment lines, appending the
      rules to `rules`, until end of input or the next User-agent line. */
  method ParseLines(l: Lexer, rules: seq<Rule>) returns (r: Result<seq<Rule>, Error>)
    requires l.Valid()
    modifies l
    ensures l.Valid()
    ensures var x := GroupBody(old(l.Pending()), rules);
      (x.Ok? ==> r == Ok(x.value.0) && l.Pending() == x.value.1)
      && (x.Err? ==> r == Err(x.error))
  {
    var acc := rules;
    ghost var body := l.Pending();
    while true
      invariant l.Valid()
      invariant GroupBody(body, rules) == GroupBody(l.Pending(), acc)
      decreases |l.Pending().toks|
    {
      ghost var current := l.Pending();
      GroupBodyStep(current, acc);
      var peeked :- l.PeekToken();
      if peeked.tokenType == Eof || peeked.tokenType == UserAgent {
        break;
      }
      var res := l.NextToken();
      assert res == Ok(peeked);
      var next := res.value;
      if next.tokenType == Allow || next.tokenType == Disallow {
        var path :- ParseRule(l);
        acc := acc + [Rule(if next.tokenType == Allow then Allowed else Disallowed, path)];
      } else if next.tokenType != Comment {
        return Err(UnexpectedToken(next, None));
      }
    }
    return Ok(acc);
  }

  /** Prefixes the groups parsed so far to the parse of the rest. */
  function Prepend(done: seq<RobotRule>, rest: Result<seq<RobotRule>, Error>): Result<seq<RobotRule>, Error>
  {
    match rest
    case Ok(gs) => Ok(done + gs)
    case Err(e) => Err(e)
  }

  /** How the top level reacts to the head of the stream. */
  lemma RawGroupsStep(s: Stream)
    requires WellFormed(s)
    ensures Head(s).Err? ==> RawGroups(s) == Err(Head(s).error)
    ensures Head(s).Ok? ==> var t := Head(s).value;
      && (t.tokenType == Eof ==> RawGroups(s) == Ok([]))
      && (t.tokenType == Comment ==> RawGroups(s) == RawGroups(Tail(s)))
      && (t.tokenType == UserAgent && GroupSpec(Tail(s)).Err? ==> RawGroups(s) == Err(GroupSpec(Tail(s)).error))
      && (t.tokenType !in {Eof, Comment, UserAgent} ==> RawGroups(s) == Err(UnexpectedToken(t, None)))
  {
  }

  /** A User-agent token at top level starts a group, after which parsing resumes. */
  lemma RawGroupsGroup(s: Stream)
    requires WellFormed(s) && Head(s).Ok? && Head(s).value.tokenType == UserAgent
    requires GroupSpec(Tail(s)).Ok?
    ensures var (g, rest) := GroupSpec(Tail(s)).value;
      RawGroups(s) == Prepend([g], RawGroups(rest))
  {
  }

  lemma PrependNothing(rest: Result<seq<RobotRule>, Error>)
    ensures Prepend([], rest) == rest
  {
    if rest.Ok? {
      assert [] + rest.value == rest.value;
    }
  }

  lemma PrependTwice(a: seq<RobotRule>, b: seq<RobotRule>, rest: Result<seq<RobotRule>, Error>)
    ensures Prepend(a, Prepend(b, rest)) == Prepend(a + b, rest)
  {
    if rest.Ok? {
      assert a + (b + rest.value) == (a + b) + rest.value;
    }
  }

  /** What the document parses to, once the raw groups before the cursor are known and
      the rest of the stream fails or holds no more groups. */
  lemma ParseSpecFrom(input: seq<byte>, raw: seq<RobotRule>, rest: Result<seq<RobotRule>, Error>)
    requires RawGroups(Remaining(input, 0)) == Prepend(raw, rest)
    ensures rest.Err? ==> ParseSpec(input) == Err(rest.error)
    ensures rest == Ok([]) ==> ParseSpec(input) == Ok(Merge(raw))
  {
    if rest == Ok([]) {
      assert raw + [] == raw;
    }
  }

  /** Adds a parsed group to the document: its rules go to the end of the first group
      with the same user agent, or it becomes a new group at the end. */
  method MergeGroup(groups: seq<RobotRule>, group: RobotRule) returns (merged: seq<RobotRule>)
    ensures merged == AddGroup(groups, group)
  {
    var found := IndexOfAgent(groups, group.userAgent);
    if found.Some? {
      var i := found.value;
      merged := groups[i := RobotRule(groups[i].userAgent, groups[i].rules + group.rules)];
    } else {
      merged := groups + [group];
    }
  }

  /** Parses a whole document. */
  method Parse(input: seq<byte>) returns (r: Result<seq<RobotRule>, Error>)
    ensures r == ParseSpec(input)
  {
    var tokens := new Lexer(input);
    var result: seq<RobotRule> := [];
    ghost var raw: seq<RobotRule> := [];
    PrependNothing(RawGroups(tokens.Pending()));
    while true
      invariant tokens.Valid() && tokens.input == input
      invariant result == Merge(raw)
      invariant RawGroups(Remaining(input, 0)) == Prepend(raw, RawGroups(tokens.Pending()))
      decreases |tokens.Pending().toks|
    {
      ghost var before := tokens.Pending();
      RawGroupsStep(before);
      ParseSpecFrom(input, raw, RawGroups(before));
      var token :- tokens.NextToken();
      if token.tokenType == UserAgent {
        var group :- ParseGroup(tokens);
        ghost var after := tokens.Pending();
        RawGroupsGroup(before);
        PrependTwice(raw, [group], RawGroups(after));
        result := MergeGroup(result, group);
        MergeStep(raw, group);
        raw := raw + [group];
        assert tokens.Pending() == after;
      } else if token.tokenType == Eof {
        return Ok(result);
      } else if token.tokenType != Comment {
        return Err(UnexpectedToken(token, None));
      }
    }
  }
}
