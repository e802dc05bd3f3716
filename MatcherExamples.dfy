/** The decisions the matcher's own examples expect (src/matcher.test.ts), derived from
    the general lemmas about patterns and specificity. Each test document is given as the
    groups the parser makes of it, written out by hand. `decodePath` is a parameter; on
    these paths, which hold no escapes, it is taken to return its argument. */
module MatcherExamples {
  import opened Wrappers
  import opened Lexer
  import opened Parser
  import opened Patterns
  import opened Matcher

  // ---------------------------------------------------------------------------
  // The document of the basic example
  // ---------------------------------------------------------------------------

  const StarRules: seq<Rule> :=
    [Rule(Allowed, "/foo"), Rule(Disallowed, "/foo/bar/"), Rule(Disallowed, "/foo/baz/quz.html$")]

  const BasicGroups: seq<RobotRule> :=
    [RobotRule("*", StarRules), RobotRule("ExampleBot", [Rule(Disallowed, "/")])]

  /** Each literal path of the examples is in the supported subset. */
  lemma LiteralSupported(p: string)
    requires p in ["/", "/foo", "/foo/bar/"]
    ensures SupportedPattern(p) && '*' !in p
  {
    StarFreeSupported(p);
  }

  lemma LongerLiteralSupported(p: string)
    requires p in ["/foo/baz/quz.html", "/foo/baz/quz.html$", "/foo/bar?baz=quz"]
    ensures SupportedPattern(p) && '*' !in p
  {
    StarFreeSupported(p);
  }

  lemma StarRulesSupported()
    ensures AllSupported(StarRules)
  {
    LiteralSupported("/foo");
    LiteralSupported("/foo/bar/");
    LongerLiteralSupported("/foo/baz/quz.html$");
  }

  /** A single character that does not occur in the haystack is not contained in it. */
  lemma AbsentChar(hay: string, c: char)
    requires c !in hay
    ensures !Contains(hay, [c])
  {
    ContainsMeaning(hay, [c]);
    forall i: nat | i <= |hay| ensures !OccursAt(hay, [c], i) {
      if i + 1 <= |hay| {
        assert hay[i..i + 1] == [hay[i]];
      }
    }
  }

  /** A needle longer than the haystack is not contained in it. */
  lemma TooLong(hay: string, needle: string)
    requires |hay| < |needle|
    ensures !Contains(hay, needle)
  {
    ContainsMeaning(hay, needle);
  }

  /** "GoogleBot" does not name the "*" group: the token is matched as text, and the
      user agent holds no '*'. */
  lemma GoogleBotSkipsStar(rules: seq<Rule>)
    ensures !Selects(Lower("GoogleBot"), RobotRule("*", rules))
  {
    var ua := Lower("GoogleBot");
    assert Lower("*") == "*";
    assert '*' !in ua by {
      forall i | 0 <= i < |ua| ensures ua[i] != '*' {
        assert ua[i] == LowerChar("GoogleBot"[i]);
      }
    }
    AbsentChar(ua, '*');
  }

  /** "GoogleBot" names neither "*" nor "ExampleBot", so the "*" group's rules apply. */
  lemma GoogleBotGetsStarRules()
    ensures CandidateRules(BasicGroups, "GoogleBot") == Some(StarRules)
  {
    var ua := Lower("GoogleBot");
    GoogleBotSkipsStar(StarRules);
    TooLong(ua, Lower("ExampleBot"));
    assert !Selects(ua, BasicGroups[0]) && !Selects(ua, BasicGroups[1]);
    assert Selected(BasicGroups, ua) == [];
    assert IndexOfAgent(BasicGroups, "*") == Some(0);
  }

  /** In a document of one "*" group, "GoogleBot" gets that group's rules. */
  lemma GoogleBotGetsOnlyGroup(rules: seq<Rule>)
    ensures CandidateRules([RobotRule("*", rules)], "GoogleBot") == Some(rules)
  {
    var groups := [RobotRule("*", rules)];
    GoogleBotSkipsStar(rules);
    assert Selected(groups, Lower("GoogleBot")) == [];
    assert IndexOfAgent(groups, "*") == Some(0);
  }

  /** A literal rule path of the examples matches the paths it is a prefix of. */
  lemma PrefixRule(p: string, s: string)
    requires p in ["/", "/foo", "/foo/bar/"]
    ensures SupportedPattern(p) && (RuleMatches(p, s) <==> p <= s)
  {
    LiteralSupported(p);
    LiteralPatternIsPrefix(p, s);
  }

  /** "/foo/baz/quz.html$" matches the paths that fit "/foo/baz/quz.html" in full. */
  lemma QuzMatches(s: string)
    ensures SupportedPattern("/foo/baz/quz.html$")
    ensures RuleMatches("/foo/baz/quz.html$", s) <==> Fits("/foo/baz/quz.html", s)
  {
    var w := "/foo/baz/quz.html";
    assert w + "$" == "/foo/baz/quz.html$";
    LongerLiteralSupported(w + "$");
    LongerLiteralSupported(w);
    EndAnchoredPattern(w, s);
  }

  /** Counting the slashes of a literal path: at least one per known position. */
  lemma {:induction false} SlashesAtLeast(s: string, ps: seq<nat>)
    requires forall k | 0 <= k < |ps| :: ps[k] < |s| && s[ps[k]] == '/'
    requires forall i, j | 0 <= i < j < |ps| :: ps[i] < ps[j]
    ensures Slashes(s) >= |ps|
  {
    if ps != [] {
      var p := ps[|ps| - 1];
      assert s == s[..p + 1] + s[p + 1..];
      SlashesAppend(s[..p + 1], s[p + 1..]);
      assert s[..p + 1][..p] == s[..p];
      SlashesAtLeast(s[..p], ps[..|ps| - 1]);
    }
  }

  /** A path that is a '/' and then no slash has two segments. */
  lemma OneSlash(w: string)
    requires '/' !in w
    ensures SegmentCount("/" + w) == 2
  {
    SlashesAppend("/", w);
    NoSlashes(w);
    assert "/"[..0] == [];
  }

  /** For "GoogleBot" the basic document decides by the "*" group's rules. */
  lemma GoogleBotDecides(path: string, decode: string -> string)
    ensures CandidatesSupported(BasicGroups, "GoogleBot") && AllSupported(StarRules)
    ensures Decide(BasicGroups, "GoogleBot", path, decode) == MatchRulesSpec(path, StarRules, decode)
  {
    StarRulesSupported();
    GoogleBotGetsStarRules();
  }

  /** Both disallow rules of the basic document have more segments than its allow rule. */
  lemma BarBeatsFoo()
    ensures MoreSpecific(StarRules[1], StarRules[0])
  {
    OneSlash("foo");
    assert "/" + "foo" == StarRules[0].path;
    SlashesAtLeast("/foo/bar/", [0, 4, 8]);
  }
  lemma QuzBeatsFoo()
    ensures MoreSpecific(StarRules[2], StarRules[0])
  {
    OneSlash("foo");
    assert "/" + "foo" == StarRules[0].path;
    SlashesAtLeast("/foo/baz/quz.html$", [0, 4, 8]);
  }
  /** Either disallow of `[allow a, disallow b, disallow c]` that matches decides, when both
      disallows are more specific than the allow. */
  lemma ThreeRuleDisallows(path: string, decode: string -> string, a: string, b: string, c: string)
    requires path != "/robots.txt"
    requires AllSupported([Rule(Allowed, a), Rule(Disallowed, b), Rule(Disallowed, c)])
    requires MoreSpecific(Rule(Disallowed, b), Rule(Allowed, a))
    requires MoreSpecific(Rule(Disallowed, c), Rule(Allowed, a))
    requires RuleMatches(b, decode(path)) || RuleMatches(c, decode(path))
    ensures !MatchRulesSpec(path, [Rule(Allowed, a), Rule(Disallowed, b), Rule(Disallowed, c)], decode)
  {
    var rules := [Rule(Allowed, a), Rule(Disallowed, b), Rule(Disallowed, c)];
    if RuleMatches(b, decode(path)) {
      StrictWinnerDecides(path, rules, decode, rules[1]);
    } else {
      StrictWinnerDecides(path, rules, decode, rules[2]);
    }
  }

  lemma ThreeRuleAllows(path: string, decode: string -> string, a: string, b: string, c: string)
    requires path != "/robots.txt"
    requires AllSupported([Rule(Allowed, a), Rule(Disallowed, b), Rule(Disallowed, c)])
    requires !RuleMatches(b, decode(path)) && !RuleMatches(c, decode(path))
    ensures MatchRulesSpec(path, [Rule(Allowed, a), Rule(Disallowed, b), Rule(Disallowed, c)], decode)
  {
    var rules := [Rule(Allowed, a), Rule(Disallowed, b), Rule(Disallowed, c)];
    if RuleMatches(a, decode(path)) {
      StrictWinnerDecides(path, rules, decode, rules[0]);
    } else {
      NoMatchAllows(path, rules, decode);
    }
  }

  lemma ThreeRuleDecision(path: string, decode: string -> string, a: string, b: string, c: string)
    requires path != "/robots.txt"
    requires AllSupported([Rule(Allowed, a), Rule(Disallowed, b), Rule(Disallowed, c)])
    requires MoreSpecific(Rule(Disallowed, b), Rule(Allowed, a))
    requires MoreSpecific(Rule(Disallowed, c), Rule(Allowed, a))
    ensures MatchRulesSpec(path, [Rule(Allowed, a), Rule(Disallowed, b), Rule(Disallowed, c)], decode) ==
      !(RuleMatches(b, decode(path)) || RuleMatches(c, decode(path)))
  {
    if RuleMatches(b, decode(path)) || RuleMatches(c, decode(path)) {
      ThreeRuleDisallows(path, decode, a, b, c);
    } else {
      ThreeRuleAllows(path, decode, a, b, c);
    }
  }

  /** For "GoogleBot" the basic document disallows exactly the paths that start with
      "/foo/bar/" or fit "/foo/baz/quz.html" in full; "allow: /foo" never outweighs
      them. */
  lemma BasicDecision(path: string, decode: string -> string)
    requires path != "/robots.txt"
    ensures CandidatesSupported(BasicGroups, "GoogleBot")
    ensures Decide(BasicGroups, "GoogleBot", path, decode) ==
      !("/foo/bar/" <= decode(path) || Fits("/foo/baz/quz.html", decode(path)))
  {
    GoogleBotDecides(path, decode);
    BarBeatsFoo();
    QuzBeatsFoo();
    PrefixRule("/foo/bar/", decode(path));
    QuzMatches(decode(path));
    ThreeRuleDecision(path, decode, "/foo", "/foo/bar/", "/foo/baz/quz.html$");
  }

  /** The five expectations of the basic example, one path at a time; on these paths
      `decodePath` is taken to return its argument. */
  lemma FooAllowed(decode: string -> string)
    requires decode("/foo") == "/foo"
    ensures CandidatesSupported(BasicGroups, "GoogleBot")
    ensures Decide(BasicGroups, "GoogleBot", "/foo", decode)
  {
    BasicDecision("/foo", decode);
  }

  lemma RootAllowed(decode: string -> string)
    requires decode("/") == "/"
    ensures CandidatesSupported(BasicGroups, "GoogleBot")
    ensures Decide(BasicGroups, "GoogleBot", "/", decode)
  {
    BasicDecision("/", decode);
  }

  lemma FooBarBazDisallowed(decode: string -> string)
    requires decode("/foo/bar/baz") == "/foo/bar/baz"
    ensures CandidatesSupported(BasicGroups, "GoogleBot")
    ensures !Decide(BasicGroups, "GoogleBot", "/foo/bar/baz", decode)
  {
    BasicDecision("/foo/bar/baz", decode);
  }

  lemma FooBazAllowed(decode: string -> string)
    requires decode("/foo/baz") == "/foo/baz"
    ensures CandidatesSupported(BasicGroups, "GoogleBot")
    ensures Decide(BasicGroups, "GoogleBot", "/foo/baz", decode)
  {
    BasicDecision("/foo/baz", decode);
  }

  lemma QuzDisallowed(decode: string -> string)
    requires decode("/foo/baz/quz.html") == "/foo/baz/quz.html"
    ensures CandidatesSupported(BasicGroups, "GoogleBot")
    ensures !Decide(BasicGroups, "GoogleBot", "/foo/baz/quz.html", decode)
  {
    BasicDecision("/foo/baz/quz.html", decode);
    FitsItself("/foo/baz/quz.html");
  }

  // ---------------------------------------------------------------------------
  // The command-line example and the query-string test
  // ---------------------------------------------------------------------------

  /** With `[allow a, disallow b]` and the disallow more specific, the disallow decides
      wherever it matches. */
  lemma TwoRuleDecision(path: string, decode: string -> string, a: string, b: string)
    requires path != "/robots.txt"
    requires AllSupported([Rule(Allowed, a), Rule(Disallowed, b)])
    requires MoreSpecific(Rule(Disallowed, b), Rule(Allowed, a))
    ensures MatchRulesSpec(path, [Rule(Allowed, a), Rule(Disallowed, b)], decode) ==
      !RuleMatches(b, decode(path))
  {
    var rules := [Rule(Allowed, a), Rule(Disallowed, b)];
    if RuleMatches(b, decode(path)) {
      StrictWinnerDecides(path, rules, decode, rules[1]);
    } else if RuleMatches(a, decode(path)) {
      StrictWinnerDecides(path, rules, decode, rules[0]);
    } else {
      NoMatchAllows(path, rules, decode);
    }
  }

  const CliRules: seq<Rule> := [Rule(Allowed, "/"), Rule(Disallowed, "/foo")]

  /** The document of the command-line example: one "*" group. */
  const CliGroups: seq<RobotRule> := [RobotRule("*", CliRules)]

  /** With "allow: /" and "disallow: /foo", exactly the paths that start with "/foo" are
      disallowed: both rules have two segments and the longer one wins. */
  lemma CliRulesDecision(path: string, decode: string -> string)
    requires path != "/robots.txt"
    ensures AllSupported(CliRules)
    ensures MatchRulesSpec(path, CliRules, decode) == !("/foo" <= decode(path))
  {
    CliRulesRanked();
    PrefixRule("/foo", decode(path));
    TwoRuleDecision(path, decode, "/", "/foo");
  }

  /** Both command-line rules are supported, and "disallow: /foo" outranks "allow: /". */
  lemma CliRulesRanked()
    ensures AllSupported(CliRules)
    ensures MoreSpecific(Rule(Disallowed, "/foo"), Rule(Allowed, "/"))
  {
    LiteralSupported("/");
    LiteralSupported("/foo");
    OneSlash("");
    OneSlash("foo");
    assert "/" + "" == "/" && "/" + "foo" == "/foo";
  }

  /** For "GoogleBot" the command-line document disallows exactly the paths that start
      with "/foo". */
  lemma CliDecision(path: string, decode: string -> string)
    requires path != "/robots.txt"
    ensures CandidatesSupported(CliGroups, "GoogleBot")
    ensures Decide(CliGroups, "GoogleBot", path, decode) == !("/foo" <= decode(path))
  {
    CliRulesDecision(path, decode);
    GoogleBotGetsOnlyGroup(CliRules);
  }

  /** The command-line example: "/foo/bar" is disallowed for "GoogleBot". */
  lemma CliExample(decode: string -> string)
    requires decode("/foo/bar") == "/foo/bar"
    ensures CandidatesSupported(CliGroups, "GoogleBot")
    ensures !Decide(CliGroups, "GoogleBot", "/foo/bar", decode)
  {
    CliDecision("/foo/bar", decode);
  }

  /** A lone disallow decides exactly where it matches. */
  lemma SingleRuleDecision(path: string, decode: string -> string, p: string)
    requires path != "/robots.txt"
    requires SupportedPattern(p)
    ensures MatchRulesSpec(path, [Rule(Disallowed, p)], decode) == !RuleMatches(p, decode(path))
  {
    if RuleMatches(p, decode(path)) {
      StrictWinnerDecides(path, [Rule(Disallowed, p)], decode, Rule(Disallowed, p));
    } else {
      NoMatchAllows(path, [Rule(Disallowed, p)], decode);
    }
  }

  const QueryRules: seq<Rule> := [Rule(Disallowed, "/foo/bar?baz=quz")]

  /** "/foo/bar?baz=quz" is a literal rule path: it matches the paths it is a prefix of. */
  lemma QueryRule(s: string)
    ensures SupportedPattern("/foo/bar?baz=quz")
    ensures RuleMatches("/foo/bar?baz=quz", s) <==> "/foo/bar?baz=quz" <= s
  {
    LongerLiteralSupported("/foo/bar?baz=quz");
    LiteralPatternIsPrefix("/foo/bar?baz=quz", s);
  }

  /** The document of the query-string test: one "*" group with that one rule. */
  const QueryGroups: seq<RobotRule> := [RobotRule("*", QueryRules)]

  /** For "GoogleBot", "disallow: /foo/bar?baz=quz" disallows exactly the paths that start
      with it: '?' is literal, so "/foo/babaz=quz" (which the regular expression `r?` would
      accept) stays allowed. */
  lemma QueryIsLiteral(path: string, decode: string -> string)
    requires path != "/robots.txt"
    ensures CandidatesSupported(QueryGroups, "GoogleBot")
    ensures Decide(QueryGroups, "GoogleBot", path, decode) == !("/foo/bar?baz=quz" <= decode(path))
  {
    QueryRule(decode(path));
    SingleRuleDecision(path, decode, "/foo/bar?baz=quz");
    GoogleBotGetsOnlyGroup(QueryRules);
  }
}
