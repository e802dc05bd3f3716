/** The matcher of src/matcher.ts: choosing the groups that apply to a user agent,
    collecting their rules, and deciding allow or disallow for a path by the most
    specific matching rule.

    `matcher` and `matchRules` are methods with the source's loops, proved against
    the specification functions `Decide` and `MatchRulesSpec`; the lemmas at the end
    state what those functions promise. */
module Matcher {
  import opened Wrappers
  import opened Errors
  import opened Lexer
  import opened Parser
  import opened Patterns

  // ---------------------------------------------------------------------------
  // Substrings and group selection
  // ---------------------------------------------------------------------------

  /** Whether `needle` occurs in `hay` starting at offset `i`. */
  predicate OccursAt(hay: string, needle: string, i: nat)
  {
    i + |needle| <= |hay| && hay[i..i + |needle|] == needle
  }

  /** `hay.includes(needle)`. */
  predicate Contains(hay: string, needle: string)
    decreases |hay|
  {
    if needle <= hay then true
    else if hay == [] then false
    else Contains(hay[1..], needle)
  }

  /** `includes` holds exactly when the needle occurs at some offset. */
  lemma {:induction false} ContainsMeaning(hay: string, needle: string)
    ensures Contains(hay, needle) <==> exists i: nat | i <= |hay| :: OccursAt(hay, needle, i)
    decreases |hay|
  {
    if needle <= hay {
      assert hay[0..|needle|] == needle;
      assert OccursAt(hay, needle, 0);
    } else if hay == [] {
    } else {
      ContainsMeaning(hay[1..], needle);
      if Contains(hay[1..], needle) {
        var i: nat :| i <= |hay[1..]| && OccursAt(hay[1..], needle, i);
        assert hay[i + 1..i + 1 + |needle|] == hay[1..][i..i + |needle|];
        assert OccursAt(hay, needle, i + 1);
      }
      if exists i: nat | i <= |hay| :: OccursAt(hay, needle, i) {
        var i: nat :| i <= |hay| && OccursAt(hay, needle, i);
        if i > 0 {
          assert hay[1..][i - 1..i - 1 + |needle|] == hay[i..i + |needle|];
          assert OccursAt(hay[1..], needle, i - 1);
        }
      }
    }
  }

  /** Whether the group applies to the lower-cased user agent `ua`: its own token,
      lower-cased, occurs in it. */
  predicate Selects(ua: string, g: RobotRule)
  {
    Contains(ua, Lower(g.userAgent))
  }

  /** `robotRules.filter(...)`: the groups that apply, in document order. */
  function Selected(groups: seq<RobotRule>, ua: string): (sel: seq<RobotRule>)
    ensures |sel| <= |groups|
    ensures forall g :: g in sel <==> g in groups && Selects(ua, g)
  {
    if groups == [] then []
    else
      var init := groups[..|groups| - 1];
      var last := groups[|groups| - 1];
      assert groups == init + [last];
      Selected(init, ua) + (if Selects(ua, last) then [last] else [])
  }

  /** The rules of the groups `gs`, concatenated in order. */
  function Flatten(gs: seq<RobotRule>): (rs: seq<Rule>)
    ensures forall r :: r in rs <==> exists g :: g in gs && r in g.rules
  {
    if gs == [] then []
    else
      var init := gs[..|gs| - 1];
      assert gs == init + [gs[|gs| - 1]];
      Flatten(init) + gs[|gs| - 1].rules
  }

  /** Filtering keeps document order: the groups selected from two stretches of a
      document are those of the first stretch followed by those of the second. */
  lemma {:induction false} SelectedAppend(a: seq<RobotRule>, b: seq<RobotRule>, ua: string)
    ensures Selected(a + b, ua) == Selected(a, ua) + Selected(b, ua)
    decreases |b|
  {
    if b == [] {
      assert a + b == a;
    } else {
      var init, last := b[..|b| - 1], b[|b| - 1];
      assert (a + b)[..|a + b| - 1] == a + init;
      assert (a + b)[|a + b| - 1] == last;
      SelectedAppend(a, init, ua);
      var tail := if Selects(ua, last) then [last] else [];
      assert Selected(a + b, ua) == Selected(a, ua) + Selected(init, ua) + tail;
      assert Selected(b, ua) == Selected(init, ua) + tail;
    }
  }

  /** Collecting keeps document order: the rules of two stretches of groups are the
      rules of the first stretch followed by those of the second. */
  lemma {:induction false} FlattenAppend(a: seq<RobotRule>, b: seq<RobotRule>)
    ensures Flatten(a + b) == Flatten(a) + Flatten(b)
    decreases |b|
  {
    if b == [] {
      assert a + b == a;
    } else {
      var init, last := b[..|b| - 1], b[|b| - 1];
      assert (a + b)[..|a + b| - 1] == a + init;
      assert (a + b)[|a + b| - 1] == last;
      FlattenAppend(a, init);
      assert Flatten(a + b) == Flatten(a) + Flatten(init) + last.rules;
      assert Flatten(b) == Flatten(init) + last.rules;
    }
  }

  lemma SelectedStep(groups: seq<RobotRule>, i: nat, ua: string)
    requires i < |groups|
    ensures Selected(groups[..i + 1], ua) ==
      Selected(groups[..i], ua) + (if Selects(ua, groups[i]) then [groups[i]] else [])
  {
    assert groups[..i + 1][..i] == groups[..i];
  }

  lemma FlattenStep(gs: seq<RobotRule>, j: nat)
    requires j < |gs|
    ensures Flatten(gs[..j + 1]) == Flatten(gs[..j]) + gs[j].rules
  {
    assert gs[..j + 1][..j] == gs[..j];
  }

  lemma FlattenOne(g: RobotRule)
    ensures Flatten([g]) == g.rules
  {
    assert [g][..0] == [];
  }

  /** The rules the decision is taken from, or None when no group applies and there is
      no "*" group, in which case the path is allowed. */
  function CandidateRules(groups: seq<RobotRule>, userAgent: string): (c: Option<seq<Rule>>)
    ensures c.Some? ==> forall r | r in c.value :: exists g :: g in groups && r in g.rules
  {
    var sel := Selected(groups, Lower(userAgent));
    if sel != [] then Some(Flatten(sel))
    else match IndexOfAgent(groups, "*")
      case None => None
      case Some(i) =>
        assert groups[i] in groups;
        Some(groups[i].rules)
  }

  // ---------------------------------------------------------------------------
  // Specificity
  // ---------------------------------------------------------------------------

  /** `path.split("/").length`, counted as one more than the slashes (see
      `SegmentCountIsSplitLength`). */
  function SegmentCount(path: string): (n: nat)
    ensures n >= 1
  {
    Slashes(path) + 1
  }

  lemma SegmentCountIsSplitLength(path: string)
    ensures SegmentCount(path) == |Split(path)|
  {
    SplitCount(path);
  }

  /** Rule `a` is more specific than rule `b`: more segments, or as many and a longer
      path. */
  predicate MoreSpecific(a: Rule, b: Rule)
  {
    SegmentCount(a.path) > SegmentCount(b.path) ||
    (SegmentCount(a.path) == SegmentCount(b.path) && |a.path| > |b.path|)
  }

  /** The comparator handed to `sort`: -1 puts `a` first. It never answers 0, so two
      rules of the same specificity each claim to come after the other. */
  function Compare(a: Rule, b: Rule): (c: int)
    ensures c == -1 || c == 1
    ensures c == -1 <==> MoreSpecific(a, b)
  {
    var al := SegmentCount(a.path);
    var bl := SegmentCount(b.path);
    if al == bl then (if |a.path| > |b.path| then -1 else 1)
    else if al > bl then -1 else 1
  }

  /** The position of the rule that heads the sorted matches: no rule is more specific
      than it, and among rules of equal specificity it is the first. */
  function BestIndex(ms: seq<Rule>): (b: nat)
    requires |ms| > 0
    ensures b < |ms|
    ensures forall j | 0 <= j < |ms| :: !MoreSpecific(ms[j], ms[b])
    ensures forall j | 0 <= j < b :: MoreSpecific(ms[b], ms[j])
  {
    if |ms| == 1 then 0
    else
      var k := BestIndex(ms[..|ms| - 1]);
      assert forall j | 0 <= j < |ms| - 1 :: ms[..|ms| - 1][j] == ms[j];
      if MoreSpecific(ms[|ms| - 1], ms[k]) then |ms| - 1 else k
  }

  // ---------------------------------------------------------------------------
  // The decision
  // ---------------------------------------------------------------------------

  /** Every rule path is in the expression subset `toRegExpPath` is modelled for. */
  predicate AllSupported(rules: seq<Rule>)
  {
    forall r | r in rules :: SupportedPattern(r.path)
  }

  predicate GroupsSupported(groups: seq<RobotRule>)
  {
    forall g | g in groups :: AllSupported(g.rules)
  }

  /** The rules `matcher` compiles for this user agent, if any, are all in the
      supported subset; the rules of groups that are not selected are never compiled. */
  predicate CandidatesSupported(groups: seq<RobotRule>, userAgent: string)
  {
    match CandidateRules(groups, userAgent)
    case None => true
    case Some(rules) => AllSupported(rules)
  }

  lemma GroupsSupportedCandidates(groups: seq<RobotRule>, userAgent: string)
    requires GroupsSupported(groups)
    ensures CandidatesSupported(groups, userAgent)
  {
  }

  /** The rules whose compiled pattern matches the decoded path, in order. */
  function MatchingRules(rules: seq<Rule>, decoded: string): (ms: seq<Rule>)
    requires AllSupported(rules)
    ensures |ms| <= |rules|
    ensures forall x :: x in ms <==> x in rules && RuleMatches(x.path, decoded)
  {
    if rules == [] then []
    else
      var init := rules[..|rules| - 1];
      var last := rules[|rules| - 1];
      assert rules == init + [last];
      MatchingRules(init, decoded) + (if RuleMatches(last.path, decoded) then [last] else [])
  }

  lemma MatchingRulesStep(rules: seq<Rule>, i: nat, decoded: string)
    requires i < |rules| && AllSupported(rules)
    ensures AllSupported(rules[..i]) && AllSupported(rules[..i + 1])
    ensures MatchingRules(rules[..i + 1], decoded) ==
      MatchingRules(rules[..i], decoded) + (if RuleMatches(rules[i].path, decoded) then [rules[i]] else [])
  {
    assert rules[..i + 1][..i] == rules[..i];
    assert forall r | r in rules[..i + 1] :: r in rules;
  }

  lemma BestIndexStep(ms: seq<Rule>, k: nat)
    requires 0 < k < |ms|
    ensures BestIndex(ms[..k + 1]) ==
      if MoreSpecific(ms[k], ms[BestIndex(ms[..k])]) then k else BestIndex(ms[..k])
  {
    assert ms[..k + 1][..k] == ms[..k];
  }

  /** What `matchRules` answers: true for "/robots.txt", true when no rule matches the
      decoded path, and otherwise whether the most specific match is an Allow. */
  function MatchRulesSpec(path: string, rules: seq<Rule>, decode: string -> string): bool
    requires path != "/robots.txt" ==> AllSupported(rules)
  {
    if path == "/robots.txt" then true
    else
      var ms := MatchingRules(rules, decode(path));
      if ms == [] then true else ms[BestIndex(ms)].ruleType == Allowed
  }

  /** What `matcher` answers for parsed groups. */
  function Decide(groups: seq<RobotRule>, userAgent: string, path: string, decode: string -> string): bool
    requires path != "/robots.txt" ==> CandidatesSupported(groups, userAgent)
  {
    match CandidateRules(groups, userAgent)
    case None => true
    case Some(rules) => MatchRulesSpec(path, rules, decode)
  }

  // ---------------------------------------------------------------------------
  // The methods
  // ---------------------------------------------------------------------------

  /** The filter loop of `matchRules`: compiles each rule path in turn and keeps the
      rules whose expression accepts the decoded path. */
  method CollectMatches(rules: seq<Rule>, decoded: string) returns (matches: seq<Rule>)
    requires AllSupported(rules)
    ensures matches == MatchingRules(rules, decoded)
  {
    matches := [];
    for i := 0 to |rules|
      invariant AllSupported(rules[..i])
      invariant matches == MatchingRules(rules[..i], decoded)
    {
      MatchingRulesStep(rules, i, decoded);
      if RuleMatches(rules[i].path, decoded) {
        matches := matches + [rules[i]];
      }
    }
    assert rules[..|rules|] == rules;
  }

  /** `matchRules`: filters the rules by the decoded path, then takes the head of the
      matches sorted by `Compare`. */
  method MatchRules(path: string, rules: seq<Rule>, decode: string -> string) returns (allowed: bool)
    requires path != "/robots.txt" ==> AllSupported(rules)
    ensures allowed == MatchRulesSpec(path, rules, decode)
  {
    if path == "/robots.txt" {
      return true;
    }
    var decoded := decode(path);
    var matches := CollectMatches(rules, decoded);
    if |matches| == 0 {
      return true;
    }
    var best := 0;
    for k := 1 to |matches|
      invariant best == BestIndex(matches[..k])
    {
      BestIndexStep(matches, k);
      if Compare(matches[k], matches[best]) < 0 {
        best := k;
      }
    }
    assert matches[..|matches|] == matches;
    return matches[best].ruleType == Allowed;
  }

  /** `matcher`: parses the document, selects the groups for the user agent (falling
      back to the "*" group), concatenates their rules and decides. A parse error is
      the result whatever the path. */
  method Matcher(input: seq<byte>, userAgent: string, path: string, decode: string -> string)
    returns (r: Result<bool, Error>)
    requires ParseSpec(input).Ok? && path != "/robots.txt" ==>
      CandidatesSupported(ParseSpec(input).value, userAgent)
    ensures ParseSpec(input).Err? ==> r == Err(ParseSpec(input).error)
    ensures ParseSpec(input).Ok? ==> r == Ok(Decide(ParseSpec(input).value, userAgent, path, decode))
  {
    var robotRules :- Parse(input);
    var ua := Lower(userAgent);
    var matches: seq<RobotRule> := [];
    for i := 0 to |robotRules|
      invariant matches == Selected(robotRules[..i], ua)
    {
      SelectedStep(robotRules, i, ua);
      if Contains(ua, Lower(robotRules[i].userAgent)) {
        matches := matches + [robotRules[i]];
      }
    }
    assert robotRules[..|robotRules|] == robotRules;
    ghost var selected := matches;
    if |matches| == 0 {
      var star := IndexOfAgent(robotRules, "*");
      if star.None? {
        return Ok(true);
      }
      matches := matches + [robotRules[star.value]];
    }
    var rules: seq<Rule> := [];
    for j := 0 to |matches|
      invariant rules == Flatten(matches[..j])
    {
      FlattenStep(matches, j);
      rules := rules + matches[j].rules;
    }
    assert matches[..|matches|] == matches;
    if selected == [] {
      FlattenOne(matches[0]);
    }
    assert CandidateRules(robotRules, userAgent) == Some(rules);
    var allowed := MatchRules(path, rules, decode);
    return Ok(allowed);
  }

  // ---------------------------------------------------------------------------
  // What the decision promises
  // ---------------------------------------------------------------------------

  /** The rules come from the groups whose token occurs, case-insensitively, in the user
      agent; only when there are none is the first "*" group used; with neither there are
      no rules and the path is allowed. */
  lemma CandidateRulesMeaning(groups: seq<RobotRule>, userAgent: string)
    ensures var c := CandidateRules(groups, userAgent);
      && (c.None? <==> forall g | g in groups :: !Selects(Lower(userAgent), g) && g.userAgent != "*")
      && ((exists g | g in groups :: Selects(Lower(userAgent), g)) ==>
            c.Some? && forall r :: r in c.value <==> exists g :: g in groups && Selects(Lower(userAgent), g) && r in g.rules)
      && ((forall g | g in groups :: !Selects(Lower(userAgent), g)) && c.Some? ==>
            exists i | 0 <= i < |groups| ::
              && groups[i].userAgent == "*"
              && (forall j | 0 <= j < i :: groups[j].userAgent != "*")
              && c.value == groups[i].rules)
  {
    var ua := Lower(userAgent);
    var sel := Selected(groups, ua);
    if exists g | g in groups :: Selects(ua, g) {
      var g :| g in groups && Selects(ua, g);
      assert g in sel;
    }
    if sel == [] {
      match IndexOfAgent(groups, "*")
      case None =>
      case Some(i) =>
        assert groups[i] in groups;
    } else {
      assert sel[0] in sel;
    }
  }

  /** "/robots.txt" is allowed whatever the groups and the user agent. */
  lemma RobotsTxtAllowed(groups: seq<RobotRule>, userAgent: string, decode: string -> string)
    ensures Decide(groups, userAgent, "/robots.txt", decode)
  {
  }

  /** When no candidate rule matches the decoded path, the path is allowed. */
  lemma NoMatchAllows(path: string, rules: seq<Rule>, decode: string -> string)
    requires AllSupported(rules)
    requires forall r | r in rules :: !RuleMatches(r.path, decode(path))
    ensures MatchRulesSpec(path, rules, decode)
  {
  }

  /** `w` is a rule that matches the decoded path `d` and no matching rule is more
      specific than. */
  predicate Unbeaten(rules: seq<Rule>, d: string, w: Rule)
    requires AllSupported(rules)
  {
    && w in rules && RuleMatches(w.path, d)
    && forall r | r in rules && RuleMatches(r.path, d) :: !MoreSpecific(r, w)
  }

  /** Otherwise the answer is the type of a matching rule that no matching rule is more
      specific than. */
  lemma MaximalMatchDecides(path: string, rules: seq<Rule>, decode: string -> string)
    requires AllSupported(rules)
    requires path != "/robots.txt"
    requires exists r | r in rules :: RuleMatches(r.path, decode(path))
    ensures exists w :: Unbeaten(rules, decode(path), w) && MatchRulesSpec(path, rules, decode) == (w.ruleType == Allowed)
  {
    var d := decode(path);
    var ms := MatchingRules(rules, d);
    var r0 :| r0 in rules && RuleMatches(r0.path, d);
    assert r0 in ms;
    BestIsUnbeaten(rules, d);
  }

  lemma BestIsUnbeaten(rules: seq<Rule>, d: string)
    requires AllSupported(rules) && MatchingRules(rules, d) != []
    ensures var ms := MatchingRules(rules, d); Unbeaten(rules, d, ms[BestIndex(ms)])
  {
    var ms := MatchingRules(rules, d);
    var b := BestIndex(ms);
    assert ms[b] in ms;
    forall r | r in rules && RuleMatches(r.path, d) ensures !MoreSpecific(r, ms[b]) {
      assert r in ms;
      var j :| 0 <= j < |ms| && ms[j] == r;
      assert !MoreSpecific(ms[j], ms[b]);
    }
  }

  /** A matching rule that is more specific than every matching rule of the other type
      decides. */
  lemma StrictWinnerDecides(path: string, rules: seq<Rule>, decode: string -> string, w: Rule)
    requires AllSupported(rules)
    requires path != "/robots.txt"
    requires w in rules && RuleMatches(w.path, decode(path))
    requires forall r | r in rules && RuleMatches(r.path, decode(path)) && r.ruleType != w.ruleType ::
      MoreSpecific(w, r)
    ensures MatchRulesSpec(path, rules, decode) == (w.ruleType == Allowed)
  {
    var ms := MatchingRules(rules, decode(path));
    assert w in ms;
    var b := BestIndex(ms);
    assert ms[b] in ms;
    var j :| 0 <= j < |ms| && ms[j] == w;
    assert !MoreSpecific(ms[j], ms[b]);
  }
}
