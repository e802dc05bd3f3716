# robots.txt engine (RFC 9309): lexer, parser and matcher in Dafny

This project models the core of a TypeScript robots.txt engine and proves properties of
the model. The engine has three stages.

- **Lexer** (`src/lexer.ts`): a byte cursor that hands out tokens. Each token has a kind,
  its literal text, a 1-based line and a 1-based column. Whitespace is skipped, keywords
  are recognised case-insensitively, one token can be peeked, and end of input repeats.
- **Parser** (`src/parser.ts`): a recursive-descent parser. It turns the tokens into an
  ordered list of user-agent groups. A group whose user agent is byte-identical to an
  earlier one has its rules appended to the earlier group. The first grammar violation
  aborts the parse.
- **Matcher** (`src/matcher.ts`): selects the groups whose token occurs, case-insensitively,
  in the user agent, and falls back to the `*` group. It compiles each rule path with
  `toRegExpPath` and tests it against the decoded path. The most specific matching rule
  decides: most `/`-separated pieces first, then the longest path. With no group and no
  match the path is allowed, and `/robots.txt` is always allowed.

The shared token record (`src/token.ts`) and the two error kinds (`src/exceptions.ts`) are
modelled too. Errors are values in a `Result` rather than exceptions.

Files:

| file | models |
|---|---|
| `Wrappers.dfy` | `Option` and `Result` with the `:-` failure propagation |
| `Tokens.dfy` | `src/token.ts` |
| `Errors.dfy` | `src/exceptions.ts`: the error datatype and its messages |
| `Lexer.dfy` | `src/lexer.ts`: the `Lexer` class and the token stream it produces (`Scan`, `Remaining`) |
| `Parser.dfy` | `src/parser.ts`: the grammar over a token stream, group merging, and the parser methods over a `Lexer` |
| `Patterns.dfy` | `toRegExpPath` in `src/matcher.ts` and the regular-expression subset it produces |
| `Matcher.dfy` | `matcher` and `matchRules` in `src/matcher.ts` |
| `MatcherExamples.dfy` | the expectations of `src/matcher.test.ts`, derived from the general lemmas, on the groups of each test document written out by hand |

Every imperative routine of the source is a method with the source's loops. Each method is
proved equal to a specification function:

- `Lexer.NextToken` and `PeekToken` against `Head` and `Tail` of the pending token stream.
- `Parse` against `ParseSpec`.
- `MatchRules` against `MatchRulesSpec`.
- `Matcher` against `Decide`.

The lemmas then state what those functions promise.

The source uses names it never declares. `src/parser.ts` throws a `ParseError` that
`src/exceptions.ts` does not define; the model gives it the shape of `UnexpectedToken`, a
token plus an optional expected kind. `src/lexer.ts` produces the kinds `DIGIT`,
`CLAWLDELAY` and `SITEMAP`, which `src/token.ts` does not list; the model adds them to
`TokenType`, and their names are their own upper-case spellings.

Where RFC 9309 and the code disagree, the model follows the code:

- Rule paths are kept exactly as written. The parser in `src/parser.ts` does not decode
  them, and only the request path goes through `decodePath` (`src/matcher.ts:41`).
- `.` in a rule path is the regular-expression wildcard, as `toRegExpPath` leaves it
  unescaped. RFC 9309 has no such wildcard. The `RegExp` is built without the `u` flag,
  so `.` matches one UTF-16 code unit other than a line terminator. The model's strings are
  sequences of code points, and there `.` matches one code point other than a line
  terminator.
- On an exact specificity tie the model takes the first of the tied matches in document
  order. The comparator never answers 0, so it is not a consistent comparator, and
  ECMAScript leaves the order of `Array.prototype.sort` implementation-defined for it.
  In V8, lists of fewer than 64 elements are sorted by binary insertion. There a
  comparator that answers 1 on a tie leaves tied matches in document order, so the first
  of them heads the sorted list.
- RFC 9309 (section 2.2.2) ranks matching rules by the number of octets in the rule path.
  The comparator of `src/matcher.ts:56-64` ranks first by the number of '/'-separated
  pieces and only then by length. Both "/*/x" and "/abcdef" match the request path
  "/abcdef/x". The model picks "/*/x", which has three pieces, while RFC 9309 picks
  "/abcdef", which has more octets.
- RFC 9309 (section 2.2.2) prefers the allow rule when an allow and a disallow rule are
  equivalent. The code takes the head of the sorted matches whatever its type, so on a tie
  the rule that comes first in document order decides, whether it allows or disallows.

## Model

| member | source | states |
|---|---|---|
| Tokens.KindNameInjective | src/token.ts:2-8 | two kinds have equal string values exactly when they are the same kind, so comparing kinds by their strings is comparing kinds |
| Errors.CharacterMessageRoundTrip | src/exceptions.ts:5-11 | the `UnexpectedCharacter` message embeds the character, the line and the position, and all three can be read back from it |
| Errors.DecimalRoundTrip | src/exceptions.ts:7-9 | the decimal rendering of a number in the message template reads back as that number |
| Errors.TokenMessageShape | src/exceptions.ts:14-24 | the `UnexpectedToken` message starts with the quoted literal; " Expects X" follows the head if and only if an expected kind X was given; the message ends with the token's line and position; the parts are joined with no separator |
| Lexer.Latin1 | src/lexer.ts:133-150 | `String.fromCodePoint(...bytes)` has one character per byte, with the byte as its code point |
| Lexer.PositionCounts | src/lexer.ts:58-74 | inside the input, the line is 1 plus the line feeds before the cursor and the column is 1 plus the bytes since the last of them |
| Lexer.PositionAtEnd | src/lexer.ts:59-64 | at the end of the input no new line starts: the position is one column after the last byte, on that byte's line |
| Lexer.WhitespaceEnd | src/lexer.ts:187-200 | whitespace skipping stops at the first non-whitespace byte or at the end, passing only whitespace |
| Lexer.RunEnd | src/lexer.ts:215-236 | a run of one byte class is maximal: every byte in it is in the class and the byte after it is not |
| Lexer.CommentEnd | src/lexer.ts:239-253 | a comment runs to the byte before the next line feed or zero byte, or to the end |
| Lexer.Scan | src/lexer.ts:100-183 | the token read at a cursor lies after it; it is end of input exactly when only whitespace remains; every other token is non-empty |
| Lexer.ScanSkipsWhitespace | src/lexer.ts:115-127 | whitespace never starts a token, and the token carries the line and column of its first byte |
| Lexer.ScanIdentifier | src/lexer.ts:148-172 | an identifier or keyword is a maximal run of character-class bytes not starting with a digit; its kind is looked up on the lower-cased text and its literal keeps the source case |
| Lexer.ScanDigits | src/lexer.ts:141-147 | a run that starts with a digit is a DIGIT token holding exactly the maximal run of digits |
| Lexer.ScanComment | src/lexer.ts:132-139 | a comment literal starts with '#', holds no line feed, and ends before the next line feed or zero byte, or at the end |
| Lexer.ScanError | src/lexer.ts:173-178 | the lexer fails exactly at a byte in no class, and reports that byte with its line and column |
| Lexer.EofStream | src/lexer.ts:101-104 | a stream whose next token is end of input holds nothing else |
| Lexer.Lexer.constructor | src/lexer.ts:50-55 | a new lexer stands on the first byte, has queued nothing and has not reached end of input; the tokens it will hand out are the whole token stream of the input |
| Lexer.Lexer.NewLine | src/lexer.ts:85-90 | the line goes up by one and the column restarts at 0 |
| Lexer.Lexer.Read | src/lexer.ts:58-74 | the cursor moves one byte, and the current byte, line and column stay those of the new position |
| Lexer.Lexer.Peek | src/lexer.ts:77-82 | the byte after the cursor, or 0 past the end |
| Lexer.Lexer.SkipWhitespace | src/lexer.ts:187-200 | the cursor moves to the end of the whitespace run |
| Lexer.Lexer.ReadIdentifier | src/lexer.ts:215-224 | returns exactly the maximal run of character-class bytes, and the cursor ends on its last byte |
| Lexer.Lexer.ReadDigit | src/lexer.ts:227-236 | returns exactly the maximal run of digits, and the cursor ends on its last byte |
| Lexer.Lexer.ReadEOL | src/lexer.ts:239-253 | returns the comment up to the next line feed or zero byte, and the cursor ends on its last byte |
| Lexer.Lexer.NextToken | src/lexer.ts:100-113 | returns the head of the pending token stream and leaves its tail pending; once end of input was returned it is returned again and the cursor stays put |
| Lexer.Lexer.Lex | src/lexer.ts:115-183 | skips whitespace and returns the token `Scan` reads there, or its error, leaving the cursor after the token |
| Lexer.Lexer.PeekToken | src/lexer.ts:93-97 | returns the head of the pending stream and leaves the pending stream unchanged |
| Lexer.PeekThenNext | src/lexer.ts:93-113 | the token `peekToken` returns is the one the following `nextToken` returns |
| Parser.ExpectKind | src/parser.ts:91-97 | on success the consumed token is the head of the stream and is of the expected kind |
| Parser.GroupBody | src/parser.ts:63-82 | the group's lines stop, without consuming it, at end of input or the next User-agent token; rules are only appended |
| Parser.IndexOfAgent | src/parser.ts:35-37 | the first group whose user agent is exactly the given one, or none when no group has it |
| Parser.MergeSpec | src/parser.ts:33-43 | the merged groups are the distinct user agents in order of first appearance, and each holds the rules of every raw group with exactly that agent, in file order |
| Parser.MergeUnique | src/parser.ts:33-43 | no two merged groups have the same user agent |
| Parser.MergeIsCaseSensitive | src/parser.ts:35-37 | "GoogleBot" and "googlebot" stay two groups |
| Parser.CommentsOnly | src/parser.ts:44-47 | a stream of comments and then end of input parses to no groups |
| Parser.EmptyDocument | src/parser.ts:25-52 | an input of only whitespace parses to no groups |
| Parser.TopLevelRejects | src/parser.ts:48-49 | at top level, any token but User-agent, a comment or end of input is an error naming that token |
| Parser.HeaderNeedsSeparatorAndIdent | src/parser.ts:59-61 | a group header without a separator, or without an identifier after it, is an error naming the token found and the kind expected |
| Parser.RuleLineAddsOneRule | src/parser.ts:69-77 | an Allow or Disallow line adds exactly one rule whose path is the single identifier's literal; a comment adds nothing |
| Parser.RuleLineNeedsSeparator | src/parser.ts:86 | a rule line without a colon is an error naming the token found and expecting a separator |
| Parser.NextTokenIs | src/parser.ts:91-97 | consumes the next token and fails, naming the expected kind, unless it is of that kind |
| Parser.ParseRule | src/parser.ts:85-89 | reads a separator and one identifier and returns the identifier's literal |
| Parser.ParseGroup | src/parser.ts:54-62 | reads the group header and its lines, as the grammar `GroupSpec` says |
| Parser.ParseLines | src/parser.ts:63-82 | the group loop: appends the rules of the group's lines and stops before end of input or the next User-agent token, as `GroupBody` says |
| Parser.MergeGroup | src/parser.ts:35-42 | appends the group's rules to the first group with the same user agent, or adds the group at the end |
| Parser.Parse | src/parser.ts:25-52 | returns exactly the merged groups of the grammar, or the first error |
| Patterns.Split | src/matcher.ts:72 | `split("/")` gives at least one piece and no piece holds a '/' |
| Patterns.SplitJoin | src/matcher.ts:72-74 | joining the pieces with '/' gives the string back |
| Patterns.SplitCount | src/matcher.ts:57-58 | a string has one more piece than it has slashes |
| Patterns.Escape | src/matcher.ts:71 | escaping '?' never shortens the path, and the escaped path holds a '/' exactly when the path does |
| Patterns.EscapeAppend | src/matcher.ts:71 | the replacement works character by character: escaping a concatenation escapes each part |
| Patterns.EscapeValues | src/matcher.ts:71 | a path without '?' is unchanged, and a '?' becomes "\?"; with `EscapeAppend` this fixes the escaped path of every path |
| Patterns.EscapeSplit | src/matcher.ts:71-72 | escaping before the split does not disturb it: the pieces of the escaped path are the escaped pieces of the path |
| Patterns.CompileCorrect | src/matcher.ts:69-77 | the compiled expression of a supported rule path reads as the path's own atoms, followed by `.*` exactly when the compiled body ends in '/' |
| Patterns.TrailingRun | src/matcher.ts:75-76 | a trailing `.*` changes nothing, because the expression only has to match a prefix |
| Patterns.RuleMatchesMeaning | src/matcher.ts:69-77 | a rule matches exactly when the path's own reading as atoms matches a prefix of the request path |
| Patterns.FixedPattern | src/matcher.ts:69-77 | a rule path without '*' and '$' matches the request paths that start with something that fits it |
| Patterns.LiteralPatternIsPrefix | src/matcher.ts:71 | a rule path of literal characters, '?' included, matches exactly the request paths it is a prefix of |
| Patterns.EndAnchoredPattern | src/matcher.ts:69-77 | a trailing '$' makes the rule match only a request path that fits the rest of it in full |
| Patterns.AnyRunMatch | src/matcher.ts:73 | `.*` followed by atoms matches when the atoms match after some run without a line terminator |
| Patterns.StarSegmentPattern | src/matcher.ts:72-74 | a '*' segment between two fixed parts matches any stretch without a line terminator between them |
| Patterns.StarFreeSupported | src/matcher.ts:69-77 | a path without '*' and without operator characters is in the supported subset |
| Matcher.ContainsMeaning | src/matcher.ts:14 | `includes` holds exactly when the needle occurs at some offset |
| Matcher.Selected | src/matcher.ts:10-15 | the selected groups are exactly the groups whose lower-cased token occurs in the lower-cased user agent |
| Matcher.Flatten | src/matcher.ts:27-30 | a rule is collected exactly when it belongs to one of the groups |
| Matcher.SelectedAppend | src/matcher.ts:10-15 | filtering keeps document order: the groups selected from two stretches of groups are those of the first followed by those of the second |
| Matcher.FlattenAppend | src/matcher.ts:27-30 | collecting keeps document order: the rules of two stretches of groups are the rules of the first followed by those of the second |
| Matcher.CandidateRules | src/matcher.ts:13-30 | every candidate rule comes from one of the groups |
| Matcher.CandidateRulesMeaning | src/matcher.ts:10-30 | no rules exactly when no group is selected and none is "*"; with a selected group, the rules of all selected groups; otherwise the rules of the first "*" group |
| Matcher.SegmentCountIsSplitLength | src/matcher.ts:57-58 | the segment count is `split("/").length` |
| Matcher.Compare | src/matcher.ts:56-64 | the comparator answers -1 exactly when the first rule is more specific, else 1, and never 0 |
| Matcher.BestIndex | src/matcher.ts:56-65 | the head of the sorted matches: no match is more specific than it, and it is more specific than every match before it |
| Matcher.MatchingRules | src/matcher.ts:41-48 | a rule is kept exactly when it is a candidate and its compiled pattern matches the decoded path |
| Matcher.CollectMatches | src/matcher.ts:42-48 | the filter loop returns exactly `MatchingRules`: the candidate rules whose compiled pattern matches the decoded path, in order |
| Matcher.MatchRules | src/matcher.ts:36-66 | the loops of `matchRules` compute `MatchRulesSpec`; for "/robots.txt" no rule has to be in the supported subset, as none is compiled |
| Matcher.Matcher | src/matcher.ts:4-33 | `matcher` returns the parse error, or the decision `Decide` for the parsed groups; only the rules of the groups chosen for the user agent have to be in the supported subset, as only those are compiled |
| Matcher.RobotsTxtAllowed | src/matcher.ts:38-40 | "/robots.txt" is allowed for every document and user agent, whatever the rule paths |
| Matcher.NoMatchAllows | src/matcher.ts:50-53 | when no candidate rule matches the decoded path, the path is allowed |
| Matcher.MaximalMatchDecides | src/matcher.ts:56-65 | otherwise the answer is the type of a matching rule that no matching rule is more specific than |
| Matcher.StrictWinnerDecides | src/matcher.ts:56-65 | a matching rule that is more specific than every matching rule of the other type decides |
| MatcherExamples.GoogleBotGetsStarRules | src/matcher.test.ts:5-14 | "GoogleBot" names neither "*" nor "ExampleBot", so the "*" group's rules apply |
| MatcherExamples.GoogleBotGetsOnlyGroup | src/matcher.ts:10-30 | in a document of one "*" group, "GoogleBot" gets that group's rules |
| MatcherExamples.BasicDecision | src/matcher.test.ts:5-18 | for "GoogleBot" the example document disallows exactly the paths that start with "/foo/bar/" or fit "/foo/baz/quz.html" in full |
| MatcherExamples.FooAllowed | src/matcher.test.ts:14 | "/foo" is allowed |
| MatcherExamples.RootAllowed | src/matcher.test.ts:15 | "/" is allowed |
| MatcherExamples.FooBarBazDisallowed | src/matcher.test.ts:16 | "/foo/bar/baz" is disallowed |
| MatcherExamples.FooBazAllowed | src/matcher.test.ts:17 | "/foo/baz" is allowed |
| MatcherExamples.QuzDisallowed | src/matcher.test.ts:18 | "/foo/baz/quz.html" is disallowed |
| MatcherExamples.CliRulesDecision | src/matcher.ts:36-66 | `matchRules` over the rules "allow: /" and "disallow: /foo" disallows exactly the paths that start with "/foo": both rules have two pieces and the longer path wins |
| MatcherExamples.CliDecision | src/matcher.test.ts:45-51 | for "GoogleBot", the document of one "*" group with "allow: /" and "disallow: /foo" disallows exactly the paths that start with "/foo" |
| MatcherExamples.CliExample | src/matcher.test.ts:51 | "/foo/bar" is disallowed for "GoogleBot" |
| MatcherExamples.QueryIsLiteral | src/matcher.test.ts:26 | for "GoogleBot", the document of one "*" group with "disallow: /foo/bar?baz=quz" disallows exactly the paths that start with that path, because '?' is literal |

## Left out

- The input is a byte sequence. The `TextEncoder` conversion of a string argument (`src/lexer.ts:19-23`) is not modelled.
- The lexer's `stack` and `buffer` line history (`src/lexer.ts:32-34`, `73`, `86-87`) is written but never read, so it is left out.
- The "Undefined peek" error (`src/lexer.ts:109-111`) cannot happen: a non-empty queue always has a first element.
- Lexer.Lexer.ReadEOL: requires the current byte to be '#', because `nextToken` calls `readEOL` only there. Its early return for a zero byte or a line feed (`src/lexer.ts:241-243`) cannot happen, and is not modelled.
- Matcher.MatchRules: requires every rule path to be in the supported subset (`Patterns.SupportedPattern`) unless the path is "/robots.txt", for the reason given under `Matcher.Matcher` below.
- `decodePath` is not part of this model. It is a function parameter, taken to return its argument on the escape-free paths of the examples. Its percent and `U+` decoding and its possible failure are not modelled. The rows of the `U+` and percent-escape table (`src/matcher.test.ts:27-33`) depend on it and are left out.
- Matcher.CandidateRules: lower-cases the user agent and the group tokens in ASCII only. JavaScript's `toLowerCase` also folds non-ASCII letters. Group tokens come from the lexer and are ASCII, but a user agent with non-ASCII capitals is folded differently.
- Matcher.Matcher: requires every rule path of the groups chosen for the user agent (`Matcher.CandidatesSupported`) to be in the supported subset (`Patterns.SupportedPattern`), unless the path is "/robots.txt". That means no `\ ^ [ ] ( ) | + { }`, and a '*' only as a whole '/'-segment. Outside that subset `toRegExpPath` yields JavaScript regular expressions with other meanings, such as `/foo*` as "fo" then any number of 'o'. General `RegExp` semantics are not modelled.
- Matcher.BestIndex: on an exact tie in specificity, the model takes the first tied match in document order, as V8 does for lists of fewer than 64 matches. ECMAScript leaves the order implementation-defined for a comparator that never answers 0, and V8's merge passes over longer lists are not modelled. `Matcher.MaximalMatchDecides` holds whichever tied rule comes first.
- The concatenation test (`src/parser.test.ts:55-67`) expects "/foo?query:foo=bar" as one path. The lexer splits it at ':', and `parseRule` (`src/parser.ts:85-89`) takes a single identifier, so the code rejects that line. The model follows the code.
- The command-line front end (`src/cli.ts`) and the demo (`example/index.ts`) are I/O around `matcher`, and are left out.
- Strings are sequences of Unicode code points. JavaScript strings are sequences of UTF-16 code units, and the `RegExp` of `toRegExpPath` has no `u` flag, so `.` and `.*` read a character outside the Basic Multilingual Plane as two units. The model reads it as one, so a request path with such characters can match differently.
- MatcherExamples.GoogleBotGetsStarRules: the groups of the basic test document are written out by hand as `BasicGroups`. They are not obtained by lexing and parsing the test text.
- MatcherExamples.BasicDecision: stated on `Decide` over the hand-written `BasicGroups`, not on `matcher` over the test text.
- MatcherExamples.FooAllowed: stated on `Decide` over the hand-written `BasicGroups`, not on `matcher` over the test text.
- MatcherExamples.RootAllowed: stated on `Decide` over the hand-written `BasicGroups`, not on `matcher` over the test text.
- MatcherExamples.FooBarBazDisallowed: stated on `Decide` over the hand-written `BasicGroups`, not on `matcher` over the test text.
- MatcherExamples.FooBazAllowed: stated on `Decide` over the hand-written `BasicGroups`, not on `matcher` over the test text.
- MatcherExamples.QuzDisallowed: stated on `Decide` over the hand-written `BasicGroups`, not on `matcher` over the test text.
- MatcherExamples.CliRulesDecision: stated on `MatchRulesSpec` over the hand-written rule list `CliRules` of the command-line example, so it skips parsing and group selection; `MatcherExamples.CliDecision` adds the group selection.
- MatcherExamples.CliDecision: stated on `Decide` over the hand-written `CliGroups`, not on `matcher` over the test text.
- MatcherExamples.CliExample: stated on `Decide` over the hand-written `CliGroups`, not on `matcher` over the test text.
- MatcherExamples.QueryIsLiteral: stated on `Decide` over the hand-written `QueryGroups`, not on `matcher` over the test text.
