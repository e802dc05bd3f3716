/** The two error kinds of the engine and the messages they carry. The source
    throws them as exceptions; here they are values returned in a `Result`. */
module Errors {
  import opened Wrappers
  import opened Tokens

  /** `UnexpectedCharacter` is raised by the lexer at a byte outside every class;
      `UnexpectedToken` by the parser at a grammar violation, optionally naming the
      kind it expected. */
  datatype Error =
    | UnexpectedCharacter(c: char, line: nat, index: nat)
    | UnexpectedToken(token: Token, expects: Option<TokenType>)

  predicate IsDecimalDigit(c: char)
  {
    '0' <= c <= '9'
  }

  function DigitChar(d: nat): (c: char)
    requires d < 10
    ensures IsDecimalDigit(c) && c as int - '0' as int == d
  {
    ('0' as int + d) as char
  }

  /** The decimal rendering of a number inside a template string. */
  function Decimal(n: nat): (s: string)
    ensures |s| > 0
    ensures forall i | 0 <= i < |s| :: IsDecimalDigit(s[i])
    ensures n > 0 ==> s[0] != '0'
    decreases n
  {
    if n < 10 then [DigitChar(n)] else Decimal(n / 10) + [DigitChar(n % 10)]
  }

  /** The value of a string of decimal digits: the inverse of `Decimal`. */
  function DecimalValue(s: string): nat
    requires forall i | 0 <= i < |s| :: IsDecimalDigit(s[i])
  {
    if s == [] then 0
    else
      var d := s[|s| - 1];
      assert IsDecimalDigit(d);
      DecimalValue(s[..|s| - 1]) * 10 + (d as int - '0' as int)
  }

  lemma {:induction false} DecimalRoundTrip(n: nat)
    ensures DecimalValue(Decimal(n)) == n
    decreases n
  {
    if n >= 10 {
      var s := Decimal(n);
      assert s[..|s| - 1] == Decimal(n / 10);
      DecimalRoundTrip(n / 10);
    }
  }

  /** Number of leading decimal digits of `s`. */
  function DigitPrefix(s: string): (k: nat)
    ensures k <= |s|
    ensures forall i | 0 <= i < k :: IsDecimalDigit(s[i])
    ensures k == |s| || !IsDecimalDigit(s[k])
  {
    if s == [] || !IsDecimalDigit(s[0]) then 0 else 1 + DigitPrefix(s[1..])
  }

  lemma {:induction false} DigitPrefixOf(d: string, rest: string)
    requires forall i | 0 <= i < |d| :: IsDecimalDigit(d[i])
    requires rest == [] || !IsDecimalDigit(rest[0])
    ensures DigitPrefix(d + rest) == |d|
  {
    if d != [] {
      assert (d + rest)[1..] == d[1..] + rest;
      DigitPrefixOf(d[1..], rest);
    }
  }

  const CharacterHead: string := "Unexpected Character \""
  const CharacterLine: string := "\" found at line "
  const PositionLabel: string := ", position "

  /** The message of `UnexpectedCharacter`. */
  function CharacterMessage(c: char, line: nat, index: nat): string
  {
    CharacterHead + [c] + CharacterLine + Decimal(line) + PositionLabel + Decimal(index)
  }

  /** Reads the character, the line and the position back out of an
      `UnexpectedCharacter` message. */
  function ParseCharacterMessage(m: string): Option<(char, nat, nat)>
  {
    var h := |CharacterHead| + 1 + |CharacterLine|;
    if |m| < h || m[..|CharacterHead|] != CharacterHead || m[|CharacterHead| + 1..h] != CharacterLine then None
    else
      var rest := m[h..];
      var k := DigitPrefix(rest);
      var tail := rest[k..];
      if k == 0 || |tail| < |PositionLabel| || tail[..|PositionLabel|] != PositionLabel then None
      else
        var pos := tail[|PositionLabel|..];
        if pos == [] || DigitPrefix(pos) != |pos| then None
        else Some((m[|CharacterHead|], DecimalValue(rest[..k]), DecimalValue(pos)))
  }

  /** The message embeds the offending character, the line and the position, and all
      three can be read back from it. */
  lemma CharacterMessageRoundTrip(c: char, line: nat, index: nat)
    ensures ParseCharacterMessage(CharacterMessage(c, line, index)) == Some((c, line, index))
  {
    var m := CharacterMessage(c, line, index);
    var h := |CharacterHead| + 1 + |CharacterLine|;
    var dl, di := Decimal(line), Decimal(index);
    assert m == CharacterHead + [c] + CharacterLine + (dl + PositionLabel + di);
    var rest := m[h..];
    assert rest == dl + (PositionLabel + di);
    DigitPrefixOf(dl, PositionLabel + di);
    assert rest[..|dl|] == dl;
    assert rest[|dl|..] == PositionLabel + di;
    DigitPrefixOf(di, []);
    assert di + [] == di;
    DecimalRoundTrip(line);
    DecimalRoundTrip(index);
  }

  /** The first part of an `UnexpectedToken` message. */
  function TokenHead(t: Token): string
  {
    "Unexpected Token \"" + t.literal + "\" found"
  }

  /** The optional middle part, present only when an expected kind was given. */
  function ExpectsPart(expects: Option<TokenType>): string
  {
    if expects.Some? then " Expects " + KindName(expects.value) else ""
  }

  /** The last part: the token's own line and position. */
  function PositionPart(line: nat, index: nat): string
  {
    " at line " + Decimal(line) + PositionLabel + Decimal(index)
  }

  /** The `join("")` of the message parts: concatenation with no separator. */
  function JoinParts(parts: seq<string>): string
  {
    if parts == [] then "" else parts[0] + JoinParts(parts[1..])
  }

  /** The message of `UnexpectedToken`. */
  function TokenMessage(t: Token, expects: Option<TokenType>): string
  {
    JoinParts([TokenHead(t), ExpectsPart(expects), PositionPart(t.line, t.index)])
  }

  /** The message of any error. */
  function Message(e: Error): string
  {
    match e
    case UnexpectedCharacter(c, line, index) => CharacterMessage(c, line, index)
    case UnexpectedToken(t, expects) => TokenMessage(t, expects)
  }

  /** The message begins with the token's literal in quotes, carries " Expects X" right
      after the head exactly when an expected kind X was supplied, and ends with the
      token's own line and position. */
  lemma TokenMessageShape(t: Token, expects: Option<TokenType>)
    ensures var m, h := TokenMessage(t, expects), TokenHead(t);
      && |m| == |h| + |ExpectsPart(expects)| + |PositionPart(t.line, t.index)|
      && m[..|h|] == h
      && h[18..18 + |t.literal|] == t.literal
      && |m| >= |h| + 9
      && (m[|h|..|h| + 9] == " Expects " <==> expects.Some?)
      && (expects.Some? ==> m[|h| + 9..|h| + 9 + |KindName(expects.value)|] == KindName(expects.value))
      && m[|m| - |PositionPart(t.line, t.index)|..] == PositionPart(t.line, t.index)
  {
    var m, h := TokenMessage(t, expects), TokenHead(t);
    var mid, tail := ExpectsPart(expects), PositionPart(t.line, t.index);
    var parts := [h, mid, tail];
    assert JoinParts(parts[1..][1..][1..]) == "";
    assert JoinParts(parts[1..][1..]) == tail;
    assert JoinParts(parts[1..]) == mid + tail;
    assert m == h + mid + tail;
    assert m[..|h|] == h;
    assert m[|m| - |tail|..] == tail;
    if expects.None? {
      assert m[|h|..|h| + 9] == tail[..9];
      assert tail[1] == 'a';
    } else {
      assert m[|h|..|h| + |mid|] == mid;
    }
  }
}
