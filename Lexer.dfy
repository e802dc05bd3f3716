/** The byte-level lexer: a cursor over the input bytes that hands out one token at a
    time, with a queue of tokens that were peeked but not yet consumed.

    The pure functions below say which token starts at a cursor position (`Scan`)
    and what the whole remaining token stream is (`Remaining`); the `Lexer` class is
    the stateful scanner, and its methods are proved against those functions. */
module Lexer {
  import opened Wrappers
  import opened Tokens
  import opened Errors

  type byte = b: int | 0 <= b < 0x100

  const LF: byte := 0x0a
  const Colon: byte := 0x3a
  const Hash: byte := 0x23

  /** Space, horizontal tab, carriage return and line feed. */
  predicate IsWhitespace(b: byte)
  {
    b == 0x20 || b == 0x09 || b == 0x0d || b == LF
  }

  /** Printable ASCII other than ':' and '#'. */
  predicate IsCharacter(b: byte)
  {
    0x21 <= b <= 0x7e && b != Colon && b != Hash
  }

  predicate IsDigit(b: byte)
  {
    0x30 <= b <= 0x39
  }

  /** The string whose code points are the given bytes (`String.fromCodePoint(...bytes)`). */
  function Latin1(bs: seq<byte>): (s: string)
    ensures |s| == |bs|
    ensures forall i | 0 <= i < |bs| :: s[i] as int == bs[i]
  {
    seq(|bs|, i requires 0 <= i < |bs| => bs[i] as char)
  }

  function LowerChar(c: char): char
  {
    if 'A' <= c <= 'Z' then (c as int + 32) as char else c
  }

  /** ASCII lower-casing. */
  function Lower(s: string): (r: string)
    ensures |r| == |s|
    ensures forall i | 0 <= i < |s| :: r[i] == LowerChar(s[i])
  {
    seq(|s|, i requires 0 <= i < |s| => LowerChar(s[i]))
  }

  /** The kind of an identifier run, looked up by its lower-cased text. */
  function KeywordKind(lower: string): (k: TokenType)
    ensures k in {UserAgent, Allow, Disallow, ClawlDelay, Sitemap, Ident}
  {
    if lower == "user-agent" then UserAgent
    else if lower == "allow" then Allow
    else if lower == "disallow" then Disallow
    else if lower == "clawl-delay" then ClawlDelay
    else if lower == "sitemap" then Sitemap
    else Ident
  }

  /** The byte under the cursor; 0 past the end of the input. */
  function ByteAt(input: seq<byte>, p: nat): byte
  {
    if p < |input| then input[p] else 0
  }

  /** The line counter once the cursor stands on position `p`: every line feed that
      is followed by another byte starts a new line. */
  function LineAt(input: seq<byte>, p: nat): (l: nat)
    requires p <= |input|
    ensures l >= 1
  {
    if p == 0 then 1
    else if p < |input| && input[p - 1] == LF then LineAt(input, p - 1) + 1
    else LineAt(input, p - 1)
  }

  /** The column counter once the cursor stands on position `p`. */
  function ColumnAt(input: seq<byte>, p: nat): (c: nat)
    requires p <= |input|
    ensures c >= 1
  {
    if p == 0 then 1
    else if p < |input| && input[p - 1] == LF then 1
    else ColumnAt(input, p - 1) + 1
  }

  function CountLF(s: seq<byte>): nat
  {
    if s == [] then 0 else CountLF(s[..|s| - 1]) + (if s[|s| - 1] == LF then 1 else 0)
  }

  /** How many bytes of `s` follow its last line feed (all of them if it has none). */
  function SinceLF(s: seq<byte>): nat
  {
    if s == [] then 0 else if s[|s| - 1] == LF then 0 else SinceLF(s[..|s| - 1]) + 1
  }

  /** Inside the input, the line is one more than the number of line feeds before the
      cursor, and the column is the 1-based offset from the last of them. */
  lemma {:induction false} PositionCounts(input: seq<byte>, p: nat)
    requires p < |input|
    ensures LineAt(input, p) == 1 + CountLF(input[..p])
    ensures ColumnAt(input, p) == 1 + SinceLF(input[..p])
  {
    if p > 0 {
      PositionCounts(input, p - 1);
      assert input[..p][..p - 1] == input[..p - 1];
    }
  }

  /** At the end of the input no new line is started: the end-of-input position sits
      one column after the last byte, on that byte's line. */
  lemma PositionAtEnd(input: seq<byte>)
    requires |input| > 0
    ensures LineAt(input, |input|) == LineAt(input, |input| - 1)
    ensures ColumnAt(input, |input|) == ColumnAt(input, |input| - 1) + 1
  {
  }

  /** The first position at or after `p` that holds no whitespace. */
  function WhitespaceEnd(input: seq<byte>, p: nat): (q: nat)
    requires p <= |input|
    ensures p <= q <= |input|
    ensures forall k | p <= k < q :: IsWhitespace(input[k])
    ensures q == |input| || !IsWhitespace(input[q])
    decreases |input| - p
  {
    if p < |input| && IsWhitespace(input[p]) then WhitespaceEnd(input, p + 1) else p
  }

  /** The end of the maximal run of bytes of one class starting at `p`. */
  function RunEnd(input: seq<byte>, p: nat, inClass: byte -> bool): (e: nat)
    requires p <= |input|
    ensures p <= e <= |input|
    ensures forall k | p <= k < e :: inClass(input[k])
    ensures e == |input| || !inClass(input[e])
    decreases |input| - p
  {
    if p < |input| && inClass(input[p]) then RunEnd(input, p + 1, inClass) else p
  }

  /** A comment runs from its '#' up to the next line feed or zero byte, or to the end. */
  function CommentEnd(input: seq<byte>, p: nat): (e: nat)
    requires p < |input|
    ensures p < e <= |input|
    ensures forall k | p < k < e :: input[k] != LF && input[k] != 0
    ensures e == |input| || input[e] == LF || input[e] == 0
    decreases |input| - p
  {
    if p + 1 < |input| && input[p + 1] != LF && input[p + 1] != 0 then CommentEnd(input, p + 1) else p + 1
  }

  /** A token together with the position of its first byte and the position after it. */
  datatype Lexeme = Lexeme(token: Token, start: nat, next: nat)

  /** The token that starts at cursor position `p`, or the error the lexer raises there. */
  function Scan(input: seq<byte>, p: nat): (r: Result<Lexeme, Error>)
    requires p <= |input|
    ensures r.Ok? ==> p <= r.value.start <= r.value.next <= |input|
    ensures r.Ok? ==> (r.value.token.tokenType == Eof <==> r.value.start == |input|)
    ensures r.Ok? && r.value.token.tokenType != Eof ==> r.value.start < r.value.next
  {
    var q := WhitespaceEnd(input, p);
    var line, index := LineAt(input, q), ColumnAt(input, q);
    if q == |input| then Ok(Lexeme(Token(Eof, "", line, index), q, q))
    else
      var c := input[q];
      if c == Colon then Ok(Lexeme(Token(Separator, ":", line, index), q, q + 1))
      else if c == Hash then
        var e := CommentEnd(input, q);
        Ok(Lexeme(Token(Comment, Latin1(input[q..e]), line, index), q, e))
      else if IsDigit(c) then
        var e := RunEnd(input, q, IsDigit);
        Ok(Lexeme(Token(Digit, Latin1(input[q..e]), line, index), q, e))
      else if IsCharacter(c) then
        var e := RunEnd(input, q, IsCharacter);
        var ident := Latin1(input[q..e]);
        Ok(Lexeme(Token(KeywordKind(Lower(ident)), ident, line, index), q, e))
      else Err(UnexpectedCharacter(c as char, line, index))
  }

  /** Whitespace never starts a token: everything between the cursor and the token's
      first byte is whitespace, the first byte is not, and the token is stamped with
      the line and column of that byte. */
  lemma ScanSkipsWhitespace(input: seq<byte>, p: nat)
    requires p <= |input|
    requires Scan(input, p).Ok?
    ensures var lx := Scan(input, p).value;
      && (forall k | p <= k < lx.start :: IsWhitespace(input[k]))
      && (lx.start < |input| ==> !IsWhitespace(input[lx.start]))
      && lx.token.line == LineAt(input, lx.start)
      && lx.token.index == ColumnAt(input, lx.start)
  {
  }

  /** An identifier or keyword is a maximal run of character-class bytes that does not
      start with a digit; its kind is looked up case-insensitively while its literal
      keeps the source case. */
  lemma ScanIdentifier(input: seq<byte>, p: nat)
    requires p <= |input|
    requires Scan(input, p).Ok?
    requires Scan(input, p).value.token.tokenType in {UserAgent, Allow, Disallow, ClawlDelay, Sitemap, Ident}
    ensures var lx := Scan(input, p).value;
      && !IsDigit(input[lx.start])
      && (forall k | lx.start <= k < lx.next :: IsCharacter(input[k]))
      && (lx.next == |input| || !IsCharacter(input[lx.next]))
      && lx.token.literal == Latin1(input[lx.start..lx.next])
      && lx.token.tokenType == KeywordKind(Lower(lx.token.literal))
  {
  }

  /** A run that starts with a digit is a digit token holding exactly the maximal run of
      digits. */
  lemma ScanDigits(input: seq<byte>, p: nat)
    requires p <= |input|
    requires Scan(input, p).Ok? && Scan(input, p).value.token.tokenType == Digit
    ensures var lx := Scan(input, p).value;
      && (forall k | lx.start <= k < lx.next :: IsDigit(input[k]))
      && (lx.next == |input| || !IsDigit(input[lx.next]))
      && lx.token.literal == Latin1(input[lx.start..lx.next])
  {
  }

  /** A comment's literal starts with '#' and runs up to, not including, the next line
      feed (or zero byte), or to the end of the input. */
  lemma ScanComment(input: seq<byte>, p: nat)
    requires p <= |input|
    requires Scan(input, p).Ok? && Scan(input, p).value.token.tokenType == Comment
    ensures var lx := Scan(input, p).value; var lit := lx.token.literal;
      && |lit| > 0 && lit[0] == '#'
      && (forall i | 0 <= i < |lit| :: lit[i] != '\n' && lit[i] != '\0')
      && lit == Latin1(input[lx.start..lx.next])
      && (lx.next == |input| || input[lx.next] == LF || input[lx.next] == 0)
  {
    var lx := Scan(input, p).value;
    var lit := lx.token.literal;
    forall i | 0 <= i < |lit| ensures lit[i] != '\n' && lit[i] != '\0' {
      assert lit[i] as int == input[lx.start + i];
    }
  }

  /** The lexer fails exactly at a byte that is in no class, and reports that byte
      together with its line and column. */
  lemma ScanError(input: seq<byte>, p: nat)
    requires p <= |input|
    ensures var q := WhitespaceEnd(input, p);
      Scan(input, p).Err? <==>
        q < |input| && input[q] != Colon && input[q] != Hash && !IsDigit(input[q]) && !IsCharacter(input[q])
    ensures var q := WhitespaceEnd(input, p);
      Scan(input, p).Err? ==>
        Scan(input, p).error == UnexpectedCharacter(input[q] as char, LineAt(input, q), ColumnAt(input, q))
  {
  }

  /** What is left of a token stream: the tokens still to come and, when the lexer
      will fail, the error it fails with after them. A stream without a failure ends
      with the end-of-input token, and the end-of-input token repeats for ever. */
  datatype Stream = Stream(toks: seq<Token>, failure: Option<Error>)

  ghost predicate WellFormed(s: Stream)
  {
    && (forall i | 0 <= i < |s.toks| :: s.toks[i].tokenType == Eof ==> i == |s.toks| - 1 && s.failure.None?)
    && (s.failure.None? ==> |s.toks| > 0 && s.toks[|s.toks| - 1].tokenType == Eof)
  }

  /** The next token of a stream, or the error that comes instead. */
  function Head(s: Stream): Result<Token, Error>
    requires WellFormed(s)
  {
    if |s.toks| > 0 then Ok(s.toks[0]) else Err(s.failure.value)
  }

  /** The stream after its next token is consumed; consuming end-of-input leaves the
      stream as it is. */
  function Tail(s: Stream): (t: Stream)
    requires WellFormed(s) && |s.toks| > 0
    ensures WellFormed(t)
    ensures s.toks[0].tokenType != Eof ==> |t.toks| == |s.toks| - 1
  {
    if s.toks[0].tokenType == Eof then s else Stream(s.toks[1..], s.failure)
  }

  /** A stream whose next token is end-of-input holds that token alone. */
  lemma EofStream(s: Stream)
    requires WellFormed(s) && Head(s).Ok? && Head(s).value.tokenType == Eof
    ensures s == Stream([Head(s).value], None)
  {
    assert s.toks == [s.toks[0]];
  }

  /** Once the end of input is at the head of a stream, consuming any number of tokens
      still yields the end of input. */
  lemma {:induction false} EofIsSticky(s: Stream, n: nat)
    requires WellFormed(s) && Head(s).Ok? && Head(s).value.tokenType == Eof
    ensures Consume(s, n) == s
  {
    if n > 0 {
      EofIsSticky(s, n - 1);
    }
  }

  /** The stream after `n` tokens are consumed (stopping early at a failure). */
  function Consume(s: Stream, n: nat): (t: Stream)
    requires WellFormed(s)
    ensures WellFormed(t)

    decreases n
  {
    if n == 0 || |s.toks| == 0 then s else Consume(Tail(s), n - 1)
  }

  /** The whole token stream the lexer produces from cursor position `p` onwards. */
  function Remaining(input: seq<byte>, p: nat): (s: Stream)
    requires p <= |input|
    ensures WellFormed(s)
    decreases |input| - p
  {
    match Scan(input, p)
    case Err(e) => Stream([], Some(e))
    case Ok(lx) =>
      if lx.token.tokenType == Eof then Stream([lx.token], None)
      else
        var rest := Remaining(input, lx.next);
        Stream([lx.token] + rest.toks, rest.failure)
  }

  /** The stateful lexer. `pointer` is the cursor, `current` the byte under it, `line`
      and `index` its position, `isEOF` records that end of input was returned, and
      `peeks` holds tokens returned by `PeekToken` and not yet by `NextToken`. */
  class Lexer {
    const input: seq<byte>
    var peeks: seq<Token>
    var isEOF: bool
    var current: byte
    var pointer: nat
    var line: nat
    var index: nat

    /** The cursor fields agree with the position the cursor stands on. */
    ghost predicate CursorValid()
      reads this
    {
      && pointer <= |input|
      && current == ByteAt(input, pointer)
      && line == LineAt(input, pointer)
      && index == ColumnAt(input, pointer)
    }

    /** The object invariant: before end of input at most one token is queued and it is
        not end of input; after it, every queued token is the end-of-input token at the
        final position. */
    ghost predicate Valid()
      reads this
    {
      && CursorValid()
      && (isEOF ==> pointer == |input| && forall t | t in peeks :: t == Token(Eof, "", line, index))
      && (!isEOF ==> |peeks| <= 1 && forall t | t in peeks :: t.tokenType != Eof)
    }

    /** The tokens the lexer will hand out from now on. */
    ghost function Pending(): (s: Stream)
      reads this
      requires Valid()
      ensures WellFormed(s)
    {
      if isEOF then Stream([Token(Eof, "", line, index)], None)
      else
        var rest := Remaining(input, pointer);
        Stream(peeks + rest.toks, rest.failure)
    }

    /** Creates a lexer over `input` and reads its first byte. */
    constructor (input: seq<byte>)
      ensures Valid() && this.input == input
      ensures pointer == 0 && !isEOF && peeks == []
      ensures Pending() == Remaining(input, 0)
    {
      this.input := input;
      peeks := [];
      isEOF := false;
      pointer := 0;
      current := ByteAt(input, 0);
      line := 1;
      index := 1;
    }

    /** Starts a new line. */
    method NewLine()
      modifies this`line, this`index
      ensures line == old(line) + 1 && index == 0
    {
      index := 0;
      line := line + 1;
    }

    /** Advances the cursor by one byte, starting a new line when the byte left behind
        was a line feed and another byte follows. */
    method Read()
      requires CursorValid() && pointer < |input|
      modifies this`pointer, this`current, this`line, this`index
      ensures CursorValid() && pointer == old(pointer) + 1
    {
      pointer := pointer + 1;
      if pointer >= |input| {
        current := 0;
        index := index + 1;
        return;
      }
      if current == LF {
        NewLine();
      }
      index := index + 1;
      current := input[pointer];
    }

    /** The byte after the cursor, or 0 at the end of the input. */
    function Peek(): (b: byte)
      reads this
      requires CursorValid()
      ensures b == ByteAt(input, pointer + 1)
    {
      if pointer + 1 >= |input| then 0 else input[pointer + 1]
    }

    /** Moves the cursor past whitespace. */
    method SkipWhitespace()
      requires CursorValid()
      modifies this`pointer, this`current, this`line, this`index
      ensures CursorValid() && pointer == WhitespaceEnd(input, old(pointer))
    {
      while IsWhitespace(current)
        invariant CursorValid() && old(pointer) <= pointer
        invariant WhitespaceEnd(input, pointer) == WhitespaceEnd(input, old(pointer))
        decreases |input| - pointer
      {
        Read();
      }
    }

    /** Reads a maximal run of character-class bytes; the cursor ends on its last byte. */
    method ReadIdentifier() returns (codes: seq<byte>)
      requires CursorValid() && pointer < |input| && IsCharacter(input[pointer])
      modifies this`pointer, this`current, this`line, this`index
      ensures CursorValid() && pointer < |input|
      ensures pointer + 1 == RunEnd(input, old(pointer), IsCharacter)
      ensures codes == input[old(pointer)..pointer + 1]
    {
      codes := [current];
      while IsCharacter(Peek())
        invariant CursorValid() && old(pointer) <= pointer < |input|
        invariant IsCharacter(input[pointer])
        invariant RunEnd(input, pointer, IsCharacter) == RunEnd(input, old(pointer), IsCharacter)
        invariant codes == input[old(pointer)..pointer + 1]
        decreases |input| - pointer
      {
        Read();
        codes := codes + [current];
      }
    }

    /** Reads a maximal run of digits; the cursor ends on its last byte. */
    method ReadDigit() returns (codes: seq<byte>)
      requires CursorValid() && pointer < |input| && IsDigit(input[pointer])
      modifies this`pointer, this`current, this`line, this`index
      ensures CursorValid() && pointer < |input|
      ensures pointer + 1 == RunEnd(input, old(pointer), IsDigit)
      ensures codes == input[old(pointer)..pointer + 1]
    {
      codes := [current];
      while IsDigit(Peek())
        invariant CursorValid() && old(pointer) <= pointer < |input|
        invariant IsDigit(input[pointer])
        invariant RunEnd(input, pointer, IsDigit) == RunEnd(input, old(pointer), IsDigit)
        invariant codes == input[old(pointer)..pointer + 1]
        decreases |input| - pointer
      {
        Read();
        codes := codes + [current];
      }
    }

    /** Reads from the '#' under the cursor up to the byte before the next line feed or
        zero byte; the cursor ends on the comment's last byte. */
    method ReadEOL() returns (codes: seq<byte>)
      requires CursorValid() && pointer < |input| && input[pointer] == Hash
      modifies this`pointer, this`current, this`line, this`index
      ensures CursorValid() && pointer < |input|
      ensures pointer + 1 == CommentEnd(input, old(pointer))
      ensures codes == input[old(pointer)..pointer + 1]
    {
      codes := [current];
      while Peek() != 0 && Peek() != LF
        invariant CursorValid() && old(pointer) <= pointer < |input|
        invariant CommentEnd(input, pointer) == CommentEnd(input, old(pointer))
        invariant codes == input[old(pointer)..pointer + 1]
        decreases |input| - pointer
      {
        Read();
        codes := codes + [current];
      }
    }

    /** Returns the next token: the end-of-input token again once end of input was
        returned, else the oldest queued token, else a freshly scanned one. */
    method NextToken() returns (r: Result<Token, Error>)
      requires Valid()
      modifies this
      ensures Valid()
      ensures r == Head(old(Pending()))
      ensures r.Ok? ==> Pending() == Tail(old(Pending()))
      ensures old(isEOF) ==> isEOF && line == old(line) && index == old(index) && pointer == old(pointer)
      ensures r.Ok? && r.value.tokenType == Eof ==> isEOF && r.value == Token(Eof, "", line, index)
      ensures r.Ok? && r.value.tokenType != Eof ==> !isEOF && peeks == []
    {
      ghost var before := Pending();
      if isEOF {
        return Ok(Token(Eof, "", line, index));
      }
      if |peeks| > 0 {
        var peek := peeks[0];
        peeks := peeks[1..];
        assert before.toks == [peek] + Pending().toks;
        return Ok(peek);
      }
      ghost var start := pointer;
      assert peeks + Remaining(input, start).toks == Remaining(input, start).toks;
      assert before == Remaining(input, start);
      r := Lex();
      if r.Ok? && r.value.tokenType == Eof {
        isEOF := true;
      }
      if r.Ok? && r.value.tokenType != Eof {
        assert peeks + Remaining(input, pointer).toks == Remaining(input, pointer).toks;
        assert Pending() == Remaining(input, pointer);
      }
    }

    /** The scanning half of `NextToken`: skips whitespace and reads the token under the
        cursor, leaving the cursor after it. */
    method Lex() returns (r: Result<Token, Error>)
      requires CursorValid()
      modifies this`pointer, this`current, this`line, this`index
      ensures CursorValid()
      ensures Scan(input, old(pointer)).Err? ==> r == Err(Scan(input, old(pointer)).error)
      ensures Scan(input, old(pointer)).Ok? ==>
        r == Ok(Scan(input, old(pointer)).value.token) && pointer == Scan(input, old(pointer)).value.next
    {
      SkipWhitespace();
      if pointer > |input| - 1 {
        return Ok(Token(Eof, "", line, index));
      }
      var t: Token;
      var line, index := this.line, this.index;
      if current == Colon {
        t := Token(Separator, ":", line, index);
      } else if current == Hash {
        var codes := ReadEOL();
        t := Token(Comment, Latin1(codes), line, index);
      } else if IsDigit(current) {
        var codes := ReadDigit();
        t := Token(Digit, Latin1(codes), line, index);
      } else if IsCharacter(current) {
        var literal := ReadIdentifier();
        var ident := Latin1(literal);
        t := Token(KeywordKind(Lower(ident)), ident, line, index);
      } else {
        return Err(UnexpectedCharacter(current as char, line, index));
      }
      Read();
      return Ok(t);
    }

    /** Returns the next token without consuming it: it is queued and handed out again
        by the following `NextToken`. */
    method PeekToken() returns (r: Result<Token, Error>)
      requires Valid()
      modifies this
      ensures Valid()
      ensures r == Head(old(Pending()))
      ensures r.Ok? ==> Pending() == old(Pending())
    {
      ghost var before := Pending();
      r := NextToken();
      if r.Ok? {
        ghost var after := Pending();
        peeks := peeks + [r.value];
        if isEOF {
          EofStream(before);
        } else {
          assert peeks == [r.value];
          assert before.toks == [r.value] + after.toks;
          assert Pending().toks == [r.value] + after.toks;
        }
      }
    }
  }

  /** A peeked token is the token the next `NextToken` returns. */
  method PeekThenNext(l: Lexer) returns (peeked: Result<Token, Error>, next: Result<Token, Error>)
    requires l.Valid()
    modifies l
    ensures peeked.Ok? ==> next == peeked
  {
    peeked := l.PeekToken();
    if peeked.Ok? {
      next := l.NextToken();
    } else {
      next := peeked;
    }
  }
}
