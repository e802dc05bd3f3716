/** The token kinds and the token record shared by the lexer and the parser. */
module Tokens {

  /** The closed set of token kinds. `Ident` is the one kind used both for path
      patterns and for product tokens. `Digit`, `ClawlDelay` and `Sitemap` are the
      kinds the lexer produces beyond those the token module lists. */
  datatype TokenType =
    | UserAgent
    | Comment
    | Separator
    | Allow
    | Disallow
    | Ident
    | Digit
    | ClawlDelay
    | Sitemap
    | Eof

  /** The string value of each kind constant; it is the kind's own upper-case name. */
  function KindName(k: TokenType): string
  {
    match k
    case UserAgent => "USERAGENT"
    case Comment => "COMMENT"
    case Separator => "SEPARATOR"
    case Allow => "ALLOW"
    case Disallow => "DISALLOW"
    case Ident => "IDENT"
    case Digit => "DIGIT"
    case ClawlDelay => "CLAWLDELAY"
    case Sitemap => "SITEMAP"
    case Eof => "EOF"
  }

  /** Kinds compare by their string values, so distinct kinds must have distinct names. */
  lemma KindNameInjective(a: TokenType, b: TokenType)
    ensures KindName(a) == KindName(b) <==> a == b
  {
  }

  /** A token: its kind, its literal source text, the 1-based line and the 1-based
      position within that line of its first byte. */
  datatype Token = Token(tokenType: TokenType, literal: string, line: nat, index: nat)
}
