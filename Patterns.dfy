/** Rule paths as patterns: `toRegExpPath` compiles a rule path into a regular expression
    source, and its `test` method is applied to a (decoded) request path.

    The regular-expression side covers the constructs the compiler produces: literal
    characters, the escape `\?`, `.` (any character but a line terminator), `.*` and the
    end anchor `$`. `PatternAtoms` reads a rule path directly as the same atoms, and
    `RuleMatchesMeaning` proves that the compiled expression tests exactly that. */
module Patterns {
  import opened Wrappers

  // ---------------------------------------------------------------------------
  // String helpers: split and join on "/", escaping of "?"
  // ---------------------------------------------------------------------------

  /** The index of the first '/' in `s`, if any. */
  function FirstSlash(s: string): (r: Option<nat>)
    ensures r.Some? ==> r.value < |s| && s[r.value] == '/' && '/' !in s[..r.value]
    ensures r.None? ==> '/' !in s
  {
    if s == [] then None
    else if s[0] == '/' then Some(0)
    else match FirstSlash(s[1..])
      case None => None
      case Some(i) => assert s[..i + 1] == [s[0]] + s[1..][..i]; Some(i + 1)
  }

  /** `s.split("/")`: the pieces between the slashes; never empty. */
  function Split(s: string): (r: seq<string>)
    ensures |r| >= 1
    ensures forall k | 0 <= k < |r| :: '/' !in r[k]
    decreases |s|
  {
    match FirstSlash(s)
    case None => [s]
    case Some(i) => [s[..i]] + Split(s[i + 1..])
  }

  /** `segments.join("/")`. */
  function Join(segs: seq<string>): string
  {
    if segs == [] then ""
    else if |segs| == 1 then segs[0]
    else segs[0] + "/" + Join(segs[1..])
  }

  /** The number of '/' characters in `s`, counted from the end. */
  function Slashes(s: string): nat
  {
    if s == [] then 0 else Slashes(s[..|s| - 1]) + (if s[|s| - 1] == '/' then 1 else 0)
  }

  lemma {:induction false} SlashesAppend(a: string, b: string)
    ensures Slashes(a + b) == Slashes(a) + Slashes(b)
    decreases |b|
  {
    if b == [] {
      assert a + b == a;
    } else {
      assert (a + b)[..|a + b| - 1] == a + b[..|b| - 1];
      assert (a + b)[|a + b| - 1] == b[|b| - 1];
      SlashesAppend(a, b[..|b| - 1]);
    }
  }

  lemma {:induction false} NoSlashes(a: string)
    requires '/' !in a
    ensures Slashes(a) == 0
  {
    if a != [] {
      assert a[|a| - 1] in a;
      assert '/' !in a[..|a| - 1] by {
        forall c | c in a[..|a| - 1] ensures c in a {
        }
      }
      NoSlashes(a[..|a| - 1]);
    }
  }

  /** Splitting and joining again gives the string back. */
  lemma {:induction false} SplitJoin(s: string)
    ensures Join(Split(s)) == s
    decreases |s|
  {
    match FirstSlash(s)
    case None =>
    case Some(i) =>
      var a, b := s[..i], s[i + 1..];
      assert s == a + ("/" + b);
      SplitAround(a, b);
      SplitJoin(b);
      assert ([a] + Split(b))[1..] == Split(b);
  }

  /** A string has one more piece than it has slashes. */
  lemma {:induction false} SplitCount(s: string)
    ensures |Split(s)| == Slashes(s) + 1
    decreases |s|
  {
    match FirstSlash(s)
    case None =>
      NoSlashes(s);
    case Some(i) =>
      var a, b := s[..i], s[i + 1..];
      assert s == a + ("/" + b);
      SplitAround(a, b);
      SplitCount(b);
      SlashesAppend(a, "/" + b);
      SlashesAppend("/", b);
      assert Slashes("/") == 1 by {
        assert "/"[..0] == [];
      }
      NoSlashes(a);
  }

  /** The replacement for one character in `.replace(/\?/g, "\\?")`. */
  function EscapeChar(c: char): string
  {
    if c == '?' then "\\?" else [c]
  }

  /** `path.replace(/\?/g, "\\?")`: every '?' gets a backslash before it. */
  function Escape(s: string): (r: string)
    ensures |r| >= |s|
    ensures '/' in r <==> '/' in s
  {
    if s == [] then [] else EscapeChar(s[0]) + Escape(s[1..])
  }

  lemma {:induction false} EscapeAppend(a: string, b: string)
    ensures Escape(a + b) == Escape(a) + Escape(b)
  {
    if a != [] {
      assert (a + b)[0] == a[0];
      assert (a + b)[1..] == a[1..] + b;
      EscapeAppend(a[1..], b);
    } else {
      assert a + b == b;
    }
  }

  /** A path without '?' is left as it is, and a '?' at the end turns into "\?". */
  lemma {:induction false} EscapeValues(s: string)
    ensures '?' !in s ==> Escape(s) == s
    ensures Escape(s + "?") == Escape(s) + "\\?"
  {
    if s != [] {
      assert '?' !in s ==> '?' !in s[1..] by {
        forall c | c in s[1..] ensures c in s {
        }
      }
      EscapeValues(s[1..]);
    }
    EscapeAppend(s, "?");
    assert "?"[1..] == [];
  }

  /** The segment rewrite of `toRegExpPath`: a segment that is exactly "*" becomes ".*". */
  function SegmentSource(seg: string): string
  {
    if seg == "*" then ".*" else seg
  }

  function MapSegments(segs: seq<string>): (r: seq<string>)
    ensures |r| == |segs|
  {
    if segs == [] then [] else [SegmentSource(segs[0])] + MapSegments(segs[1..])
  }

  /** The body of the expression built by `toRegExpPath`, before the suffix. */
  function Target(path: string): string
  {
    Join(MapSegments(Split(Escape(path))))
  }

  /** `toRegExpPath(path).source`: "^", the body, and ".*" when the body ends in '/'. */
  function ToRegExpPath(path: string): (src: string)
    ensures |src| >= 1 && src[0] == '^'
  {
    var target := Target(path);
    var suffix := if |target| > 0 && target[|target| - 1] == '/' then ".*" else "";
    "^" + target + suffix
  }

  // ---------------------------------------------------------------------------
  // The regular-expression subset
  // ---------------------------------------------------------------------------

  /** One element of a compiled expression: a literal character, `.`, `.*`, or `$`. */
  datatype Atom = Lit(c: char) | AnyChar | AnyRun | End

  /** The characters JavaScript's `.` does not match. */
  predicate IsLineTerminator(c: char)
  {
    c == '\n' || c == '\r' || c == '\U{2028}' || c == '\U{2029}'
  }

  /** Characters that have a meaning in a regular expression outside this subset. */
  predicate IsUnsupportedMeta(c: char)
  {
    c in {'\\', '^', '[', ']', '(', ')', '|', '+', '{', '}', '*', '?'}
  }

  function Cons(a: Atom, rest: Option<seq<Atom>>): (r: Option<seq<Atom>>)
    ensures r.Some? <==> rest.Some?
    ensures r.Some? ==> r.value == [a] + rest.value
  {
    match rest
    case None => None
    case Some(atoms) => Some([a] + atoms)
  }

  /** The atoms of an expression source (after its leading "^"); `None` for a source
      outside the subset. */
  function RegexAtoms(src: string): Option<seq<Atom>>
    decreases |src|
  {
    if src == [] then Some([])
    else if src[0] == '\\' then
      if |src| >= 2 && src[1] == '?' then Cons(Lit('?'), RegexAtoms(src[2..])) else None
    else if src[0] == '.' then
      if |src| >= 2 && src[1] == '*' then Cons(AnyRun, RegexAtoms(src[2..]))
      else Cons(AnyChar, RegexAtoms(src[1..]))
    else if src[0] == '$' then Cons(End, RegexAtoms(src[1..]))
    else if IsUnsupportedMeta(src[0]) then None
    else Cons(Lit(src[0]), RegexAtoms(src[1..]))
  }

  /** Whether `atoms` match a prefix of `s` (the expression is anchored at the start
      only, so whatever follows the match is ignored). */
  function MatchAtoms(atoms: seq<Atom>, s: string): bool
    decreases |atoms|, |s|
  {
    if atoms == [] then true
    else match atoms[0]
      case Lit(c) => |s| > 0 && s[0] == c && MatchAtoms(atoms[1..], s[1..])
      case AnyChar => |s| > 0 && !IsLineTerminator(s[0]) && MatchAtoms(atoms[1..], s[1..])
      case AnyRun =>
        MatchAtoms(atoms[1..], s) || (|s| > 0 && !IsLineTerminator(s[0]) && MatchAtoms(atoms, s[1..]))
      case End => |s| == 0 && MatchAtoms(atoms[1..], s)
  }

  /** `new RegExp(src).test(s)` for a source "^..." in the subset. */
  function RegexTest(src: string, s: string): Option<bool>
  {
    if |src| > 0 && src[0] == '^' then
      match RegexAtoms(src[1..])
      case None => None
      case Some(atoms) => Some(MatchAtoms(atoms, s))
    else None
  }

  // ---------------------------------------------------------------------------
  // Rule paths and what they mean
  // ---------------------------------------------------------------------------

  /** The rule paths this model covers: no character that is a regular-expression
      operator outside the subset, and every '*' a whole '/'-segment. */
  predicate NoOperators(s: string)
  {
    forall i | 0 <= i < |s| :: s[i] !in {'\\', '^', '[', ']', '(', ')', '|', '+', '{', '}'}
  }

  predicate SupportedPattern(p: string)
  {
    && NoOperators(p)
    && (forall seg | seg in Split(p) :: seg == "*" || '*' !in seg)
  }

  /** A rule path read directly as atoms: a '*' segment is any run, '.' any character,
      '$' the end; everything else (including '?') stands for itself. `atStart` says
      whether `p` begins a segment. */
  function AtomsFrom(p: string, atStart: bool): seq<Atom>
  {
    if p == [] then []
    else if p[0] == '*' && atStart && (|p| == 1 || p[1] == '/') then [AnyRun] + AtomsFrom(p[1..], false)
    else if p[0] == '.' then [AnyChar] + AtomsFrom(p[1..], false)
    else if p[0] == '$' then [End] + AtomsFrom(p[1..], false)
    else [Lit(p[0])] + AtomsFrom(p[1..], p[0] == '/')
  }

  function PatternAtoms(p: string): seq<Atom>
  {
    AtomsFrom(p, true)
  }

  /** Whether the rule with path `p` matches the request path `s`: the compiled
      expression's test. */
  function RuleMatches(p: string, s: string): (m: bool)
    requires SupportedPattern(p)
  {
    CompileCorrect(p);
    RegexTest(ToRegExpPath(p), s).value
  }

  // ---------------------------------------------------------------------------
  // The compiler is correct
  // ---------------------------------------------------------------------------

  /** The atom of one character of a segment that is not "*". */
  function CharAtom(c: char): Atom
  {
    if c == '.' then AnyChar else if c == '$' then End else Lit(c)
  }

  function CharAtoms(x: string): (r: seq<Atom>)
    ensures |r| == |x|
    ensures forall i | 0 <= i < |x| :: r[i] == CharAtom(x[i])
  {
    if x == [] then [] else [CharAtom(x[0])] + CharAtoms(x[1..])
  }

  /** The atoms of a segment without '/': the any-run for "*", else one atom per character. */
  function SegmentAtoms(seg: string): seq<Atom>
  {
    if seg == "*" then [AnyRun] else CharAtoms(seg)
  }

  /** A tail after which a compiled segment is still read atom by atom. */
  predicate CleanTail(u: string)
  {
    RegexAtoms(u).Some? && (u == [] || u[0] != '*')
  }

  lemma {:induction false} EscapeStart(x: string)
    requires x != []
    ensures Escape(x) != [] && Escape(x)[0] == (if x[0] == '?' then '\\' else x[0])
  {
  }

  lemma EscapedChar(c: char, v: string)
    requires c !in {'\\', '^', '[', ']', '(', ')', '|', '+', '{', '}'} && c != '*'
    requires CleanTail(v)
    ensures RegexAtoms(EscapeChar(c) + v) == Some([CharAtom(c)] + RegexAtoms(v).value)
  {
    var w := EscapeChar(c) + v;
    if c == '?' {
      assert w[0] == '\\' && w[1] == '?' && w[2..] == v;
    } else {
      assert w[0] == c && w[1..] == v;
      if |v| > 0 {
        assert w[1] == v[0];
      }
    }
  }

  lemma EscapedCons(x: string, u: string)
    requires x != [] && NoOperators(x) && '*' !in x && CleanTail(u)
    requires RegexAtoms(Escape(x[1..]) + u) == Some(CharAtoms(x[1..]) + RegexAtoms(u).value)
    ensures RegexAtoms(Escape(x) + u) == Some(CharAtoms(x) + RegexAtoms(u).value)
  {
    var v := Escape(x[1..]) + u;
    if x[1..] != [] {
      EscapeStart(x[1..]);
    }
    assert x[0] in x;
    EscapedChar(x[0], v);
    Regroup2(EscapeChar(x[0]), Escape(x[1..]), u);
    Regroup2([CharAtom(x[0])], CharAtoms(x[1..]), RegexAtoms(u).value);
  }

  /** An escaped segment without '*' reads as its characters' atoms. */
  lemma {:induction false} EscapedChars(x: string, u: string)
    requires NoOperators(x) && '*' !in x && CleanTail(u)
    ensures RegexAtoms(Escape(x) + u) == Some(CharAtoms(x) + RegexAtoms(u).value)
  {
    if x != [] {
      assert NoOperators(x[1..]) by {
        forall i | 0 <= i < |x[1..]| ensures x[1..][i] == x[i + 1] {}
      }
      EscapedChars(x[1..], u);
      EscapedCons(x, u);
    } else {
      assert Escape(x) + u == u;
      assert CharAtoms(x) + RegexAtoms(u).value == RegexAtoms(u).value;
    }
  }

  lemma EscapeIsStar(x: string)
    ensures Escape(x) == "*" <==> x == "*"
  {
    if x != [] && x[0] == '?' {
      assert Escape(x)[0] == '\\';
    }
    if x != [] && x[0] != '?' && |x| > 1 {
      assert |Escape(x)| >= 2;
    }
  }

  /** A compiled segment reads as the segment's atoms. */
  lemma SegmentCompiles(seg: string, u: string)
    requires NoOperators(seg) && (seg == "*" || '*' !in seg)
    requires CleanTail(u)
    ensures RegexAtoms(SegmentSource(Escape(seg)) + u) == Some(SegmentAtoms(seg) + RegexAtoms(u).value)
  {
    EscapeIsStar(seg);
    if seg == "*" {
      assert (".*" + u)[2..] == u;
    } else {
      EscapedChars(seg, u);
    }
  }

  /** The reference reading splits at the first '/'. */
  lemma {:induction false} AtomsFromSegment(x: string, t: string, atStart: bool)
    requires '/' !in x
    requires t == [] || t[0] == '/'
    ensures AtomsFrom(x + t, atStart) ==
      (if atStart && x == "*" then [AnyRun] else CharAtoms(x)) + AtomsFrom(t, if x == [] then atStart else false)
  {
    if x != [] {
      assert (x + t)[1..] == x[1..] + t;
      AtomsFromSegment(x[1..], t, false);
      if atStart && x == "*" {
        AtomsFromStar(t);
      } else {
        assert (x + t)[0] == x[0] && x[0] != '/';
        if |x| > 1 {
          assert (x + t)[1] == x[1] && x[1] != '/';
        }
        AtomsFromCons(x + t, atStart);
      }
    } else {
      assert x + t == t;
    }
  }

  /** A "*" segment at the start of a segment reads as the any-run. */
  lemma AtomsFromStar(t: string)
    requires t == [] || t[0] == '/'
    ensures AtomsFrom("*" + t, true) == [AnyRun] + AtomsFrom(t, false)
  {
    assert ("*" + t)[0] == '*' && ("*" + t)[1..] == t;
    if t != [] {
      assert ("*" + t)[1] == t[0];
    }
  }

  lemma SupportedParts(p: string, i: nat)
    requires SupportedPattern(p) && FirstSlash(p) == Some(i)
    ensures SupportedPattern(p[i + 1..])
    ensures NoOperators(p[..i]) && (p[..i] == "*" || '*' !in p[..i])
  {
    assert Split(p) == [p[..i]] + Split(p[i + 1..]);
    assert p[..i] in Split(p);
    forall seg | seg in Split(p[i + 1..]) ensures seg == "*" || '*' !in seg {
      assert seg in Split(p);
    }
  }

  lemma {:induction false} FirstSlashAfter(a: string, b: string)
    requires '/' !in a && b != [] && b[0] == '/'
    ensures FirstSlash(a + b) == Some(|a|)
  {
    if a == [] {
      assert a + b == b;
    } else {
      assert (a + b)[0] == a[0];
      assert (a + b)[1..] == a[1..] + b;
      FirstSlashAfter(a[1..], b);
    }
  }

  lemma EscapeAround(seg: string, rest: string)
    ensures Escape(seg + ("/" + rest)) == Escape(seg) + ("/" + Escape(rest))
  {
    EscapeAppend(seg, "/" + rest);
    EscapeAppend("/", rest);
    assert Escape("/") == "/" by {
      assert "/"[1..] == [];
    }
  }

  /** Every piece escaped on its own. */
  function EscapeEach(segs: seq<string>): (r: seq<string>)
    ensures |r| == |segs|
  {
    if segs == [] then [] else [Escape(segs[0])] + EscapeEach(segs[1..])
  }

  /** Escaping before the split escapes each piece on its own: the pieces of the
      escaped path are the escaped pieces of the path. */
  lemma {:induction false} EscapeSplit(p: string)
    ensures Split(Escape(p)) == EscapeEach(Split(p))
    decreases |p|
  {
    match FirstSlash(p)
    case None =>
      assert FirstSlash(Escape(p)).None?;
    case Some(i) =>
      var seg, rest := p[..i], p[i + 1..];
      assert p == seg + ("/" + rest);
      EscapeAround(seg, rest);
      SplitAround(seg, rest);
      SplitAround(Escape(seg), Escape(rest));
      EscapeSplit(rest);
      assert ([seg] + Split(rest))[1..] == Split(rest);
  }

  lemma SplitAround(a: string, b: string)
    requires '/' !in a
    ensures Split(a + ("/" + b)) == [a] + Split(b)
  {
    var e := a + ("/" + b);
    FirstSlashAfter(a, "/" + b);
    assert e[..|a|] == a;
    assert e[|a| + 1..] == b;
  }

  /** The compiled body of a path is its first segment's source, '/', and the body of
      the rest. */
  lemma TargetSplit(p: string, i: nat)
    requires FirstSlash(p) == Some(i)
    ensures Target(p) == SegmentSource(Escape(p[..i])) + "/" + Target(p[i + 1..])
  {
    var seg, rest := p[..i], p[i + 1..];
    assert p == seg + ("/" + rest);
    EscapeAround(seg, rest);
    SplitAround(Escape(seg), Escape(rest));
    var tail := Split(Escape(rest));
    assert MapSegments([Escape(seg)] + tail) == [SegmentSource(Escape(seg))] + MapSegments(tail);
  }

  /** The reference reading of a path is its first segment's atoms, '/', and the
      reading of the rest. */
  lemma PatternSplit(p: string, i: nat)
    requires FirstSlash(p) == Some(i)
    ensures PatternAtoms(p) == SegmentAtoms(p[..i]) + [Lit('/')] + PatternAtoms(p[i + 1..])
  {
    var seg, rest := p[..i], p[i + 1..];
    assert p == seg + ("/" + rest);
    AtomsFromSegment(seg, "/" + rest, true);
    AtomsFromSlash(rest, seg == []);
  }

  lemma AtomsFromSlash(rest: string, atStart: bool)
    ensures AtomsFrom("/" + rest, atStart) == [Lit('/')] + AtomsFrom(rest, true)
  {
    assert ("/" + rest)[0] == '/' && ("/" + rest)[1..] == rest;
  }

  /** A path without '/' compiles as one segment and reads as one segment. */
  lemma WholeSegment(p: string)
    requires FirstSlash(p).None?
    ensures Target(p) == SegmentSource(Escape(p))
    ensures PatternAtoms(p) == SegmentAtoms(p)
  {
    assert Split(Escape(p)) == [Escape(p)];
    assert MapSegments([Escape(p)]) == [SegmentSource(Escape(p))];
    AtomsFromSegment(p, "", true);
    assert p + "" == p;
  }

  lemma WholeSegmentCompiles(p: string, u: string)
    requires SupportedPattern(p) && CleanTail(u) && FirstSlash(p).None?
    ensures RegexAtoms(Target(p) + u) == Some(PatternAtoms(p) + RegexAtoms(u).value)
  {
    assert Split(p) == [p];
    assert p in Split(p);
    WholeSegment(p);
    SegmentCompiles(p, u);
  }

  lemma SlashThen(x: string)
    requires RegexAtoms(x).Some?
    ensures RegexAtoms("/" + x) == Some([Lit('/')] + RegexAtoms(x).value)
  {
    assert ("/" + x)[0] == '/' && ("/" + x)[1..] == x;
  }

  lemma Regroup2<T>(a: seq<T>, b: seq<T>, c: seq<T>)
    ensures (a + b) + c == a + (b + c)
  {
  }

  lemma Regroup3<T>(a: seq<T>, b: seq<T>, c: seq<T>, d: seq<T>)
    ensures (a + b + c) + d == a + (b + (c + d))
  {
  }

  lemma Regroup<T>(a: seq<T>, b: seq<T>, c: seq<T>, d: seq<T>)
    ensures a + (b + (c + d)) == (a + b + c) + d
  {
  }

  lemma StepTarget(p: string, i: nat, u: string)
    requires FirstSlash(p) == Some(i)
    ensures Target(p) + u == SegmentSource(Escape(p[..i])) + ("/" + (Target(p[i + 1..]) + u))
  {
    TargetSplit(p, i);
    Regroup3(SegmentSource(Escape(p[..i])), "/", Target(p[i + 1..]), u);
  }

  lemma StepRegex(p: string, i: nat, u: string)
    requires SupportedPattern(p) && CleanTail(u) && FirstSlash(p) == Some(i)
    requires RegexAtoms(Target(p[i + 1..]) + u) == Some(PatternAtoms(p[i + 1..]) + RegexAtoms(u).value)
    ensures RegexAtoms(SegmentSource(Escape(p[..i])) + ("/" + (Target(p[i + 1..]) + u)))
      == Some(SegmentAtoms(p[..i]) + ([Lit('/')] + (PatternAtoms(p[i + 1..]) + RegexAtoms(u).value)))
  {
    var x := Target(p[i + 1..]) + u;
    SupportedParts(p, i);
    SlashThen(x);
    SegmentCompiles(p[..i], "/" + x);
  }

  /** One step of the compile proof: the first segment, given the rest. */
  lemma FirstSegmentCompiles(p: string, i: nat, u: string)
    requires SupportedPattern(p) && CleanTail(u) && FirstSlash(p) == Some(i)
    requires RegexAtoms(Target(p[i + 1..]) + u) == Some(PatternAtoms(p[i + 1..]) + RegexAtoms(u).value)
    ensures RegexAtoms(Target(p) + u) == Some(PatternAtoms(p) + RegexAtoms(u).value)
  {
    StepTarget(p, i, u);
    StepRegex(p, i, u);
    PatternSplit(p, i);
    Regroup(SegmentAtoms(p[..i]), [Lit('/')], PatternAtoms(p[i + 1..]), RegexAtoms(u).value);
  }

  lemma {:induction false} TargetCompiles(p: string, u: string)
    requires SupportedPattern(p) && CleanTail(u)
    ensures RegexAtoms(Target(p) + u) == Some(PatternAtoms(p) + RegexAtoms(u).value)
    decreases |p|
  {
    match FirstSlash(p)
    case None =>
      WholeSegmentCompiles(p, u);
    case Some(i) =>
      SupportedParts(p, i);
      TargetCompiles(p[i + 1..], u);
      FirstSegmentCompiles(p, i, u);
  }

  /** The compiled expression of a supported rule path is in the subset and reads as the
      path's atoms, followed by an any-run when `toRegExpPath` adds the ".*" suffix. */
  lemma CompileCorrect(p: string)
    requires SupportedPattern(p)
    ensures RegexAtoms(ToRegExpPath(p)[1..]).Some?
    ensures var target := Target(p);
      RegexAtoms(ToRegExpPath(p)[1..]).value ==
        PatternAtoms(p) + (if |target| > 0 && target[|target| - 1] == '/' then [AnyRun] else [])
  {
    var target := Target(p);
    if |target| > 0 && target[|target| - 1] == '/' {
      assert ".*"[0] == '.' && ".*"[1] == '*' && ".*"[2..] == [];
      assert RegexAtoms([]) == Some([]);
      assert [AnyRun] + [] == [AnyRun];
      assert RegexAtoms(".*") == Some([AnyRun]);
      TargetCompiles(p, ".*");
      assert ToRegExpPath(p)[1..] == target + ".*";
    } else {
      TargetCompiles(p, "");
      assert ToRegExpPath(p)[1..] == target + "";
    }
  }

  // ---------------------------------------------------------------------------
  // What the atoms match
  // ---------------------------------------------------------------------------

  /** An any-run at the end of an expression changes nothing: the expression only has
      to match a prefix. */
  lemma {:induction false} TrailingRun(a: seq<Atom>, s: string)
    ensures MatchAtoms(a + [AnyRun], s) == MatchAtoms(a, s)
    decreases |a|, |s|
  {
    if a == [] {
      assert a + [AnyRun] == [AnyRun];
      assert [AnyRun][1..] == [];
    } else {
      assert (a + [AnyRun])[0] == a[0];
      assert (a + [AnyRun])[1..] == a[1..] + [AnyRun];
      match a[0]
      case Lit(_) =>
        if |s| > 0 { TrailingRun(a[1..], s[1..]); }
      case AnyChar =>
        if |s| > 0 { TrailingRun(a[1..], s[1..]); }
      case End =>
        TrailingRun(a[1..], s);
      case AnyRun =>
        TrailingRun(a[1..], s);
        if |s| > 0 { TrailingRun(a, s[1..]); }
    }
  }

  /** Whether character `d` of a path fits character `c` of a pattern without '*' or
      '$': '.' takes any character but a line terminator, anything else itself. */
  predicate CharFits(c: char, d: char)
  {
    if c == '.' then !IsLineTerminator(d) else d == c
  }

  predicate Fits(w: string, t: string)
  {
    |w| == |t| && forall i | 0 <= i < |w| :: CharFits(w[i], t[i])
  }

  /** A run of characters without '$' matches exactly the strings that fit it. */
  lemma {:induction false} CharsMatch(w: string, a: seq<Atom>, s: string)
    requires '$' !in w
    ensures MatchAtoms(CharAtoms(w) + a, s) <==> |w| <= |s| && Fits(w, s[..|w|]) && MatchAtoms(a, s[|w|..])
  {
    if w == [] {
      assert CharAtoms(w) + a == a;
      assert s[..0] == [] && s[0..] == s;
    } else {
      var rest := CharAtoms(w[1..]) + a;
      assert CharAtoms(w) + a == [CharAtom(w[0])] + rest;
      assert ([CharAtom(w[0])] + rest)[1..] == rest;
      assert w[0] in w;
      if |s| > 0 {
        CharsMatch(w[1..], a, s[1..]);
        if |w| <= |s| {
          assert s[1..][|w| - 1..] == s[|w|..];
          assert s[1..][..|w| - 1] == s[..|w|][1..];
          if Fits(w, s[..|w|]) {
            assert Fits(w[1..], s[1..][..|w| - 1]) by {
              forall i | 0 <= i < |w| - 1 ensures CharFits(w[1..][i], s[1..][..|w| - 1][i]) {
                assert CharFits(w[i + 1], s[..|w|][i + 1]);
              }
            }
          }
          if CharFits(w[0], s[0]) && Fits(w[1..], s[1..][..|w| - 1]) {
            assert Fits(w, s[..|w|]) by {
              forall i | 0 <= i < |w| ensures CharFits(w[i], s[..|w|][i]) {
                if i > 0 {
                  assert CharFits(w[1..][i - 1], s[1..][..|w| - 1][i - 1]);
                }
              }
            }
          }
        }
      }
    }
  }

  predicate NoLineTerminator(t: string)
  {
    forall i | 0 <= i < |t| :: !IsLineTerminator(t[i])
  }

  /** Where the path `s` can resume after an any-run: `k` characters on. */
  predicate RunThen(a: seq<Atom>, s: string, k: nat)
  {
    k <= |s| && NoLineTerminator(s[..k]) && MatchAtoms(a, s[k..])
  }

  /** Whether `a` matches after some stretch of `s` without a line terminator. */
  predicate MatchesAfterRun(a: seq<Atom>, s: string)
  {
    exists k: nat | k <= |s| :: RunThen(a, s, k)
  }

  /** An any-run takes any stretch of characters without a line terminator. */
  lemma {:induction false} AnyRunMatch(a: seq<Atom>, s: string)
    ensures MatchAtoms([AnyRun] + a, s) <==> MatchesAfterRun(a, s)
    decreases |s|
  {
    var r := [AnyRun] + a;
    assert r[0] == AnyRun && r[1..] == a;
    assert MatchAtoms(r, s) == (MatchAtoms(a, s) || (|s| > 0 && !IsLineTerminator(s[0]) && MatchAtoms(r, s[1..])));
    RunThenZero(a, s);
    if |s| > 0 {
      AnyRunMatch(a, s[1..]);
      if !IsLineTerminator(s[0]) && MatchAtoms(r, s[1..]) {
        var k: nat :| k <= |s[1..]| && RunThen(a, s[1..], k);
        RunThenLonger(a, s, k);
      }
      if MatchesAfterRun(a, s) {
        var k: nat :| k <= |s| && RunThen(a, s, k);
        if k > 0 {
          RunThenShorter(a, s, k);
        }
      }
    } else if MatchesAfterRun(a, s) {
      var k: nat :| k <= |s| && RunThen(a, s, k);
    }
  }

  /** Resuming right away is matching the whole path. */
  lemma RunThenZero(a: seq<Atom>, s: string)
    ensures RunThen(a, s, 0) <==> MatchAtoms(a, s)
  {
    assert s[..0] == [] && s[0..] == s;
  }

  /** A stretch can take one more character in front, if it is not a line terminator. */
  lemma RunThenLonger(a: seq<Atom>, s: string, k: nat)
    requires |s| > 0 && !IsLineTerminator(s[0]) && RunThen(a, s[1..], k)
    ensures RunThen(a, s, k + 1)
  {
    assert s[..k + 1] == [s[0]] + s[1..][..k];
    assert s[k + 1..] == s[1..][k..];
  }

  /** A non-empty stretch without its first character is a stretch of the rest. */
  lemma RunThenShorter(a: seq<Atom>, s: string, k: nat)
    requires k > 0 && RunThen(a, s, k)
    ensures !IsLineTerminator(s[0]) && RunThen(a, s[1..], k - 1)
  {
    assert s[..k][0] == s[0];
    assert s[1..][..k - 1] == s[..k][1..];
    assert s[1..][k - 1..] == s[k..];
  }

  /** A path without '*' reads as one atom per character. */
  lemma {:induction false} StarFreeAtoms(p: string, atStart: bool)
    requires '*' !in p
    ensures AtomsFrom(p, atStart) == CharAtoms(p)
  {
    if p != [] {
      assert p[0] in p;
      StarFreeAtoms(p[1..], p[0] == '/');
      StarFreeAtoms(p[1..], false);
    }
  }

  // ---------------------------------------------------------------------------
  // What a rule path means
  // ---------------------------------------------------------------------------

  /** A rule matches exactly when the path's own reading matches a prefix of the
      request path; the ".*" that `toRegExpPath` adds after a trailing '/' makes no
      difference. */
  lemma RuleMatchesMeaning(p: string, s: string)
    requires SupportedPattern(p)
    ensures RuleMatches(p, s) == MatchAtoms(PatternAtoms(p), s)
  {
    CompileCorrect(p);
    TrailingRun(PatternAtoms(p), s);
    assert PatternAtoms(p) + [] == PatternAtoms(p);
  }

  /** A rule path without '*' and '$' matches the request paths that start with
      something that fits it. */
  lemma FixedPattern(w: string, s: string)
    requires SupportedPattern(w) && '*' !in w && '$' !in w
    ensures RuleMatches(w, s) <==> |w| <= |s| && Fits(w, s[..|w|])
  {
    RuleMatchesMeaning(w, s);
    StarFreeAtoms(w, true);
    CharsMatch(w, [], s);
    assert CharAtoms(w) + [] == CharAtoms(w);
  }

  /** A rule path made of literal characters (including '?') matches exactly the
      request paths it is a prefix of. */
  lemma LiteralPatternIsPrefix(w: string, s: string)
    requires SupportedPattern(w) && '*' !in w && '$' !in w && '.' !in w
    ensures RuleMatches(w, s) <==> w <= s
  {
    FixedPattern(w, s);
    if |w| <= |s| && Fits(w, s[..|w|]) {
      assert w == s[..|w|] by {
        forall i | 0 <= i < |w| ensures w[i] == s[..|w|][i] {
          assert w[i] in w;
        }
      }
    }
    if w <= s {
      assert s[..|w|] == w;
      forall i | 0 <= i < |w| ensures CharFits(w[i], s[..|w|][i]) {
        assert w[i] in w;
      }
    }
  }

  /** A trailing '$' makes the rule match only a request path that fits the rest of it
      in full. */
  lemma EndAnchoredPattern(w: string, s: string)
    requires SupportedPattern(w + "$") && '*' !in w && '$' !in w
    ensures RuleMatches(w + "$", s) <==> Fits(w, s)
  {
    var p := w + "$";
    RuleMatchesMeaning(p, s);
    assert '*' !in p by {
      assert forall i | 0 <= i < |p| :: p[i] == (if i < |w| then w[i] else '$');
    }
    StarFreeAtoms(p, true);
    assert CharAtoms(p) == CharAtoms(w) + [End] by {
      CharAtomsAppend(w, "$");
    }
    CharsMatch(w, [End], s);
    assert [End][1..] == [];
    if |w| <= |s| {
      assert |s[|w|..]| == |s| - |w|;
      if |w| == |s| {
        assert s[..|w|] == s;
      }
    }
  }

  lemma {:induction false} CharAtomsAppend(a: string, b: string)
    ensures CharAtoms(a + b) == CharAtoms(a) + CharAtoms(b)
  {
    if a != [] {
      assert (a + b)[0] == a[0] && (a + b)[1..] == a[1..] + b;
      CharAtomsAppend(a[1..], b);
    } else {
      assert a + b == b;
    }
  }

  /** The atoms of a path with one '*' segment between two fixed parts. */
  lemma StarSegmentAtoms(w: string, t: string)
    requires '*' !in w && '*' !in t
    requires w == [] || w[|w| - 1] == '/'
    requires t == [] || t[0] == '/'
    ensures PatternAtoms(w + "*" + t) == CharAtoms(w) + [AnyRun] + CharAtoms(t)
  {
    assert w + "*" + t == w + ("*" + t);
    AtomsFromAppend(w, "*" + t, true);
    assert (if w == [] then true else w[|w| - 1] == '/');
    StarHead(t);
    StarFreeAtoms(w, true);
    StarFreeAtoms(t, false);
    Regroup2(CharAtoms(w), [AnyRun], CharAtoms(t));
  }

  /** A '*' that starts a segment and ends one reads as the any-run. */
  lemma StarHead(t: string)
    requires t == [] || t[0] == '/'
    ensures AtomsFrom("*" + t, true) == [AnyRun] + AtomsFrom(t, false)
  {
    assert ("*" + t)[0] == '*' && ("*" + t)[1..] == t;
    assert |"*" + t| == 1 || ("*" + t)[1] == '/';
  }

  /** Reading `a + b` reads `a` and then `b`, the latter starting a segment exactly when
      `a` is empty and started one, or ends in '/'. */
  lemma {:induction false} AtomsFromAppend(a: string, b: string, atStart: bool)
    requires '*' !in a
    ensures AtomsFrom(a + b, atStart) ==
      AtomsFrom(a, atStart) + AtomsFrom(b, if a == [] then atStart else a[|a| - 1] == '/')
  {
    if a == [] {
      assert a + b == b;
    } else {
      assert (a + b)[0] == a[0] && (a + b)[1..] == a[1..] + b;
      assert a[0] in a;
      AtomsFromCons(a + b, atStart);
      AtomsFromCons(a, atStart);
      AtomsFromAppend(a[1..], b, a[0] == '/');
      if a[1..] != [] {
        assert a[1..][|a[1..]| - 1] == a[|a| - 1];
      }
      Regroup2([CharAtom(a[0])], AtomsFrom(a[1..], a[0] == '/'), AtomsFrom(b, a[|a| - 1] == '/'));
    }
  }

  /** A first character other than '*' reads as its own atom. */
  /** A character that does not start a "*" segment reads as its own atom. */
  lemma AtomsFromCons(p: string, atStart: bool)
    requires p != [] && !(p[0] == '*' && atStart && (|p| == 1 || p[1] == '/'))
    ensures AtomsFrom(p, atStart) == [CharAtom(p[0])] + AtomsFrom(p[1..], p[0] == '/')
  {
  }

  /** A '*' segment matches any stretch of the request path without a line terminator. */
  lemma StarSegmentPattern(w: string, t: string, s: string)
    requires SupportedPattern(w + "*" + t) && '*' !in w && '*' !in t && '$' !in w && '$' !in t
    requires w == [] || w[|w| - 1] == '/'
    requires t == [] || t[0] == '/'
    ensures RuleMatches(w + "*" + t, s) <==>
      |w| <= |s| && Fits(w, s[..|w|]) && MatchesAfterRun(CharAtoms(t), s[|w|..])
  {
    var tail := [AnyRun] + CharAtoms(t);
    RuleMatchesMeaning(w + "*" + t, s);
    assert PatternAtoms(w + "*" + t) == CharAtoms(w) + tail by {
      StarSegmentAtoms(w, t);
      Regroup2(CharAtoms(w), [AnyRun], CharAtoms(t));
    }
    CharsMatch(w, tail, s);
    if |w| <= |s| {
      AnyRunMatch(CharAtoms(t), s[|w|..]);
    }
  }

  /** A path without '*' and without operator characters is in the supported subset. */
  lemma StarFreeSupported(p: string)
    requires NoOperators(p) && '*' !in p
    ensures SupportedPattern(p)
  {
    StarFreeSegments(p);
  }

  lemma {:induction false} StarFreeSegments(p: string)
    requires '*' !in p
    ensures forall seg | seg in Split(p) :: '*' !in seg
    decreases |p|
  {
    match FirstSlash(p)
    case None =>
    case Some(i) =>
      assert '*' !in p[..i] by {
        assert forall k | 0 <= k < i :: p[..i][k] == p[k];
      }
      assert '*' !in p[i + 1..] by {
        forall c | c in p[i + 1..] ensures c in p {
          var k :| 0 <= k < |p[i + 1..]| && p[i + 1..][k] == c;
          assert p[i + 1 + k] == c;
        }
      }
      StarFreeSegments(p[i + 1..]);
  }

  /** Every path fits itself: '.' takes the '.' it stands for. */
  lemma FitsItself(w: string)
    ensures Fits(w, w)
  {
  }
}
