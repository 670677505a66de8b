/** The tokenizer for the declarative Jenkinsfile dialect, byte by byte. */
module GroovyLexer {
  import opened Streams

  const TAB: byte := 9
  const SPACE: byte := 32
  const SLASH: byte := 47
  const STAR: byte := 42
  const QUOTE: byte := 39
  const DQUOTE: byte := 34
  const BACKSLASH: byte := 92
  const LOWER_N: byte := 110
  const LOWER_T: byte := 116

  datatype Kind = Ident | Str | Punct
  datatype Token = Token(kind: Kind, text: seq<byte>, line: nat)
  datatype Lexed = Tokens(toks: seq<Token>) | Unterminated(line: nat)

  predicate IsIdent(c: byte) {
    c == 95 || c == 36 || c == 46 || 97 <= c <= 122 || 65 <= c <= 90 || 48 <= c <= 57
  }

  predicate IsBlank(c: byte) { c == SPACE || c == TAB || c == CR }

  predicate IsQuote(c: byte) { c == QUOTE || c == DQUOTE }

  function Unescape(c: byte): byte {
    if c == LOWER_N then NL else if c == LOWER_T then TAB else c
  }

  /** The text of a one-byte token: the byte read as a code point, in UTF-8. */
  function PunctText(c: byte): seq<byte> {
    if c < 0x80 then [c] else [0xC0 + c / 64, 0x80 + c % 64]
  }

  /** The bytes of words, the blanks inside a line, the quotes, what a backslash makes of the next byte, and what
      begins and ends comments. */
  lemma CharacterClasses(c: byte)
    ensures var ch := c as char;
            && (IsIdent(c) <==> 'a' <= ch <= 'z' || 'A' <= ch <= 'Z' || '0' <= ch <= '9' || ch in "_$.")
            && (IsBlank(c) <==> ch in " \t\r") && (IsQuote(c) <==> ch in "'\"")
            && Unescape(c) as char == if ch == 'n' then '\n' else if ch == 't' then '\t' else ch
    ensures [SLASH, SLASH] == Chars("//") && [SLASH, STAR] == Chars("/*") && [STAR, SLASH] == Chars("*/")
  {
  }

  /** Punctuation is encoded in UTF-8 (section 3 of RFC 3629). */
  lemma PunctIsUtf8(c: byte)
    ensures var t := PunctText(c);
            || (|t| == 1 && t[0] == c && c < 0x80)
            || (|t| == 2 && 0xC2 <= t[0] <= 0xDF && 0x80 <= t[1] <= 0xBF && (t[0] - 0xC0) * 64 + (t[1] - 0x80) == c)
  {
  }

  // ----- what each construct at the front of the input takes

  /** Bytes up to, not including, the next newline. */
  function ToLineEnd(s: seq<byte>, i: nat): (e: nat)
    requires i <= |s|
    ensures i <= e <= |s|
    decreases |s| - i
  {
    if i < |s| && s[i] != NL then ToLineEnd(s, i + 1) else i
  }

  function IdentEnd(s: seq<byte>, i: nat): (e: nat)
    requires i <= |s|
    ensures i <= e <= |s|
    decreases |s| - i
  {
    if i < |s| && IsIdent(s[i]) then IdentEnd(s, i + 1) else i
  }

  /** Where the search for the end of a block comment stops, and the lines it crosses. */
  function CommentEnd(s: seq<byte>, i: nat): (r: (nat, nat))
    ensures i <= r.0
    decreases |s| - i
  {
    if i + 1 < |s| && !(s[i] == STAR && s[i + 1] == SLASH) then
      var (e, n) := CommentEnd(s, i + 1);
      (e, n + if s[i] == NL then 1 else 0)
    else (i, 0)
  }

  function StartsWith(s: seq<byte>, i: nat, p: seq<byte>): bool {
    i + |p| <= |s| && s[i..i + |p|] == p
  }

  datatype Scan = Closed(text: seq<byte>, end: nat, line: nat) | Open(line: nat)

  /** The rest of a string from offset `i` up to its closing quote at `end`. */
  function StringEnd(s: seq<byte>, quote: seq<byte>, i: nat, line: nat): (r: Scan)
    requires quote != []
    ensures r.Closed? ==> i <= r.end && r.end + |quote| <= |s|
    decreases |s| - i
  {
    if i >= |s| then Open(line)
    else if s[i] == BACKSLASH && i + 1 < |s| && |quote| == 1 then
      Put(Unescape(s[i + 1]), StringEnd(s, quote, i + 2, line))
    else if StartsWith(s, i, quote) then Closed([], i, line)
    else Put(s[i], StringEnd(s, quote, i + 1, if s[i] == NL then line + 1 else line))
  }

  function Put(b: byte, r: Scan): Scan {
    if r.Closed? then r.(text := [b] + r.text) else r
  }

  function QuoteOf(s: seq<byte>, i: nat): (q: seq<byte>)
    requires i < |s|
    ensures 1 <= |q| && i + |q| <= |s|
  {
    if StartsWith(s, i, [s[i], s[i], s[i]]) then [s[i], s[i], s[i]] else [s[i]]
  }

  function Add(t: Token, rest: Lexed): Lexed {
    if rest.Tokens? then Tokens([t] + rest.toks) else rest
  }

  /** What the construct at offset `i` amounts to, and where the next one starts. */
  datatype Step =
    | Skip(next: nat, line: nat)
    | Emit(tok: Token, next: nat, line: nat)
    | Fail(line: nat)

  function LexStep(s: seq<byte>, i: nat, line: nat): (r: Step)
    requires i < |s|
    ensures !r.Fail? ==> r.next > i
  {
    var c := s[i];
    if c == NL then Skip(i + 1, line + 1)
    else if IsBlank(c) then Skip(i + 1, line)
    else if StartsWith(s, i, [SLASH, SLASH]) then Skip(ToLineEnd(s, i + 2), line)
    else if StartsWith(s, i, [SLASH, STAR]) then
      var (e, n) := CommentEnd(s, i + 2);
      Skip(e + 2, line + n)
    else if IsQuote(c) then
      var q := QuoteOf(s, i);
      match StringEnd(s, q, i + |q|, line)
      case Open(l) => Fail(l)
      case Closed(text, e, l) => Emit(Token(Str, text, l), e + |q|, l)
    else if IsIdent(c) then
      var e := IdentEnd(s, i + 1);
      Emit(Token(Ident, s[i..e], line), e, line)
    else Emit(Token(Punct, PunctText(c), line), i + 1, line)
  }

  /** The tokens of `s` from offset `i` on. */
  function Lex(s: seq<byte>, i: nat, line: nat): Lexed
    decreases |s| - i
  {
    if i >= |s| then Tokens([])
    else match LexStep(s, i, line)
      case Skip(next, l) => Lex(s, next, l)
      case Emit(t, next, l) => Add(t, Lex(s, next, l))
      case Fail(l) => Unterminated(l)
  }

  // ----- the tokenizer

  /** A string literal that opens at `i`. */
  method ScanString(s: seq<byte>, quote: seq<byte>, i: nat, line: nat) returns (r: Scan)
    requires quote != []
    ensures r == StringEnd(s, quote, i, line)
  {
    var text, end, l := [], i, line;
    ghost var whole := StringEnd(s, quote, i, line);
    while true
      invariant whole == Prepended(text, StringEnd(s, quote, end, l))
      decreases |s| - end
    {
      if end >= |s| { return Open(l); }
      if s[end] == BACKSLASH && end + 1 < |s| && |quote| == 1 {
        PrependPut(text, Unescape(s[end + 1]), StringEnd(s, quote, end + 2, l));
        text := text + [Unescape(s[end + 1])];
        end := end + 2;
      } else {
        if StartsWith(s, end, quote) { return Closed(text, end, l); }
        ghost var l' := if s[end] == NL then l + 1 else l;
        PrependPut(text, s[end], StringEnd(s, quote, end + 1, l'));
        if s[end] == NL { l := l + 1; }
        text := text + [s[end]];
        end := end + 1;
      }
    }
  }

  ghost function Prepended(text: seq<byte>, r: Scan): Scan {
    if r.Closed? then r.(text := text + r.text) else r
  }

  lemma PrependPut(text: seq<byte>, b: byte, r: Scan)
    ensures Prepended(text, Put(b, r)) == Prepended(text + [b], r)
  {
    if r.Closed? { assert text + ([b] + r.text) == text + [b] + r.text; }
  }

  ghost function After(toks: seq<Token>, rest: Lexed): Lexed {
    if rest.Tokens? then Tokens(toks + rest.toks) else rest
  }

  lemma AfterAdd(toks: seq<Token>, t: Token, rest: Lexed)
    ensures After(toks, Add(t, rest)) == After(toks + [t], rest)
  {
    if rest.Tokens? { assert toks + ([t] + rest.toks) == toks + [t] + rest.toks; }
  }

  method GvLex(src: seq<byte>) returns (r: Lexed)
    ensures r == Lex(src, 0, 1)
  {
    hide LexStep;
    var toks, line, i := [], 1, 0;
    while i < |src|
      invariant Lex(src, 0, 1) == After(toks, Lex(src, i, line))
      decreases |src| - i
    {
      var step := NextToken(src, i, line);
      match step {
        case Skip(next, l) =>
          i, line := next, l;
        case Emit(t, next, l) =>
          AfterAdd(toks, t, Lex(src, next, l));
          toks := toks + [t];
          i, line := next, l;
        case Fail(l) =>
          return Unterminated(l);
      }
    }
    r := Tokens(toks);
  }

  method NextToken(src: seq<byte>, i: nat, line: nat) returns (r: Step)
    requires i < |src|
    ensures r == LexStep(src, i, line)
  {
    var c := src[i];
    if c == NL {
      r := Skip(i + 1, line + 1);
    } else if IsBlank(c) {
      r := Skip(i + 1, line);
    } else if StartsWith(src, i, [SLASH, SLASH]) {
      var e := SkipLine(src, i + 2);
      r := Skip(e, line);
    } else if StartsWith(src, i, [SLASH, STAR]) {
      var e, n := SkipComment(src, i + 2);
      r := Skip(e + 2, line + n);
    } else if IsQuote(c) {
      var q := QuoteOf(src, i);
      var scan := ScanString(src, q, i + |q|, line);
      r := match scan
        case Open(l) => Fail(l)
        case Closed(text, e, l) => Emit(Token(Str, text, l), e + |q|, l);
    } else if IsIdent(c) {
      var j := SkipIdent(src, i + 1);
      r := Emit(Token(Ident, src[i..j], line), j, line);
    } else {
      r := Emit(Token(Punct, PunctText(c), line), i + 1, line);
    }
  }

  method SkipLine(s: seq<byte>, i: nat) returns (e: nat)
    requires i <= |s|
    ensures e == ToLineEnd(s, i)
  {
    e := i;
    while e < |s| && s[e] != NL
      invariant i <= e <= |s| && ToLineEnd(s, e) == ToLineEnd(s, i)
    {
      e := e + 1;
    }
  }

  method SkipIdent(s: seq<byte>, i: nat) returns (e: nat)
    requires i <= |s|
    ensures e == IdentEnd(s, i)
  {
    e := i;
    while e < |s| && IsIdent(s[e])
      invariant i <= e <= |s| && IdentEnd(s, e) == IdentEnd(s, i)
    {
      e := e + 1;
    }
  }

  method SkipComment(s: seq<byte>, i: nat) returns (e: nat, n: nat)
    ensures (e, n) == CommentEnd(s, i)
  {
    e, n := i, 0;
    while e + 1 < |s| && !(s[e] == STAR && s[e + 1] == SLASH)
      invariant CommentEnd(s, i).0 == CommentEnd(s, e).0
      invariant CommentEnd(s, i).1 == n + CommentEnd(s, e).1
      decreases |s| - e
    {
      if s[e] == NL { n := n + 1; }
      e := e + 1;
    }
  }

  // ----- what stands at an offset, and one round of the tokenizer

  lemma SplitStart(s: seq<byte>, i: nat, a: seq<byte>, b: seq<byte>)
    requires StartsWith(s, i, a + b)
    ensures StartsWith(s, i, a) && StartsWith(s, i + |a|, b)
  {
    assert s[i..i + |a + b|][..|a|] == a;
    assert s[i..i + |a + b|][|a|..] == b;
  }

  lemma FirstByte(s: seq<byte>, i: nat, a: seq<byte>)
    requires StartsWith(s, i, a) && a != []
    ensures i < |s| && s[i] == a[0]
  {
    assert s[i..i + |a|][0] == a[0];
  }

  lemma NoComment(s: seq<byte>, i: nat)
    requires i < |s| && s[i] != SLASH
    ensures !StartsWith(s, i, [SLASH, SLASH]) && !StartsWith(s, i, [SLASH, STAR])
  {
    if i + 2 <= |s| { assert s[i..i + 2][0] == s[i]; }
  }

  lemma LexSkips(s: seq<byte>, i: nat, line: nat, next: nat, l: nat)
    requires i < |s| && LexStep(s, i, line) == Skip(next, l)
    ensures Lex(s, i, line) == Lex(s, next, l)
  {
  }

  lemma LexEmits(s: seq<byte>, i: nat, line: nat, t: Token, next: nat, l: nat)
    requires i < |s| && LexStep(s, i, line) == Emit(t, next, l)
    ensures Lex(s, i, line) == Add(t, Lex(s, next, l))
  {
  }
}
