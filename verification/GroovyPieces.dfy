/** The tokenizer against a grammar: every source that it accepts has one reading into blanks, comments, strings,
    words and marks, and the tokens, with their lines, are read off that. */
module GroovyPieces {
  import opened Streams
  import opened GroovyLexer

  datatype Piece =
    | Blank(b: byte)
    | LineComment(body: seq<byte>)
    | BlockComment(body: seq<byte>, closed: bool)
    | Text(quote: seq<byte>, raw: seq<byte>)
    | Name(word: seq<byte>)
    | Mark(b: byte)

  const LINE_COMMENT: seq<byte> := [SLASH, SLASH]
  const COMMENT_OPEN: seq<byte> := [SLASH, STAR]
  const COMMENT_CLOSE: seq<byte> := [STAR, SLASH]

  /** The source text of a piece. */
  function Source(p: Piece): seq<byte> {
    match p
    case Blank(b) => [b]
    case LineComment(body) => LINE_COMMENT + body
    case BlockComment(body, closed) => COMMENT_OPEN + (body + if closed then COMMENT_CLOSE else [])
    case Text(quote, raw) => quote + (raw + quote)
    case Name(word) => word
    case Mark(b) => [b]
  }

  // ----- what may stand between quotes

  /** Between single quote characters: a backslash takes the next byte with it, and no other byte is the quote. */
  predicate SingleRaw(raw: seq<byte>, q: byte) {
    raw == []
    || (raw[0] == BACKSLASH && |raw| >= 2 && SingleRaw(raw[2..], q))
    || (raw[0] != BACKSLASH && raw[0] != q && SingleRaw(raw[1..], q))
  }

  /** Between triple quotes: no earlier triple quote, not even one that overlaps the closing one. */
  predicate TripleRaw(raw: seq<byte>, quote: seq<byte>) {
    raw == [] || (!(quote <= raw + quote) && TripleRaw(raw[1..], quote))
  }

  predicate IsRaw(raw: seq<byte>, quote: seq<byte>)
    requires quote != []
  {
    if |quote| == 1 then SingleRaw(raw, quote[0]) else TripleRaw(raw, quote)
  }

  function Unescaped(raw: seq<byte>): seq<byte> {
    if raw == [] then []
    else if raw[0] == BACKSLASH && |raw| >= 2 then [Unescape(raw[1])] + Unescaped(raw[2..])
    else [raw[0]] + Unescaped(raw[1..])
  }

  function TextOf(raw: seq<byte>, quote: seq<byte>): seq<byte> { if |quote| == 1 then Unescaped(raw) else raw }

  function Newlines(s: seq<byte>): nat {
    if s == [] then 0 else (if s[0] == NL then 1 else 0) + Newlines(s[1..])
  }

  /** The newlines of a string between single quote characters: the ones that count, and the ones that a backslash
      takes with it. */
  function Breaks(raw: seq<byte>): nat {
    if raw == [] then 0
    else if raw[0] == BACKSLASH && |raw| >= 2 then Breaks(raw[2..])
    else (if raw[0] == NL then 1 else 0) + Breaks(raw[1..])
  }

  function Escaped(raw: seq<byte>): nat {
    if raw == [] then 0
    else if raw[0] == BACKSLASH && |raw| >= 2 then (if raw[1] == NL then 1 else 0) + Escaped(raw[2..])
    else Escaped(raw[1..])
  }

  /** How many lines the tokenizer counts in a piece, and how many newlines it misses. */
  function Counted(p: Piece): nat {
    match p
    case Blank(b) => if b == NL then 1 else 0
    case BlockComment(body, _) => Newlines(body)
    case Text(quote, raw) => if |quote| == 1 then Breaks(raw) else Newlines(raw)
    case _ => 0
  }

  function Missed(p: Piece): nat { if p.Text? && |p.quote| == 1 then Escaped(p.raw) else 0 }

  // ----- pieces in their place

  /** The first close of a comment body is the one behind it. */
  ghost predicate NoClose(body: seq<byte>, rest: seq<byte>) {
    forall i :: 0 <= i < |body| ==> !StartsWith(body + rest, i, COMMENT_CLOSE)
  }

  predicate IsPlain(b: byte) { b != NL && !IsBlank(b) && !IsQuote(b) && !IsIdent(b) }

  ghost predicate IsQuoteMark(quote: seq<byte>) {
    exists q: byte :: IsQuote(q) && (quote == [q] || quote == [q, q, q])
  }

  /** `p` is how the source in front of `rest` is to be read. */
  ghost predicate Fits(p: Piece, rest: seq<byte>) {
    match p
    case Blank(b) => b == NL || IsBlank(b)
    case LineComment(body) => NL !in body && (rest != [] ==> rest[0] == NL)
    case BlockComment(body, closed) =>
      if closed then NoClose(body, COMMENT_CLOSE) else rest == [] && NoClose(body, [])
    case Text(quote, raw) =>
      && IsQuoteMark(quote) && IsRaw(raw, quote)
      && (|quote| == 1 ==> !StartsWith(Source(p) + rest, 0, quote + quote + quote))
    case Name(word) => word != [] && (forall b <- word :: IsIdent(b)) && (rest != [] ==> !IsIdent(rest[0]))
    case Mark(b) => IsPlain(b) && (b == SLASH && rest != [] ==> rest[0] != SLASH && rest[0] != STAR)
  }

  /** The pieces, one after the other, are the source. */
  ghost predicate Reads(pieces: seq<Piece>, s: seq<byte>) {
    if pieces == [] then s == []
    else Source(pieces[0]) <= s && Fits(pieces[0], s[|Source(pieces[0])|..]) && Reads(pieces[1..], s[|Source(pieces[0])|..])
  }

  function Sources(pieces: seq<Piece>): seq<byte> {
    if pieces == [] then [] else Source(pieces[0]) + Sources(pieces[1..])
  }

  lemma {:induction false} ReadsIsPartition(pieces: seq<Piece>, s: seq<byte>)
    requires Reads(pieces, s)
    ensures Sources(pieces) == s
    decreases |pieces|
  {
    hide Fits, Source;
    if pieces != [] {
      ReadsIsPartition(pieces[1..], s[|Source(pieces[0])|..]);
      assert s == Source(pieces[0]) + s[|Source(pieces[0])|..];
    }
  }

  // ----- the tokens of a reading

  predicate IsToken(p: Piece) { p.Text? || p.Name? || p.Mark? }

  function TokenOf(p: Piece, line: nat): Token
    requires IsToken(p)
  {
    match p
    case Text(quote, raw) => Token(Str, TextOf(raw, quote), line)
    case Name(word) => Token(Ident, word, line)
    case Mark(b) => Token(Punct, PunctText(b), line)
  }

  /** The tokens of a reading that starts on `line`; a string gets the line it ends on. */
  function TokensOf(pieces: seq<Piece>, line: nat): seq<Token> {
    if pieces == [] then []
    else
      var p, after := pieces[0], line + Counted(pieces[0]);
      (if IsToken(p) then [TokenOf(p, after)] else []) + TokensOf(pieces[1..], after)
  }

  // ----- what the scanning loops find

  lemma {:induction false} ToLineEndMeans(s: seq<byte>, i: nat)
    requires i <= |s|
    ensures var e := ToLineEnd(s, i); NL !in s[i..e] && (e < |s| ==> s[e] == NL)
    decreases |s| - i
  {
    if i < |s| && s[i] != NL {
      ToLineEndMeans(s, i + 1);
      assert s[i..ToLineEnd(s, i)] == [s[i]] + s[i + 1..ToLineEnd(s, i)];
    }
  }

  lemma {:induction false} IdentEndMeans(s: seq<byte>, i: nat)
    requires i <= |s|
    ensures var e := IdentEnd(s, i); (forall k :: i <= k < e ==> IsIdent(s[k])) && (e < |s| ==> !IsIdent(s[e]))
    decreases |s| - i
  {
    if i < |s| && IsIdent(s[i]) { IdentEndMeans(s, i + 1); }
  }

  lemma {:induction false} CommentEndMeans(s: seq<byte>, i: nat)
    requires i <= |s|
    ensures var (e, n) := CommentEnd(s, i);
            && (forall j :: i <= j < e ==> !StartsWith(s, j, COMMENT_CLOSE))
            && (if e + 1 < |s| then StartsWith(s, e, COMMENT_CLOSE) && n == Newlines(s[i..e]) else |s| <= e + 1)
    decreases |s| - i
  {
    if i + 1 < |s| {
      CloseIs(s, i);
      if !StartsWith(s, i, COMMENT_CLOSE) {
        CommentEndMeans(s, i + 1);
        var e := CommentEnd(s, i + 1).0;
        if e + 1 < |s| { NewlinesCons(s, i, e); }
      } else {
        assert s[i..i] == [];
      }
    }
  }

  lemma CloseIs(s: seq<byte>, i: nat)
    requires i + 1 < |s|
    ensures StartsWith(s, i, COMMENT_CLOSE) <==> s[i] == STAR && s[i + 1] == SLASH
  {
    var t := s[i..i + 2];
    assert t[0] == s[i] && t[1] == s[i + 1];
  }

  lemma NewlinesCons(s: seq<byte>, i: nat, e: nat)
    requires i < e <= |s|
    ensures Newlines(s[i..e]) == (if s[i] == NL then 1 else 0) + Newlines(s[i + 1..e])
  {
    assert s[i..e][1..] == s[i + 1..e];
  }

  // ----- strings

  lemma {:induction false} SingleMeans(s: seq<byte>, q: byte, i: nat, line: nat)
    requires i <= |s| && IsQuote(q) && StringEnd(s, [q], i, line).Closed?
    ensures var r := StringEnd(s, [q], i, line);
            && i <= r.end < |s| && s[r.end] == q && SingleRaw(s[i..r.end], q)
            && r.text == Unescaped(s[i..r.end]) && r.line == line + Breaks(s[i..r.end])
    decreases |s| - i
  {
    QuoteIs(s, i, q);
    if i < |s| {
      if s[i] == BACKSLASH && i + 1 < |s| {
        SingleMeans(s, q, i + 2, line);
        var raw := s[i..StringEnd(s, [q], i, line).end];
        assert raw[2..] == s[i + 2..StringEnd(s, [q], i, line).end];
      } else if s[i] == q {
        assert s[i..i] == [];
      } else {
        var l := if s[i] == NL then line + 1 else line;
        SingleMeans(s, q, i + 1, l);
        var raw := s[i..StringEnd(s, [q], i, line).end];
        assert raw[1..] == s[i + 1..StringEnd(s, [q], i, line).end];
      }
    }
  }

  lemma QuoteIs(s: seq<byte>, i: nat, q: byte)
    ensures StartsWith(s, i, [q]) <==> i < |s| && s[i] == q
  {
    if i < |s| { assert s[i..i + 1] == [s[i]]; }
  }

  /** How many bytes of a raw string make one byte of text, and what becomes of them. */
  lemma SingleStep(raw: seq<byte>, q: byte)
    requires raw != [] && SingleRaw(raw, q)
    ensures raw[0] == BACKSLASH ==>
              && |raw| >= 2 && SingleRaw(raw[2..], q) && Breaks(raw) == Breaks(raw[2..])
              && Unescaped(raw) == [Unescape(raw[1])] + Unescaped(raw[2..])
    ensures raw[0] != BACKSLASH ==>
              && raw[0] != q && SingleRaw(raw[1..], q) && Unescaped(raw) == [raw[0]] + Unescaped(raw[1..])
              && Breaks(raw) == (if raw[0] == NL then 1 else 0) + Breaks(raw[1..])
  {
  }

  lemma {:induction false} SingleEnds(s: seq<byte>, q: byte, i: nat, line: nat, raw: seq<byte>)
    requires i + |raw| < |s| && s[i..i + |raw|] == raw && s[i + |raw|] == q && IsQuote(q) && SingleRaw(raw, q)
    ensures StringEnd(s, [q], i, line) == Closed(Unescaped(raw), i + |raw|, line + Breaks(raw))
    decreases |raw|
  {
    hide SingleRaw, Unescaped, Breaks, StartsWith;
    QuoteIs(s, i, q);
    if raw == [] {
      NothingRaw();
    } else {
      SingleStep(raw, q);
      assert raw[0] == s[i];
      if raw[0] == BACKSLASH {
        assert raw[1] == s[i + 1] && s[i + 2..i + |raw|] == raw[2..];
        SingleEnds(s, q, i + 2, line, raw[2..]);
      } else {
        assert s[i + 1..i + |raw|] == raw[1..];
        SingleEnds(s, q, i + 1, if s[i] == NL then line + 1 else line, raw[1..]);
      }
    }
  }

  lemma NothingRaw()
    ensures Unescaped([]) == [] && Breaks([]) == 0
  {
  }

  lemma FrontIs(s: seq<byte>, i: nat, e: nat, p: seq<byte>)
    requires i + |p| <= e <= |s|
    ensures p <= s[i..e] <==> StartsWith(s, i, p)
  {
    assert s[i..e][..|p|] == s[i..i + |p|];
  }

  lemma TripleCons(s: seq<byte>, quote: seq<byte>, i: nat, e: nat)
    requires |quote| == 3 && i < e && StartsWith(s, e, quote)
    ensures TripleRaw(s[i..e], quote) <==> !StartsWith(s, i, quote) && TripleRaw(s[i + 1..e], quote)
    ensures s[i..e] == [s[i]] + s[i + 1..e]
  {
    var raw := s[i..e];
    assert raw[1..] == s[i + 1..e];
    assert raw + quote == s[i..e + 3];
    FrontIs(s, i, e + 3, quote);
  }

  lemma {:induction false} TripleMeans(s: seq<byte>, quote: seq<byte>, i: nat, line: nat)
    requires i <= |s| && |quote| == 3 && StringEnd(s, quote, i, line).Closed?
    ensures var r := StringEnd(s, quote, i, line);
            && i <= r.end && StartsWith(s, r.end, quote) && TripleRaw(s[i..r.end], quote)
            && r.text == s[i..r.end] && r.line == line + Newlines(s[i..r.end])
    decreases |s| - i
  {
    hide StartsWith, TripleRaw, Newlines;
    if StartsWith(s, i, quote) {
      assert s[i..i] == [];
      NothingBetween(quote);
    } else {
      TripleMeans(s, quote, i + 1, if s[i] == NL then line + 1 else line);
      var e := StringEnd(s, quote, i, line).end;
      StartsInside(s, e, quote);
      NewlinesCons(s, i, e);
      TripleCons(s, quote, i, e);
    }
  }

  lemma NothingBetween(quote: seq<byte>)
    ensures TripleRaw([], quote) && Newlines([]) == 0
  {
  }

  lemma StartsInside(s: seq<byte>, e: nat, p: seq<byte>)
    requires StartsWith(s, e, p)
    ensures e + |p| <= |s|
  {
  }

  lemma {:induction false} TripleEnds(s: seq<byte>, quote: seq<byte>, i: nat, line: nat, raw: seq<byte>)
    requires |quote| == 3 && i + |raw| <= |s| && s[i..i + |raw|] == raw && StartsWith(s, i + |raw|, quote)
    requires TripleRaw(raw, quote)
    ensures StringEnd(s, quote, i, line) == Closed(raw, i + |raw|, line + Newlines(raw))
    decreases |raw|
  {
    hide TripleRaw, StartsWith, Newlines;
    var e := i + |raw|;
    StartsInside(s, e, quote);
    if raw == [] {
      NothingBetween(quote);
    } else {
      TripleCons(s, quote, i, e);
      NewlinesCons(s, i, e);
      assert s[i + 1..e] == raw[1..];
      TripleEnds(s, quote, i + 1, if s[i] == NL then line + 1 else line, raw[1..]);
    }
  }

  // ----- one round of the tokenizer is one piece

  /** `step` takes the piece `p` at offset `i`; behind an unterminated comment it may overshoot the end. */
  ghost predicate Takes(step: Step, s: seq<byte>, p: Piece, i: nat, line: nat) {
    var next, after := i + |Source(p)|, line + Counted(p);
    if IsToken(p) then step == Emit(TokenOf(p, after), next, after)
    else step == Skip(next, after) || (step.Skip? && next == |s| <= step.next)
  }

  /** The piece `p` stands at offset `i`, and is to be read there. */
  ghost predicate StandsAt(s: seq<byte>, i: nat, p: Piece) {
    StartsWith(s, i, Source(p)) && Fits(p, s[i + |Source(p)|..])
  }

  lemma LineCommentStep(s: seq<byte>, i: nat, line: nat)
    requires StartsWith(s, i, LINE_COMMENT)
    ensures i + 2 <= |s| && LexStep(s, i, line) == Skip(ToLineEnd(s, i + 2), line)
  {
    hide ToLineEnd, CommentEnd, StringEnd, IdentEnd;
    FirstByte(s, i, LINE_COMMENT);
  }

  lemma LineCommentEnds(s: seq<byte>, i: nat, body: seq<byte>)
    requires StartsWith(s, i, body) && NL !in body && (i + |body| < |s| ==> s[i + |body|] == NL)
    ensures i <= |s| && ToLineEnd(s, i) == i + |body|
  {
    hide ToLineEnd, StartsWith;
    BodyIs(s, i, body);
    ToLineEndMeans(s, i);
    SameLineEnd(s, i, ToLineEnd(s, i), i + |body|);
  }

  lemma TakesLineComment(s: seq<byte>, i: nat, line: nat, body: seq<byte>)
    requires StandsAt(s, i, LineComment(body))
    ensures i < |s| && Takes(LexStep(s, i, line), s, LineComment(body), i, line)
  {
    hide LexStep, ToLineEnd, StartsWith;
    SplitStart(s, i, LINE_COMMENT, body);
    LineCommentStep(s, i, line);
    var f := i + 2 + |body|;
    if f < |s| { assert s[f..][0] == s[f]; }
    LineCommentEnds(s, i + 2, body);
  }

  lemma SameLineEnd(s: seq<byte>, i: nat, e: nat, f: nat)
    requires i <= e <= |s| && i <= f <= |s| && NL !in s[i..e] && NL !in s[i..f]
    requires (e < |s| ==> s[e] == NL) && (f < |s| ==> s[f] == NL)
    ensures e == f
  {
    if e < f { NewlineInside(s, i, e, f); } else if f < e { NewlineInside(s, i, f, e); }
  }

  lemma NewlineInside(s: seq<byte>, i: nat, e: nat, f: nat)
    requires i <= e < f <= |s| && s[e] == NL
    ensures NL in s[i..f]
  {
    assert s[i..f][e - i] == s[e];
  }

  lemma CommentStep(s: seq<byte>, i: nat, line: nat)
    requires StartsWith(s, i, COMMENT_OPEN)
    ensures i + 2 <= |s| && i < |s|
    ensures var (e, n) := CommentEnd(s, i + 2); LexStep(s, i, line) == Skip(e + 2, line + n)
  {
    hide ToLineEnd, CommentEnd, StringEnd, IdentEnd;
    OpensComment(s, i);
  }

  lemma TakesBlockComment(s: seq<byte>, i: nat, line: nat, body: seq<byte>, closed: bool)
    requires StandsAt(s, i, BlockComment(body, closed))
    ensures i < |s| && Takes(LexStep(s, i, line), s, BlockComment(body, closed), i, line)
  {
    hide LexStep, CommentEnd, NoClose, Newlines, StartsWith;
    var end: seq<byte> := if closed then COMMENT_CLOSE else [];
    SplitStart(s, i, COMMENT_OPEN, body + end);
    SplitStart(s, i + 2, body, end);
    StartsInside(s, i + 2, body + end);
    CommentStep(s, i, line);
    CommentEndMeans(s, i + 2);
    CloseStandsFirst(s, i + 2, body, end);
    var e := CommentEnd(s, i + 2).0;
    if closed { BodyIs(s, i + 2, body); }
  }

  lemma BodyIs(s: seq<byte>, i: nat, body: seq<byte>)
    requires StartsWith(s, i, body)
    ensures i + |body| <= |s| && s[i..i + |body|] == body
  {
  }

  lemma OpensComment(s: seq<byte>, i: nat)
    requires StartsWith(s, i, COMMENT_OPEN)
    ensures s[i] == SLASH && !StartsWith(s, i, LINE_COMMENT)
  {
    var t := s[i..i + 2];
    assert t[0] == s[i] && t[1] == STAR;
  }

  lemma CloseStandsFirst(s: seq<byte>, i: nat, body: seq<byte>, end: seq<byte>)
    requires StartsWith(s, i, body + end) && NoClose(body, end)
    ensures forall j :: i <= j < i + |body| && j + 2 <= i + |body + end| ==> !StartsWith(s, j, COMMENT_CLOSE)
  {
    hide StartsWith;
    var t := body + end;
    BodyIs(s, i, t);
    forall j | i <= j < i + |body| && j + 2 <= i + |t| ensures !StartsWith(s, j, COMMENT_CLOSE) {
      assert !StartsWith(t, j - i, COMMENT_CLOSE);
      CloseIs(t, j - i);
      CloseIs(s, j);
      assert t[j - i] == s[j] && t[j - i + 1] == s[j + 1];
    }
  }

  lemma SuffixIs(s: seq<byte>, i: nat, p: seq<byte>)
    requires StartsWith(s, i, p)
    ensures p + s[i + |p|..] == s[i..] && p <= s[i..]
  {
    assert s[i..i + |p|] == p;
  }

  lemma SuffixStarts(s: seq<byte>, i: nat, p: seq<byte>)
    requires i <= |s|
    ensures StartsWith(s[i..], 0, p) <==> StartsWith(s, i, p)
  {
    if i + |p| <= |s| { assert s[i..][0..|p|] == s[i..i + |p|]; }
  }

  lemma TakesBlank(s: seq<byte>, i: nat, line: nat, b: byte)
    requires StandsAt(s, i, Blank(b))
    ensures i < |s| && Takes(LexStep(s, i, line), s, Blank(b), i, line)
  {
    hide ToLineEnd, CommentEnd, StringEnd, IdentEnd;
    FirstByte(s, i, [b]);
  }

  lemma TakesMark(s: seq<byte>, i: nat, line: nat, b: byte)
    requires StandsAt(s, i, Mark(b))
    ensures i < |s| && Takes(LexStep(s, i, line), s, Mark(b), i, line)
  {
    hide ToLineEnd, CommentEnd, StringEnd, IdentEnd;
    FirstByte(s, i, [b]);
    SecondByte(s, i, SLASH);
    SecondByte(s, i, STAR);
    if i + 1 < |s| { assert s[i + 1..][0] == s[i + 1]; }
  }

  lemma SecondByte(s: seq<byte>, i: nat, b: byte)
    ensures StartsWith(s, i, [SLASH, b]) <==> i + 1 < |s| && s[i] == SLASH && s[i + 1] == b
  {
    if i + 2 <= |s| {
      var t := s[i..i + 2];
      assert t[0] == s[i] && t[1] == s[i + 1];
    }
  }

  lemma NameStep(s: seq<byte>, i: nat, line: nat)
    requires i < |s| && IsIdent(s[i])
    ensures var e := IdentEnd(s, i + 1); LexStep(s, i, line) == Emit(Token(Ident, s[i..e], line), e, line)
  {
    hide ToLineEnd, CommentEnd, StringEnd, IdentEnd;
    NoComment(s, i);
  }

  lemma TakesName(s: seq<byte>, i: nat, line: nat, word: seq<byte>)
    requires StandsAt(s, i, Name(word))
    ensures i < |s| && Takes(LexStep(s, i, line), s, Name(word), i, line)
  {
    hide LexStep, IdentEnd, IsIdent, StartsWith;
    FirstByte(s, i, word);
    BodyIs(s, i, word);
    assert word[0] in word;
    NameStep(s, i, line);
    IdentEndMeans(s, i + 1);
    var e, f := IdentEnd(s, i + 1), i + |word|;
    forall k | i <= k < f ensures IsIdent(s[k]) { assert s[k] == word[k - i] && word[k - i] in word; }
    if f < |s| { assert s[f..][0] == s[f]; }
    assert e == f;
  }

  lemma QuoteStep(s: seq<byte>, i: nat, line: nat)
    requires i < |s| && IsQuote(s[i])
    ensures var q := QuoteOf(s, i);
            LexStep(s, i, line) == match StringEnd(s, q, i + |q|, line)
                                   case Open(l) => Fail(l)
                                   case Closed(text, e, l) => Emit(Token(Str, text, l), e + |q|, l)
  {
    hide ToLineEnd, CommentEnd, StringEnd, IdentEnd;
    NoComment(s, i);
  }

  lemma QuoteOfIs(s: seq<byte>, i: nat, quote: seq<byte>, q: byte)
    requires StartsWith(s, i, quote) && (quote == [q, q, q] || (quote == [q] && !StartsWith(s, i, [q, q, q])))
    ensures i < |s| && s[i] == q && QuoteOf(s, i) == quote
  {
    FirstByte(s, i, quote);
  }

  lemma RawStands(s: seq<byte>, i: nat, quote: seq<byte>, raw: seq<byte>)
    requires StartsWith(s, i, quote + (raw + quote))
    ensures i + |quote| + |raw| + |quote| <= |s| && s[i + |quote|..i + |quote| + |raw|] == raw
    ensures StartsWith(s, i, quote) && StartsWith(s, i + |quote| + |raw|, quote)
    ensures quote + (raw + quote) + s[i + |quote + (raw + quote)|..] == s[i..]
  {
    hide StartsWith;
    SuffixIs(s, i, quote + (raw + quote));
    SplitStart(s, i, quote, raw + quote);
    SplitStart(s, i + |quote|, raw, quote);
    BodyIs(s, i + |quote|, raw);
    StartsInside(s, i + |quote| + |raw|, quote);
  }

  /** A string in its place: its quotes and what is between them. */
  lemma TextParts(s: seq<byte>, i: nat, quote: seq<byte>, raw: seq<byte>)
    requires StandsAt(s, i, Text(quote, raw))
    ensures i < |s| && IsQuote(s[i]) && QuoteOf(s, i) == quote && (quote == [s[i]] || |quote| == 3)
    ensures i + |quote| + |raw| + |quote| <= |s| && s[i + |quote|..i + |quote| + |raw|] == raw
    ensures StartsWith(s, i + |quote| + |raw|, quote)
  {
    hide IsRaw, StartsWith, QuoteOf, IsQuote;
    var q :| IsQuote(q) && (quote == [q] || quote == [q, q, q]);
    RawStands(s, i, quote, raw);
    SuffixStarts(s, i, [q, q, q]);
    if |quote| == 1 { assert quote + quote + quote == [q, q, q]; }
    QuoteOfIs(s, i, quote, q);
  }

  lemma TextIsRaw(s: seq<byte>, i: nat, quote: seq<byte>, raw: seq<byte>)
    requires StandsAt(s, i, Text(quote, raw))
    ensures quote != [] && IsRaw(raw, quote)
  {
    hide StartsWith, IsRaw;
  }

  lemma TakesSingle(s: seq<byte>, i: nat, line: nat, q: byte, raw: seq<byte>)
    requires StandsAt(s, i, Text([q], raw))
    ensures i < |s|
    ensures LexStep(s, i, line) == Emit(Token(Str, Unescaped(raw), line + Breaks(raw)), i + |raw| + 2, line + Breaks(raw))
  {
    hide LexStep, StringEnd, StartsWith, SingleRaw, TripleRaw, Unescaped, Breaks, Newlines, QuoteOf, StandsAt, IsQuote;
    TextParts(s, i, [q], raw);
    TextIsRaw(s, i, [q], raw);
    QuoteStep(s, i, line);
    QuoteIs(s, i + 1 + |raw|, q);
    SingleEnds(s, q, i + 1, line, raw);
  }

  lemma TakesTriple(s: seq<byte>, i: nat, line: nat, quote: seq<byte>, raw: seq<byte>)
    requires StandsAt(s, i, Text(quote, raw)) && |quote| == 3
    ensures i < |s|
    ensures LexStep(s, i, line) == Emit(Token(Str, raw, line + Newlines(raw)), i + |raw| + 6, line + Newlines(raw))
  {
    hide LexStep, StringEnd, StartsWith, SingleRaw, TripleRaw, Unescaped, Breaks, Newlines, QuoteOf, StandsAt, IsQuote;
    TextParts(s, i, quote, raw);
    TextIsRaw(s, i, quote, raw);
    QuoteStep(s, i, line);
    TripleEnds(s, quote, i + 3, line, raw);
  }

  lemma TakesText(s: seq<byte>, i: nat, line: nat, quote: seq<byte>, raw: seq<byte>)
    requires StandsAt(s, i, Text(quote, raw))
    ensures i < |s| && Takes(LexStep(s, i, line), s, Text(quote, raw), i, line)
  {
    hide LexStep, StartsWith, IsRaw, Unescaped, Breaks, Newlines;
    if |quote| == 1 {
      assert quote == [quote[0]];
      TakesSingle(s, i, line, quote[0], raw);
    } else {
      TakesTriple(s, i, line, quote, raw);
    }
  }

  lemma PieceIsTaken(s: seq<byte>, i: nat, line: nat, p: Piece)
    requires StandsAt(s, i, p)
    ensures i < |s| && Takes(LexStep(s, i, line), s, p, i, line)
  {
    hide LexStep, Takes, StandsAt;
    match p
    case Blank(b) => TakesBlank(s, i, line, b);
    case LineComment(body) => TakesLineComment(s, i, line, body);
    case BlockComment(body, closed) => TakesBlockComment(s, i, line, body, closed);
    case Text(quote, raw) => TakesText(s, i, line, quote, raw);
    case Name(word) => TakesName(s, i, line, word);
    case Mark(b) => TakesMark(s, i, line, b);
  }

  // ----- and every round that does not fail takes a piece

  lemma StandsIf(s: seq<byte>, i: nat, e: nat, p: Piece)
    requires i <= e <= |s| && s[i..e] == Source(p) && Fits(p, s[e..])
    ensures StandsAt(s, i, p)
  {
    hide Source, Fits;
  }

  lemma LineCommentStands(s: seq<byte>, i: nat) returns (p: Piece)
    requires StartsWith(s, i, LINE_COMMENT)
    ensures p.LineComment? && StandsAt(s, i, p)
  {
    hide ToLineEnd, StandsAt, StartsWith;
    BodyIs(s, i, LINE_COMMENT);
    ToLineEndMeans(s, i + 2);
    var e := ToLineEnd(s, i + 2);
    p := LineComment(s[i + 2..e]);
    assert s[i..e] == LINE_COMMENT + s[i + 2..e];
    if e < |s| { assert s[e..][0] == s[e]; }
    StandsIf(s, i, e, p);
  }

  lemma BlockCommentStands(s: seq<byte>, i: nat) returns (p: Piece)
    requires StartsWith(s, i, COMMENT_OPEN)
    ensures p.BlockComment? && StandsAt(s, i, p)
  {
    hide CommentEnd, StandsAt, StartsWith, NoClose;
    BodyIs(s, i, COMMENT_OPEN);
    CommentEndMeans(s, i + 2);
    var e := CommentEnd(s, i + 2).0;
    if e + 1 < |s| {
      p := BlockComment(s[i + 2..e], true);
      BodyIs(s, e, COMMENT_CLOSE);
      assert s[i..e + 2] == COMMENT_OPEN + (s[i + 2..e] + COMMENT_CLOSE);
      NoCloseIn(s, i + 2, e, COMMENT_CLOSE);
      StandsIf(s, i, e + 2, p);
    } else {
      p := BlockComment(s[i + 2..], false);
      assert s[i..|s|] == COMMENT_OPEN + (s[i + 2..] + []);
      assert s[|s|..] == [] && s[i + 2..] == s[i + 2..|s|];
      NoCloseIn(s, i + 2, |s|, []);
      StandsIf(s, i, |s|, p);
    }
  }

  lemma NoCloseIn(s: seq<byte>, i: nat, e: nat, end: seq<byte>)
    requires i <= e && e + |end| <= |s| && s[e..e + |end|] == end
    requires forall j :: i <= j < e && j + 2 <= e + |end| ==> !StartsWith(s, j, COMMENT_CLOSE)
    ensures NoClose(s[i..e], end)
  {
    var t := s[i..e] + end;
    assert t == s[i..e + |end|];
    forall k | 0 <= k < e - i ensures !StartsWith(t, k, COMMENT_CLOSE) {
      if k + 2 <= |t| {
        CloseIs(t, k);
        CloseIs(s, i + k);
        assert !StartsWith(s, i + k, COMMENT_CLOSE);
      }
    }
  }

  lemma AllIdent(s: seq<byte>, i: nat, e: nat)
    requires i <= e <= |s| && forall k :: i <= k < e ==> IsIdent(s[k])
    ensures forall b <- s[i..e] :: IsIdent(b)
  {
    hide IsIdent;
    forall b <- s[i..e] ensures IsIdent(b) {
      var k :| 0 <= k < e - i && s[i..e][k] == b;
      assert s[i + k] == b;
    }
  }

  lemma NameStands(s: seq<byte>, i: nat)
    requires i < |s| && IsIdent(s[i])
    ensures StandsAt(s, i, Name(s[i..IdentEnd(s, i + 1)]))
  {
    hide IdentEnd, IsIdent;
    IdentEndMeans(s, i + 1);
    var e := IdentEnd(s, i + 1);
    AllIdent(s, i, e);
    var word := s[i..e];
    assert |word| == e - i;
    if e < |s| { assert s[e..][0] == s[e]; }
  }

  /** The quotes are recognised as they stand. */
  lemma QuotedStands(s: seq<byte>, i: nat, quote: seq<byte>, e: nat)
    requires i < |s| && IsQuote(s[i]) && quote == QuoteOf(s, i) && i + |quote| <= e && StartsWith(s, e, quote)
    requires IsRaw(s[i + |quote|..e], quote)
    ensures StandsAt(s, i, Text(quote, s[i + |quote|..e]))
  {
    hide IsRaw, StartsWith, IsQuote;
    StartsInside(s, e, quote);
    var q, raw := s[i], s[i + |quote|..e];
    var p := Text(quote, raw);
    var end := e + |quote|;
    QuoteStands(s, i);
    BodyIs(s, e, quote);
    assert s[i..end] == quote + (raw + quote);
    assert Source(p) + s[end..] == s[i..];
    SuffixStarts(s, i, [q, q, q]);
    if |quote| == 1 { assert quote + quote + quote == [q, q, q]; }
    assert IsQuoteMark(quote);
    StandsIf(s, i, end, p);
  }

  lemma QuoteStands(s: seq<byte>, i: nat)
    requires i < |s|
    ensures var q, quote := s[i], QuoteOf(s, i);
            && i + |quote| <= |s| && s[i..i + |quote|] == quote
            && (quote == [q, q, q] || (quote == [q] && !StartsWith(s, i, [q, q, q])))
  {
  }

  lemma TextStands(s: seq<byte>, i: nat, line: nat) returns (p: Piece)
    requires i < |s| && IsQuote(s[i]) && !LexStep(s, i, line).Fail?
    ensures p.Text? && StandsAt(s, i, p)
  {
    hide LexStep, StringEnd, StartsWith, SingleRaw, TripleRaw, Unescaped, Breaks, Newlines, StandsAt;
    QuoteStep(s, i, line);
    var q, quote := s[i], QuoteOf(s, i);
    var e := StringEnd(s, quote, i + |quote|, line).end;
    if |quote| == 1 {
      SingleMeans(s, q, i + 1, line);
      QuoteIs(s, e, q);
    } else {
      TripleMeans(s, quote, i + 3, line);
    }
    StartsInside(s, e, quote);
    QuotedStands(s, i, quote, e);
    p := Text(quote, s[i + |quote|..e]);
  }

  lemma SomePieceStands(s: seq<byte>, i: nat, line: nat) returns (p: Piece)
    requires i < |s| && !LexStep(s, i, line).Fail?
    ensures StandsAt(s, i, p)
  {
    hide LexStep, ToLineEnd, IdentEnd;
    var b := s[i];
    if b == NL || IsBlank(b) {
      p := Blank(b);
      QuoteIs(s, i, b);
    } else if StartsWith(s, i, LINE_COMMENT) {
      p := LineCommentStands(s, i);
    } else if StartsWith(s, i, COMMENT_OPEN) {
      p := BlockCommentStands(s, i);
    } else if IsQuote(b) {
      p := TextStands(s, i, line);
    } else if IsIdent(b) {
      NameStands(s, i);
      p := Name(s[i..IdentEnd(s, i + 1)]);
    } else {
      p := Mark(b);
      QuoteIs(s, i, b);
      SecondByte(s, i, SLASH);
      SecondByte(s, i, STAR);
      if i + 1 < |s| { assert s[i + 1..][0] == s[i + 1]; }
    }
  }

  // ----- the whole source

  /** Whatever reading there is, the tokenizer yields its tokens. */
  lemma {:induction false} ReadingIsLexed(s: seq<byte>, i: nat, line: nat, pieces: seq<Piece>)
    requires i <= |s| && Reads(pieces, s[i..])
    ensures Lex(s, i, line) == Tokens(TokensOf(pieces, line))
    decreases |pieces|
  {
    hide LexStep, Fits, Counted, TokenOf, StandsAt;
    if pieces == [] {
      assert |s[i..]| == |s| - i;
    } else {
      var p := pieces[0];
      StandsInFront(s, i, p);
      PieceIsTaken(s, i, line, p);
      var next := i + |Source(p)|;
      assert s[i..][|Source(p)|..] == s[next..];
      ReadingIsLexed(s, next, line + Counted(p), pieces[1..]);
      PieceIsLexed(s, i, line, p, TokensOf(pieces[1..], line + Counted(p)));
    }
  }

  lemma StandsInFront(s: seq<byte>, i: nat, p: Piece)
    requires i <= |s|
    ensures StandsAt(s, i, p) <==> Source(p) <= s[i..] && Fits(p, s[i..][|Source(p)|..])
  {
    hide Fits, Source;
    SuffixStarts(s, i, Source(p));
    if i + |Source(p)| <= |s| {
      FrontIs(s, i, |s|, Source(p));
      assert s[i..|s|] == s[i..];
      assert s[i..][|Source(p)|..] == s[i + |Source(p)|..];
    }
  }

  lemma PieceIsLexed(s: seq<byte>, i: nat, line: nat, p: Piece, more: seq<Token>)
    requires i < |s| && StandsAt(s, i, p) && Takes(LexStep(s, i, line), s, p, i, line)
    requires Lex(s, i + |Source(p)|, line + Counted(p)) == Tokens(more)
    ensures Lex(s, i, line) == Tokens((if IsToken(p) then [TokenOf(p, line + Counted(p))] else []) + more)
  {
    hide LexStep, Fits, Counted, TokenOf, Source;
    var next, after := i + |Source(p)|, line + Counted(p);
    if IsToken(p) {
      LexEmits(s, i, line, TokenOf(p, after), next, after);
    } else {
      assert [] + more == more;
      var step := LexStep(s, i, line);
      LexSkips(s, i, line, step.next, step.line);
    }
  }

  /** And if the tokenizer accepts, there is a reading. */
  lemma {:induction false} LexedIsRead(s: seq<byte>, i: nat, line: nat) returns (pieces: seq<Piece>)
    requires i <= |s| && Lex(s, i, line).Tokens?
    ensures Reads(pieces, s[i..])
    decreases |s| - i
  {
    hide LexStep, Fits, Counted, TokenOf, StandsAt;
    if i == |s| {
      pieces := [];
    } else {
      NoFailure(s, i, line);
      var p := SomePieceStands(s, i, line);
      StandsInFront(s, i, p);
      PieceIsTaken(s, i, line, p);
      var next := i + |Source(p)|;
      RestIsLexed(s, i, line, p);
      var more := LexedIsRead(s, next, line + Counted(p));
      assert s[i..][|Source(p)|..] == s[next..];
      pieces := [p] + more;
      assert pieces[1..] == more;
    }
  }

  lemma NoFailure(s: seq<byte>, i: nat, line: nat)
    requires i < |s| && Lex(s, i, line).Tokens?
    ensures !LexStep(s, i, line).Fail?
  {
    hide LexStep;
  }

  lemma RestIsLexed(s: seq<byte>, i: nat, line: nat, p: Piece)
    requires i < |s| && Lex(s, i, line).Tokens? && StandsAt(s, i, p) && Takes(LexStep(s, i, line), s, p, i, line)
    ensures i < i + |Source(p)| <= |s| && Lex(s, i + |Source(p)|, line + Counted(p)).Tokens?
  {
    hide LexStep, Fits, Counted, TokenOf;
    SuffixIs(s, i, Source(p));
  }

  /** The tokenizer accepts exactly the sources that have a reading, and yields the tokens of any reading. */
  lemma TokensAreRead(s: seq<byte>)
    ensures Lex(s, 0, 1).Tokens? <==> exists pieces :: Reads(pieces, s)
    ensures forall pieces :: Reads(pieces, s) ==> Sources(pieces) == s && Lex(s, 0, 1) == Tokens(TokensOf(pieces, 1))
  {
    hide Lex, Reads;
    assert s[0..] == s;
    forall pieces | Reads(pieces, s) ensures Sources(pieces) == s && Lex(s, 0, 1) == Tokens(TokensOf(pieces, 1)) {
      ReadingIsLexed(s, 0, 1, pieces);
      ReadsIsPartition(pieces, s);
    }
    if Lex(s, 0, 1).Tokens? { var pieces := LexedIsRead(s, 0, 1); }
  }

  // ----- the lines

  lemma {:induction false} NewlinesAdd(a: seq<byte>, b: seq<byte>)
    ensures Newlines(a + b) == Newlines(a) + Newlines(b)
    decreases |a|
  {
    if a == [] {
      assert a + b == b;
    } else {
      assert (a + b)[1..] == a[1..] + b;
      NewlinesAdd(a[1..], b);
    }
  }

  lemma {:induction false} BreaksAndEscaped(raw: seq<byte>)
    ensures Breaks(raw) + Escaped(raw) == Newlines(raw)
    decreases |raw|
  {
    if raw != [] {
      if raw[0] == BACKSLASH && |raw| >= 2 {
        BreaksAndEscaped(raw[2..]);
        assert raw[1..][1..] == raw[2..] && raw[1..][0] == raw[1];
      } else {
        BreaksAndEscaped(raw[1..]);
      }
    }
  }

  lemma {:induction false} NoNewlines(s: seq<byte>)
    requires NL !in s
    ensures Newlines(s) == 0
  {
    if s != [] { NoNewlines(s[1..]); }
  }

  /** What is counted and what is missed are the newlines of a piece. */
  lemma CountedAndMissed(p: Piece, rest: seq<byte>)
    requires Fits(p, rest)
    ensures Counted(p) + Missed(p) == Newlines(Source(p))
  {
    hide Newlines, Breaks, Escaped, IsRaw, NoClose;
    match p
    case Blank(b) => OneByte(b);
    case LineComment(body) =>
      NoNewlines(LINE_COMMENT + body);
    case BlockComment(body, closed) =>
      var end: seq<byte> := if closed then COMMENT_CLOSE else [];
      NoNewlines(COMMENT_OPEN);
      NoNewlines(end);
      NewlinesAdd(COMMENT_OPEN, body + end);
      NewlinesAdd(body, end);
    case Text(quote, raw) =>
      QuotesHaveNoNewline(quote);
      NoNewlines(quote);
      NewlinesAdd(quote, raw + quote);
      NewlinesAdd(raw, quote);
      BreaksAndEscaped(raw);
    case Name(word) =>
      assert !IsIdent(NL);
      NoNewlines(word);
    case Mark(b) => OneByte(b);
  }

  lemma OneByte(b: byte)
    ensures Newlines([b]) == if b == NL then 1 else 0
  {
    assert [b][1..] == [];
  }

  lemma QuotesHaveNoNewline(quote: seq<byte>)
    requires IsQuoteMark(quote)
    ensures NL !in quote
  {
  }

  function AllMissed(pieces: seq<Piece>): nat {
    if pieces == [] then 0 else Missed(pieces[0]) + AllMissed(pieces[1..])
  }

  lemma PieceInFront(p: Piece, more: seq<Piece>, line: nat)
    ensures Sources([p] + more) == Source(p) + Sources(more) && AllMissed([p] + more) == Missed(p) + AllMissed(more)
    ensures TokensOf([p] + more, line) ==
            (if IsToken(p) then [TokenOf(p, line + Counted(p))] else []) + TokensOf(more, line + Counted(p))
  {
    hide Source, Missed, TokenOf, Counted, IsToken;
    assert ([p] + more)[0] == p && ([p] + more)[1..] == more;
  }

  lemma ReadsRest(pieces: seq<Piece>, s: seq<byte>)
    requires Reads(pieces, s) && pieces != []
    ensures var p := pieces[0];
            Source(p) <= s && Fits(p, s[|Source(p)|..]) && Reads(pieces[1..], s[|Source(p)|..])
  {
    hide Source, Fits;
  }

  lemma {:induction false} TokensSplit(pieces: seq<Piece>, s: seq<byte>, k: nat, line: nat)
    requires Reads(pieces, s) && k <= |pieces|
    ensures AllMissed(pieces[..k]) <= Newlines(Sources(pieces[..k]))
    ensures var at := line + Newlines(Sources(pieces[..k])) - AllMissed(pieces[..k]);
            TokensOf(pieces, line) == TokensOf(pieces[..k], line) + TokensOf(pieces[k..], at)
    decreases k
  {
    hide Reads, Fits, Newlines, Counted, Missed, TokenOf, TokensOf, Sources, AllMissed, Source, IsToken;
    if k == 0 {
      NoPieces(line);
      assert pieces[..0] == [] && pieces[0..] == pieces && [] + TokensOf(pieces, line) == TokensOf(pieces, line);
    } else {
      var p, more := pieces[0], pieces[1..];
      ReadsRest(pieces, s);
      var rest := s[|Source(p)|..];
      CountedAndMissed(p, rest);
      TokensSplit(more, rest, k - 1, line + Counted(p));
      var part := more[..k - 1];
      assert pieces == [p] + more && pieces[..k] == [p] + part && pieces[k..] == more[k - 1..];
      PieceInFront(p, more, line);
      PieceInFront(p, part, line);
      NewlinesAdd(Source(p), Sources(part));
      var first := if IsToken(p) then [TokenOf(p, line + Counted(p))] else [];
      var front := TokensOf(part, line + Counted(p));
      var back := TokensOf(more[k - 1..], line + Counted(p) + Newlines(Sources(part)) - AllMissed(part));
      assert first + (front + back) == first + front + back;
    }
  }

  lemma NoPieces(line: nat)
    ensures TokensOf([], line) == [] && Sources([]) == [] && Newlines(Sources([])) == 0 && AllMissed([]) == 0
  {
  }

  /** The line of every token: one more than the newlines of the source before it (and in it, for a string), less
      the newlines that a backslash has taken with it; so the true line exactly if there are none of those. */
  lemma LinesAreExact(s: seq<byte>, pieces: seq<Piece>, k: nat)
    requires Reads(pieces, s) && k < |pieces| && IsToken(pieces[k])
    ensures var p, before := pieces[k], pieces[..k];
            var upTo := Sources(before) + if p.Text? then Source(p) else [];
            && upTo <= s
            && AllMissed(pieces[..k + 1]) <= Newlines(upTo)
            && Lex(s, 0, 1).Tokens? && |TokensOf(before, 1)| < |Lex(s, 0, 1).toks|
            && Lex(s, 0, 1).toks[|TokensOf(before, 1)|] == TokenOf(p, 1 + Newlines(upTo) - AllMissed(pieces[..k + 1]))
  {
    hide Lex, Reads, Fits, Newlines, Counted, TokenOf, AllMissed, Missed, TokensOf, Sources, Source;
    var p, before := pieces[k], pieces[..k];
    TokensAreRead(s);
    TokensSplit(pieces, s, k, 1);
    var at := 1 + Newlines(Sources(before)) - AllMissed(before);
    assert pieces[k..] == [p] + pieces[k + 1..];
    PieceInFront(p, pieces[k + 1..], at);
    PieceFits(pieces, s, k);
    LineOfPiece(p, s[|Sources(before)| + |Source(p)|..], Sources(before));
    MissedSnoc(before, p);
    assert pieces[..k + 1] == before + [p];
    if !p.Text? { FrontOf(Sources(before), Source(p), s); }
  }

  lemma FrontOf(a: seq<byte>, b: seq<byte>, s: seq<byte>)
    requires a + b <= s
    ensures a + [] <= s
  {
    assert a + [] == a;
    assert s[..|a|] == (a + b)[..|a|] == a;
  }

  lemma LineOfPiece(p: Piece, rest: seq<byte>, before: seq<byte>)
    requires Fits(p, rest) && IsToken(p)
    ensures var upTo := before + if p.Text? then Source(p) else [];
            Newlines(before) + Counted(p) == Newlines(upTo) - Missed(p)
  {
    hide Newlines, Fits, Source, Counted, Missed;
    CountedAndMissed(p, rest);
    NothingCounted(p);
    NewlinesAdd(before, if p.Text? then Source(p) else []);
  }

  lemma NothingCounted(p: Piece)
    ensures Newlines([]) == 0 && (p.Name? || p.Mark? ==> Counted(p) == 0 && Missed(p) == 0)
  {
  }

  lemma {:induction false} MissedSnoc(pieces: seq<Piece>, p: Piece)
    ensures AllMissed(pieces + [p]) == AllMissed(pieces) + Missed(p)
    decreases |pieces|
  {
    hide Missed;
    if pieces == [] {
      assert [p][1..] == [] && pieces + [p] == [p];
    } else {
      assert (pieces + [p])[1..] == pieces[1..] + [p];
      MissedSnoc(pieces[1..], p);
    }
  }

  lemma {:induction false} PieceFits(pieces: seq<Piece>, s: seq<byte>, k: nat)
    requires Reads(pieces, s) && k < |pieces|
    ensures var n := |Sources(pieces[..k])|;
            && n + |Source(pieces[k])| <= |s| && Sources(pieces[..k]) + Source(pieces[k]) <= s
            && Fits(pieces[k], s[n + |Source(pieces[k])|..])
    decreases k
  {
    hide Fits, Source, Reads, Sources;
    ReadsRest(pieces, s);
    var p, rest := pieces[0], s[|Source(pieces[0])|..];
    if k == 0 {
      NoPieces(1);
      assert pieces[..0] == [] && [] + Source(p) == Source(p);
    } else {
      var part := pieces[1..][..k - 1];
      PieceFits(pieces[1..], rest, k - 1);
      assert pieces[..k] == [p] + part;
      PieceInFront(p, part, 1);
      var front := Sources(part);
      BehindPiece(Source(p), front, Source(pieces[k]), rest, s);
    }
  }

  lemma BehindPiece(a: seq<byte>, front: seq<byte>, b: seq<byte>, rest: seq<byte>, s: seq<byte>)
    requires a <= s && rest == s[|a|..] && front + b <= rest
    ensures a + front + b <= s && s[|a + front| + |b|..] == rest[|front| + |b|..]
  {
    assert s == a + rest && rest == front + b + rest[|front + b|..];
  }
}
