/** What the tokenizer refuses: a source with a string that is never closed, and the line it reports. */
module GroovyOpenStrings {
  import opened Streams
  import opened GroovyLexer
  import opened GroovyPieces

  /** The pieces are how `s` is to be read up to `rest`. */
  ghost predicate ReadsTo(pieces: seq<Piece>, s: seq<byte>, rest: seq<byte>) {
    if pieces == [] then s == rest
    else
      var n := |Source(pieces[0])|;
      Source(pieces[0]) <= s && Fits(pieces[0], s[n..]) && ReadsTo(pieces[1..], s[n..], rest)
  }

  /** No closing quote: a backslash takes the next byte with it, if there is one. */
  predicate OpenSingle(raw: seq<byte>, q: byte) {
    raw == []
    || (raw[0] == BACKSLASH && (|raw| == 1 || OpenSingle(raw[2..], q)))
    || (raw[0] != BACKSLASH && raw[0] != q && OpenSingle(raw[1..], q))
  }

  ghost predicate OpenTriple(raw: seq<byte>, quote: seq<byte>) { forall i: nat :: !StartsWith(raw, i, quote) }

  /** A quote, and behind it to the end of the source nothing that closes it. */
  ghost predicate IsOpen(quote: seq<byte>, raw: seq<byte>) {
    && IsQuoteMark(quote)
    && (|quote| == 1 ==> OpenSingle(raw, quote[0]) && !StartsWith(quote + raw, 0, quote + quote + quote))
    && (|quote| == 3 ==> OpenTriple(raw, quote))
  }

  function OpenLines(quote: seq<byte>, raw: seq<byte>): nat { if |quote| == 1 then Breaks(raw) else Newlines(raw) }

  function AllCounted(pieces: seq<Piece>): nat {
    if pieces == [] then 0 else Counted(pieces[0]) + AllCounted(pieces[1..])
  }

  // ----- the string loop

  lemma {:induction false} SingleIsOpen(s: seq<byte>, q: byte, i: nat, line: nat)
    requires i <= |s| && IsQuote(q)
    ensures StringEnd(s, [q], i, line).Open? <==> OpenSingle(s[i..], q)
    ensures StringEnd(s, [q], i, line).Open? ==> StringEnd(s, [q], i, line).line == line + Breaks(s[i..])
    decreases |s| - i
  {
    QuoteIs(s, i, q);
    var raw := s[i..];
    if i < |s| {
      assert raw[1..] == s[i + 1..];
      if s[i] == BACKSLASH && i + 1 < |s| {
        assert raw[2..] == s[i + 2..];
        SingleIsOpen(s, q, i + 2, line);
      } else if s[i] != q {
        SingleIsOpen(s, q, i + 1, if s[i] == NL then line + 1 else line);
      }
    }
  }

  lemma TripleOpensStep(s: seq<byte>, quote: seq<byte>, i: nat)
    requires i < |s| && quote != []
    ensures OpenTriple(s[i..], quote) <==> !StartsWith(s, i, quote) && OpenTriple(s[i + 1..], quote)
  {
    var raw, more := s[i..], s[i + 1..];
    forall k: nat ensures StartsWith(raw, k, quote) <==> StartsWith(s, i + k, quote) { Shifted(s, i, k, quote); }
    forall k: nat ensures StartsWith(more, k, quote) <==> StartsWith(s, i + 1 + k, quote) { Shifted(s, i + 1, k, quote); }
    if OpenTriple(raw, quote) {
      assert !StartsWith(raw, 0, quote);
      forall k: nat ensures !StartsWith(more, k, quote) { assert !StartsWith(raw, k + 1, quote); }
    } else {
      var k: nat :| StartsWith(raw, k, quote);
      if k > 0 { assert StartsWith(more, k - 1, quote); }
    }
  }

  lemma Shifted(s: seq<byte>, i: nat, k: nat, p: seq<byte>)
    requires i <= |s|
    ensures StartsWith(s[i..], k, p) <==> StartsWith(s, i + k, p)
  {
    if i + k + |p| <= |s| { assert s[i..][k..k + |p|] == s[i + k..i + k + |p|]; }
  }

  lemma {:induction false} TripleIsOpen(s: seq<byte>, quote: seq<byte>, i: nat, line: nat)
    requires i <= |s| && |quote| == 3
    ensures StringEnd(s, quote, i, line).Open? <==> OpenTriple(s[i..], quote)
    ensures StringEnd(s, quote, i, line).Open? ==> StringEnd(s, quote, i, line).line == line + Newlines(s[i..])
    decreases |s| - i
  {
    hide StartsWith, OpenTriple;
    if i < |s| {
      TripleOpensStep(s, quote, i);
      assert s[i..][1..] == s[i + 1..];
      if !StartsWith(s, i, quote) { TripleIsOpen(s, quote, i + 1, if s[i] == NL then line + 1 else line); }
    } else {
      NothingIsOpen(s[i..], quote);
    }
  }

  lemma NothingIsOpen(s: seq<byte>, quote: seq<byte>)
    requires s == [] && quote != []
    ensures OpenTriple(s, quote)
  {
  }

  // ----- one round that fails

  lemma FailsInString(s: seq<byte>, i: nat, line: nat)
    requires i < |s| && LexStep(s, i, line).Fail?
    ensures IsQuote(s[i])
  {
    hide ToLineEnd, CommentEnd, StringEnd, IdentEnd;
  }

  /** At a quote the round fails exactly if nothing closes it. */
  lemma FailsIfOpen(s: seq<byte>, i: nat, line: nat)
    requires i < |s| && IsQuote(s[i])
    ensures var quote, raw := QuoteOf(s, i), s[i + |QuoteOf(s, i)|..];
            && s[i..] == quote + raw
            && (LexStep(s, i, line).Fail? <==> IsOpen(quote, raw))
            && (LexStep(s, i, line).Fail? ==> LexStep(s, i, line) == Fail(line + OpenLines(quote, raw)))
  {
    hide LexStep, StringEnd, StartsWith, OpenSingle, OpenTriple, Breaks, Newlines, IsQuote;
    var quote, q := QuoteOf(s, i), s[i];
    var raw := s[i + |quote|..];
    QuoteStep(s, i, line);
    QuoteStands(s, i);
    assert s[i..] == s[i..i + |quote|] + raw;
    SuffixStarts(s, i, [q, q, q]);
    assert IsQuoteMark(quote);
    if |quote| == 1 {
      assert quote + quote + quote == [q, q, q];
      SingleIsOpen(s, q, i + 1, line);
    } else {
      TripleIsOpen(s, quote, i + 3, line);
    }
  }

  /** The quote that opens the rest of the source is the one that the tokenizer takes. */
  lemma OpenQuote(s: seq<byte>, i: nat, quote: seq<byte>, raw: seq<byte>)
    requires i <= |s| && s[i..] == quote + raw && IsOpen(quote, raw)
    ensures i < |s| && IsQuote(s[i]) && QuoteOf(s, i) == quote && s[i + |quote|..] == raw
  {
    hide StartsWith, OpenSingle, OpenTriple, IsQuote, QuoteOf;
    var q :| IsQuote(q) && (quote == [q] || quote == [q, q, q]);
    assert s[i] == s[i..][0] == q;
    assert s[i..][|quote|..] == raw;
    SuffixStarts(s, i, [q, q, q]);
    SuffixStarts(s, i, quote);
    OpensWith(quote, raw);
    if |quote| == 1 { assert quote + quote + quote == [q, q, q]; }
    QuoteOfIs(s, i, quote, q);
  }

  lemma OpensWith(p: seq<byte>, more: seq<byte>)
    ensures StartsWith(p + more, 0, p)
  {
    assert (p + more)[0..|p|] == p;
  }

  // ----- the whole source

  lemma {:induction false} OpenIsRefused(s: seq<byte>, i: nat, line: nat, pieces: seq<Piece>, quote: seq<byte>, raw: seq<byte>)
    requires i <= |s| && ReadsTo(pieces, s[i..], quote + raw) && IsOpen(quote, raw)
    ensures Lex(s, i, line) == Unterminated(line + AllCounted(pieces) + OpenLines(quote, raw))
    decreases |pieces|
  {
    hide LexStep, Fits, Source, Counted, StandsAt, IsOpen, QuoteOf, OpenLines, IsQuote;
    if pieces == [] {
      OpenQuote(s, i, quote, raw);
      FailsIfOpen(s, i, line);
    } else {
      var p := pieces[0];
      StandsInFront(s, i, p);
      PieceIsTaken(s, i, line, p);
      PieceGoesOn(s, i, line, p);
      var next := i + |Source(p)|;
      assert s[i..][|Source(p)|..] == s[next..];
      OpenIsRefused(s, next, line + Counted(p), pieces[1..], quote, raw);
    }
  }

  /** Behind a piece an unterminated string is reported as it is from there. */
  lemma PieceGoesOn(s: seq<byte>, i: nat, line: nat, p: Piece)
    requires i < |s| && StandsAt(s, i, p) && Takes(LexStep(s, i, line), s, p, i, line)
    ensures i + |Source(p)| <= |s|
    ensures Lex(s, i, line).Unterminated? <==> Lex(s, i + |Source(p)|, line + Counted(p)).Unterminated?
    ensures Lex(s, i, line).Unterminated? ==> Lex(s, i, line) == Lex(s, i + |Source(p)|, line + Counted(p))
  {
    hide LexStep, Fits, Counted, TokenOf;
    SuffixIs(s, i, Source(p));
  }

  lemma {:induction false} RefusedIsOpen(s: seq<byte>, i: nat, line: nat)
    returns (pieces: seq<Piece>, quote: seq<byte>, raw: seq<byte>)
    requires i <= |s| && Lex(s, i, line).Unterminated?
    ensures ReadsTo(pieces, s[i..], quote + raw) && IsOpen(quote, raw)
    decreases |s| - i
  {
    hide LexStep, Fits, Source, Counted, TokenOf, StandsAt, Takes, IsOpen, QuoteOf, IsQuote;
    if LexStep(s, i, line).Fail? {
      FailsInString(s, i, line);
      FailsIfOpen(s, i, line);
      pieces, quote, raw := [], QuoteOf(s, i), s[i + |QuoteOf(s, i)|..];
    } else {
      var p := SomePieceStands(s, i, line);
      StandsInFront(s, i, p);
      PieceIsTaken(s, i, line, p);
      PieceGoesOn(s, i, line, p);
      PieceIsLong(s, i, p, line);
      var next := i + |Source(p)|;
      assert s[i..][|Source(p)|..] == s[next..];
      var more;
      more, quote, raw := RefusedIsOpen(s, next, line + Counted(p));
      pieces := [p] + more;
      assert pieces[1..] == more;
    }
  }

  lemma PieceIsLong(s: seq<byte>, i: nat, p: Piece, line: nat)
    requires StandsAt(s, i, p)
    ensures Source(p) != []
  {
    hide IsRaw, NoClose;
  }

  /** `s` can be read up to a string that nothing closes. */
  ghost predicate IsRefused(s: seq<byte>, pieces: seq<Piece>, quote: seq<byte>, raw: seq<byte>) {
    ReadsTo(pieces, s, quote + raw) && IsOpen(quote, raw)
  }

  /** The tokenizer refuses exactly the sources that can be read up to a string that nothing closes, and the line it
      reports is one more than the lines counted before that string and in it. */
  lemma RefusesOpenStrings(s: seq<byte>)
    ensures Lex(s, 0, 1).Unterminated? <==> exists pieces, quote, raw :: IsRefused(s, pieces, quote, raw)
    ensures forall pieces, quote, raw :: IsRefused(s, pieces, quote, raw) ==>
              Lex(s, 0, 1) == Unterminated(1 + AllCounted(pieces) + OpenLines(quote, raw))
  {
    hide Lex, ReadsTo, IsOpen, OpenLines;
    assert s[0..] == s;
    forall pieces, quote, raw | IsRefused(s, pieces, quote, raw)
      ensures Lex(s, 0, 1) == Unterminated(1 + AllCounted(pieces) + OpenLines(quote, raw))
    {
      OpenIsRefused(s, 0, 1, pieces, quote, raw);
    }
    if Lex(s, 0, 1).Unterminated? {
      var pieces, quote, raw := RefusedIsOpen(s, 0, 1);
      assert IsRefused(s, pieces, quote, raw);
    }
  }
}
