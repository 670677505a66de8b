/** A canonical way to write statements down, and the proof that tokenizing and parsing undo it. */
module GroovyRender {
  import opened Streams
  import opened GroovyLexer
  import opened GroovyParser

  /** An argument as it is written: a bare word, a string in the given quotes, or one byte of punctuation. */
  datatype Argument = Word(text: seq<byte>) | Quoted(quote: byte, text: seq<byte>) | Mark(b: byte)

  datatype Statement = Statement(name: seq<byte>, args: seq<Argument>, body: seq<Statement>)

  predicate IsWord(w: seq<byte>) { w != [] && forall i :: 0 <= i < |w| ==> IsIdent(w[i]) }

  predicate IsPlainMark(b: byte) {
    && b != NL && !IsBlank(b) && !IsQuote(b) && !IsIdent(b)
    && b != OPEN_PAREN && b != CLOSE_PAREN && b != OPEN_BRACE && b != CLOSE_BRACE
  }

  predicate Writable(a: Argument) {
    match a
    case Word(w) => IsWord(w)
    case Quoted(q, _) => IsQuote(q)
    case Mark(b) => IsPlainMark(b)
  }

  predicate AllWritable(ss: seq<Statement>)
    decreases ss
  {
    ss == [] || (StatementWritable(ss[0]) && AllWritable(ss[1..]))
  }

  predicate StatementWritable(st: Statement)
    decreases st
  {
    IsWord(st.name) && (forall a <- st.args :: Writable(a)) && AllWritable(st.body)
  }

  // ----- writing

  function EscapedByte(b: byte, q: byte): seq<byte> {
    if b == NL then [BACKSLASH, LOWER_N]
    else if b == TAB then [BACKSLASH, LOWER_T]
    else if b == BACKSLASH || b == q then [BACKSLASH, b]
    else [b]
  }

  function Escaped(text: seq<byte>, q: byte): seq<byte> {
    if text == [] then [] else EscapedByte(text[0], q) + Escaped(text[1..], q)
  }

  function Written(a: Argument): seq<byte> {
    match a
    case Word(w) => w
    case Quoted(q, text) => [q] + (Escaped(text, q) + [q])
    case Mark(b) => [b]
  }

  function WrittenArgs(args: seq<Argument>): seq<byte> {
    if args == [] then [] else [SPACE] + (Written(args[0]) + WrittenArgs(args[1..]))
  }

  /** One statement a line; a body in braces on lines of its own. */
  function Render(ss: seq<Statement>): seq<byte>
    decreases ss, 0
  {
    if ss == [] then [] else RenderStatement(ss[0]) + Render(ss[1..])
  }

  function RenderStatement(st: Statement): seq<byte>
    decreases st
  {
    st.name + (WrittenArgs(st.args) + RenderBody(st.body))
  }

  function RenderBody(body: seq<Statement>): seq<byte>
    decreases body, 1
  {
    if body == [] then [NL] else [SPACE, OPEN_BRACE, NL] + (Render(body) + [CLOSE_BRACE, NL])
  }

  // ----- what it stands for

  function TextOf(a: Argument): seq<byte> {
    match a
    case Word(w) => w
    case Quoted(_, text) => text
    case Mark(b) => PunctText(b)
  }

  function KindOf(a: Argument): Kind {
    match a
    case Word(_) => Ident
    case Quoted(_, _) => Str
    case Mark(_) => Punct
  }

  function Texts(args: seq<Argument>): seq<seq<byte>> {
    if args == [] then [] else [TextOf(args[0])] + Texts(args[1..])
  }

  function Literals(args: seq<Argument>): seq<bool> {
    if args == [] then [] else [args[0].Quoted?] + Literals(args[1..])
  }

  function ToNodes(ss: seq<Statement>): seq<Node>
    decreases ss
  {
    if ss == [] then [] else [ToNode(ss[0])] + ToNodes(ss[1..])
  }

  function ToNode(st: Statement): Node
    decreases st
  {
    Node(st.name, Texts(st.args), Literals(st.args), ToNodes(st.body))
  }

  // ----- the tokens of a rendering

  /** Lines that a rendering takes. */
  function Height(ss: seq<Statement>): nat
    decreases ss, 0
  {
    if ss == [] then 0 else BodyHeight(ss[0].body) + Height(ss[1..])
  }

  function BodyHeight(body: seq<Statement>): nat
    decreases body, 1
  {
    if body == [] then 1 else Height(body) + 2
  }

  function ArgTokens(args: seq<Argument>, line: nat): seq<Token> {
    if args == [] then [] else [Token(KindOf(args[0]), TextOf(args[0]), line)] + ArgTokens(args[1..], line)
  }

  function Toks(ss: seq<Statement>, line: nat): seq<Token>
    decreases ss, 0
  {
    if ss == [] then [] else StatementToks(ss[0], line) + Toks(ss[1..], line + BodyHeight(ss[0].body))
  }

  function StatementToks(st: Statement, line: nat): seq<Token>
    decreases st
  {
    [Token(Ident, st.name, line)] + (ArgTokens(st.args, line) + BodyToks(st.body, line))
  }

  function BodyToks(body: seq<Statement>, line: nat): seq<Token>
    decreases body, 1
  {
    if body == [] then []
    else [Token(Punct, [OPEN_BRACE], line)] + (Toks(body, line + 1) + [Token(Punct, [CLOSE_BRACE], line + 1 + Height(body))])
  }

  // ----- tokenizing a rendering

  lemma {:induction false} IdentEndOf(s: seq<byte>, i: nat, j: nat)
    requires i <= j < |s| && (forall k :: i <= k < j ==> IsIdent(s[k])) && !IsIdent(s[j])
    ensures IdentEnd(s, i) == j
    decreases j - i
  {
    if i < j { IdentEndOf(s, i + 1, j); }
  }

  lemma LexWord(s: seq<byte>, i: nat, line: nat, w: seq<byte>)
    requires StartsWith(s, i, w) && IsWord(w) && i + |w| < |s| && !IsIdent(s[i + |w|])
    ensures i < |s| && LexStep(s, i, line) == Emit(Token(Ident, w, line), i + |w|, line)
  {
    forall k | i <= k < i + |w| ensures s[k] == w[k - i] { assert s[i..i + |w|][k - i] == s[k]; }
    assert IsIdent(s[i]);
    IdentEndOf(s, i + 1, i + |w|);
    NoComment(s, i);
  }

  lemma {:induction false} StringEndOf(s: seq<byte>, i: nat, line: nat, q: byte, text: seq<byte>)
    requires IsQuote(q) && StartsWith(s, i, Escaped(text, q) + [q])
    ensures StringEnd(s, [q], i, line) == Closed(text, i + |Escaped(text, q)|, line)
    decreases |text|
  {
    hide StringEnd, EscapedByte, StartsWith;
    if text == [] {
      assert [] + [q] == [q];
      StringEndsAt(s, i, line, q);
    } else {
      var b, more := text[0], Escaped(text[1..], q);
      var front := EscapedByte(b, q);
      assert front + more + [q] == front + (more + [q]);
      SplitStart(s, i, front, more + [q]);
      StringEndOf(s, i + |front|, line, q, text[1..]);
      StringEndStep(s, i, line, q, b);
      assert text == [b] + text[1..];
    }
  }

  lemma StringEndsAt(s: seq<byte>, i: nat, line: nat, q: byte)
    requires IsQuote(q) && StartsWith(s, i, [q])
    ensures StringEnd(s, [q], i, line) == Closed([], i, line)
  {
    FirstByte(s, i, [q]);
  }

  /** One escaped byte inside a string. */
  lemma StringEndStep(s: seq<byte>, i: nat, line: nat, q: byte, b: byte)
    requires IsQuote(q) && StartsWith(s, i, EscapedByte(b, q))
    ensures var n := |EscapedByte(b, q)|;
            StringEnd(s, [q], i, line) == Put(b, StringEnd(s, [q], i + n, line))
  {
    var front := EscapedByte(b, q);
    FirstByte(s, i, front);
    if |front| == 2 {
      assert s[i..i + 2][1] == s[i + 1];
    } else {
      assert s[i..i + 1] == [b];
    }
  }

  lemma EscapedNeverStartsWithQuote(text: seq<byte>, q: byte)
    requires IsQuote(q) && text != []
    ensures Escaped(text, q) != [] && Escaped(text, q)[0] != q
  {
  }

  lemma LexQuoted(s: seq<byte>, i: nat, line: nat, q: byte, text: seq<byte>)
    requires IsQuote(q) && StartsWith(s, i, [q] + (Escaped(text, q) + [q]))
    requires var e := i + |Escaped(text, q)| + 2; e < |s| && !IsQuote(s[e])
    ensures LexStep(s, i, line) == Emit(Token(Str, text, line), i + |Escaped(text, q)| + 2, line)
  {
    hide StringEnd, Escaped;
    var body := Escaped(text, q);
    SplitStart(s, i, [q], body + [q]);
    FirstByte(s, i, [q]);
    NotTriple(s, i, q, text);
    NoComment(s, i);
    StringEndOf(s, i + 1, line, q, text);
  }

  /** A string written in single quotes is never taken for a triple-quoted one. */
  lemma NotTriple(s: seq<byte>, i: nat, q: byte, text: seq<byte>)
    requires IsQuote(q) && StartsWith(s, i, [q] + (Escaped(text, q) + [q]))
    requires var e := i + |Escaped(text, q)| + 2; e < |s| && !IsQuote(s[e])
    ensures !StartsWith(s, i, [q, q, q])
  {
    var body := Escaped(text, q);
    SplitStart(s, i, [q], body + [q]);
    SplitStart(s, i + 1, body, [q]);
    if i + 3 <= |s| { assert s[i..i + 3][1] == s[i + 1] && s[i..i + 3][2] == s[i + 2]; }
    if text != [] {
      EscapedNeverStartsWithQuote(text, q);
      FirstByte(s, i + 1, body);
    }
  }

  lemma LexMark(s: seq<byte>, i: nat, line: nat, b: byte)
    requires i + 1 < |s| && s[i] == b && b != NL && !IsBlank(b) && !IsQuote(b) && !IsIdent(b)
    requires s[i + 1] == SPACE || s[i + 1] == NL
    ensures LexStep(s, i, line) == Emit(Token(Punct, PunctText(b), line), i + 1, line)
  {
    if i + 2 <= |s| { assert s[i..i + 2][1] == s[i + 1]; }
  }

  lemma LexWritten(s: seq<byte>, i: nat, line: nat, a: Argument)
    requires Writable(a) && StartsWith(s, i, Written(a))
    requires var e := i + |Written(a)|; e < |s| && (s[e] == SPACE || s[e] == NL)
    ensures i < |s| && LexStep(s, i, line) == Emit(Token(KindOf(a), TextOf(a), line), i + |Written(a)|, line)
  {
    match a
    case Word(w) => LexWord(s, i, line, w);
    case Quoted(q, text) => LexQuoted(s, i, line, q, text);
    case Mark(b) => FirstByte(s, i, [b]); LexMark(s, i, line, b);
  }

  lemma {:induction false} LexArgs(s: seq<byte>, i: nat, line: nat, args: seq<Argument>)
    requires (forall a <- args :: Writable(a)) && StartsWith(s, i, WrittenArgs(args))
    requires var e := i + |WrittenArgs(args)|; e < |s| && (s[e] == SPACE || s[e] == NL)
    ensures Lex(s, i, line) == After(ArgTokens(args, line), Lex(s, i + |WrittenArgs(args)|, line))
    ensures i < |s| && (s[i] == SPACE || s[i] == NL)
    decreases |args|
  {
    hide LexStep, Lex, StartsWith, Written, Writable, KindOf, TextOf, Add, After;
    var e := i + |WrittenArgs(args)|;
    if args == [] {
      AfterNothing(Lex(s, i, line));
    } else {
      var a, more := args[0], WrittenArgs(args[1..]);
      SplitStart(s, i, [SPACE], Written(a) + more);
      FirstByte(s, i, [SPACE]);
      SplitStart(s, i + 1, Written(a), more);
      var j := i + 1 + |Written(a)|;
      LexArgs(s, j, line, args[1..]);
      LexWritten(s, i + 1, line, a);
      LexBlank(s, i, line);
      LexSkips(s, i, line, i + 1, line);
      LexEmits(s, i + 1, line, Token(KindOf(a), TextOf(a), line), j, line);
      AddIsAfter(Token(KindOf(a), TextOf(a), line), ArgTokens(args[1..], line), Lex(s, e, line));
    }
  }

  lemma AfterNothing(r: Lexed)
    ensures After([], r) == r
  {
    if r.Tokens? { assert [] + r.toks == r.toks; }
  }

  lemma AddIsAfter(t: Token, toks: seq<Token>, r: Lexed)
    ensures Add(t, After(toks, r)) == After([t] + toks, r)
  {
    if r.Tokens? { assert [t] + (toks + r.toks) == [t] + toks + r.toks; }
  }

  lemma AfterAfter(a: seq<Token>, b: seq<Token>, r: Lexed)
    ensures After(a, After(b, r)) == After(a + b, r)
  {
    if r.Tokens? { assert a + (b + r.toks) == a + b + r.toks; }
  }

  lemma LexBlank(s: seq<byte>, i: nat, line: nat)
    requires i < |s| && s[i] == SPACE
    ensures LexStep(s, i, line) == Skip(i + 1, line)
  {
  }

  lemma LexNewline(s: seq<byte>, i: nat, line: nat)
    requires i < |s| && s[i] == NL
    ensures LexStep(s, i, line) == Skip(i + 1, line + 1)
  {
  }

  lemma {:induction false} LexRendered(s: seq<byte>, i: nat, line: nat, ss: seq<Statement>)
    requires AllWritable(ss) && StartsWith(s, i, Render(ss))
    ensures Lex(s, i, line) == After(Toks(ss, line), Lex(s, i + |Render(ss)|, line + Height(ss)))
    decreases ss, 0
  {
    hide Lex, StartsWith, RenderStatement, StatementToks, After;
    if ss == [] {
      AfterNothing(Lex(s, i, line));
    } else {
      var st := ss[0];
      SplitStart(s, i, RenderStatement(st), Render(ss[1..]));
      LexStatement(s, i, line, st);
      var j, l := i + |RenderStatement(st)|, line + BodyHeight(st.body);
      LexRendered(s, j, l, ss[1..]);
      AfterAfter(StatementToks(st, line), Toks(ss[1..], l), Lex(s, i + |Render(ss)|, line + Height(ss)));
    }
  }

  lemma {:induction false} LexStatement(s: seq<byte>, i: nat, line: nat, st: Statement)
    requires StatementWritable(st) && StartsWith(s, i, RenderStatement(st))
    ensures Lex(s, i, line) == After(StatementToks(st, line), Lex(s, i + |RenderStatement(st)|, line + BodyHeight(st.body)))
    decreases st
  {
    hide LexStep, Lex, StartsWith, WrittenArgs, RenderBody, ArgTokens, BodyToks, Add, After;
    var args, body := WrittenArgs(st.args), RenderBody(st.body);
    var j := i + |st.name|;
    var k := j + |args|;
    var end := Lex(s, i + |RenderStatement(st)|, line + BodyHeight(st.body));
    SplitStart(s, i, st.name, args + body);
    SplitStart(s, j, args, body);
    BodyFirst(st.body);
    FirstByte(s, k, body);
    LexArgs(s, j, line, st.args);
    LexWord(s, i, line, st.name);
    LexEmits(s, i, line, Token(Ident, st.name, line), j, line);
    LexBody(s, k, line, st.body);
    var a, b := ArgTokens(st.args, line), BodyToks(st.body, line);
    AfterAfter(a, b, end);
    AddIsAfter(Token(Ident, st.name, line), a + b, end);
  }

  lemma BodyFirst(body: seq<Statement>)
    ensures RenderBody(body) != [] && (RenderBody(body)[0] == SPACE || RenderBody(body)[0] == NL)
  {
  }

  lemma {:induction false} LexBody(s: seq<byte>, i: nat, line: nat, body: seq<Statement>)
    requires AllWritable(body) && StartsWith(s, i, RenderBody(body))
    ensures Lex(s, i, line) == After(BodyToks(body, line), Lex(s, i + |RenderBody(body)|, line + BodyHeight(body)))
    decreases body, 2
  {
    hide Lex, LexStep, StartsWith, Render, Toks, Height, After;
    if body == [] {
      FirstByte(s, i, [NL]);
      LexNewline(s, i, line);
      LexSkips(s, i, line, i + 1, line + 1);
      AfterNothing(Lex(s, i, line));
    } else {
      LexBraces(s, i, line, body);
    }
  }

  lemma {:induction false} LexBraces(s: seq<byte>, i: nat, line: nat, body: seq<Statement>)
    requires AllWritable(body) && StartsWith(s, i, [SPACE, OPEN_BRACE, NL] + (Render(body) + [CLOSE_BRACE, NL]))
    ensures var open, shut := Token(Punct, [OPEN_BRACE], line), Token(Punct, [CLOSE_BRACE], line + 1 + Height(body));
            Lex(s, i, line) ==
            After([open] + (Toks(body, line + 1) + [shut]), Lex(s, i + |Render(body)| + 5, line + Height(body) + 2))
    decreases body, 1
  {
    hide Lex, LexStep, StartsWith, Render, Toks, Height, Add, After, AllWritable;
    var inner, close := Render(body), [CLOSE_BRACE, NL];
    SplitStart(s, i, [SPACE, OPEN_BRACE, NL], inner + close);
    SplitStart(s, i + 3, inner, close);
    var j, l := i + 3 + |inner|, line + 1 + Height(body);
    LexOpening(s, i, line);
    LexRendered(s, i + 3, line + 1, body);
    LexClosing(s, j, l);
    BracesAround(Token(Punct, [OPEN_BRACE], line), Toks(body, line + 1), Token(Punct, [CLOSE_BRACE], l), Lex(s, j + 2, l + 1));
  }

  lemma BracesAround(open: Token, inner: seq<Token>, shut: Token, end: Lexed)
    ensures Add(open, After(inner, Add(shut, end))) == After([open] + (inner + [shut]), end)
  {
    AfterNothing(end);
    AddIsAfter(shut, [], end);
    assert [shut] + [] == [shut];
    AfterAfter(inner, [shut], end);
    AddIsAfter(open, inner + [shut], end);
  }

  lemma LexOpening(s: seq<byte>, i: nat, line: nat)
    requires StartsWith(s, i, [SPACE, OPEN_BRACE, NL])
    ensures Lex(s, i, line) == Add(Token(Punct, [OPEN_BRACE], line), Lex(s, i + 3, line + 1))
  {
    var t := s[i..i + 3];
    assert s[i] == t[0] && s[i + 1] == t[1] && s[i + 2] == t[2];
    hide LexStep, Lex, StartsWith;
    LexBlank(s, i, line);
    LexSkips(s, i, line, i + 1, line);
    LexMark(s, i + 1, line, OPEN_BRACE);
    LexEmits(s, i + 1, line, Token(Punct, [OPEN_BRACE], line), i + 2, line);
    LexNewline(s, i + 2, line);
    LexSkips(s, i + 2, line, i + 3, line + 1);
  }

  lemma LexClosing(s: seq<byte>, i: nat, line: nat)
    requires StartsWith(s, i, [CLOSE_BRACE, NL])
    ensures Lex(s, i, line) == Add(Token(Punct, [CLOSE_BRACE], line), Lex(s, i + 2, line + 1))
  {
    var t := s[i..i + 2];
    assert s[i] == t[0] && s[i + 1] == t[1];
    hide LexStep, Lex, StartsWith;
    LexMark(s, i, line, CLOSE_BRACE);
    LexEmits(s, i, line, Token(Punct, [CLOSE_BRACE], line), i + 1, line);
    LexNewline(s, i + 1, line);
    LexSkips(s, i + 1, line, i + 2, line + 1);
  }

  // ----- parsing the tokens of a rendering

  /** What may follow a statement that ended on an earlier line than `line`. */
  predicate EndsStatement(suf: seq<Token>, line: nat) {
    suf == [] || IsMark(suf[0], CLOSE_BRACE) || (suf[0].kind == Ident && suf[0].line >= line)
  }

  lemma {:induction false} ParseArgs(args: seq<Argument>, line: nat, depth: nat, more: seq<Token>)
    requires forall a <- args :: Writable(a)
    ensures Arguments(ArgTokens(args, line) + more, line, 0, depth)
         == Behind(Texts(args), Literals(args), Arguments(more, line, 0, depth))
    decreases |args|
  {
    var ts := ArgTokens(args, line) + more;
    if args == [] {
      assert ts == more;
      var tail := Arguments(more, line, 0, depth);
      assert [] + tail.args == tail.args && [] + tail.literal == tail.literal;
    } else {
      var t := Token(KindOf(args[0]), TextOf(args[0]), line);
      assert ts == [t] + (ArgTokens(args[1..], line) + more);
      assert ts[1..] == ArgTokens(args[1..], line) + more;
      ParseArgs(args[1..], line, depth, more);
      assert args[0] in args;
      var tail := Arguments(more, line, 0, depth);
      PushBehind(t, Texts(args[1..]), Literals(args[1..]), tail);
    }
  }

  lemma PushBehind(t: Token, args: seq<seq<byte>>, literal: seq<bool>, tail: Tail)
    ensures Push(t, Behind(args, literal, tail)) == Behind([t.text] + args, [t.kind == Str] + literal, tail)
  {
    assert [t.text] + (args + tail.args) == [t.text] + args + tail.args;
    assert [t.kind == Str] + (literal + tail.literal) == [t.kind == Str] + literal + tail.literal;
  }

  lemma BlockStep(t: Token, after: seq<Token>, depth: nat)
    requires t.kind == Ident
    ensures var tail := Arguments(after, t.line, 0, depth);
            var r := Block(tail.rest, depth);
            Block([t] + after, depth) == ([Node(t.text, tail.args, tail.literal, tail.block)] + r.0, r.1)
  {
    assert ([t] + after)[1..] == after;
  }

  lemma {:induction false} ParseToks(ss: seq<Statement>, line: nat, depth: nat, suf: seq<Token>)
    requires AllWritable(ss) && (suf == [] || IsMark(suf[0], CLOSE_BRACE))
    ensures Block(Toks(ss, line) + suf, depth) == (ToNodes(ss), if depth > 0 && suf != [] then suf[1..] else suf)
    decreases ss, 0
  {
    hide StatementToks, StatementWritable, ToNode;
    if ss == [] {
      assert Toks(ss, line) + suf == suf;
    } else {
      hide Block;
      var st, l := ss[0], line + BodyHeight(ss[0].body);
      var more := Toks(ss[1..], l) + suf;
      assert Toks(ss, line) + suf == StatementToks(st, line) + more;
      AtLeastOneLine(st.body);
      TokensEnd(ss[1..], l, suf);
      ParseStatement(st, line, depth, more);
      ParseToks(ss[1..], l, depth, suf);
    }
  }

  lemma {:induction false} ParseStatement(st: Statement, line: nat, depth: nat, more: seq<Token>)
    requires StatementWritable(st) && EndsStatement(more, line + 1)
    ensures Block(StatementToks(st, line) + more, depth) == ([ToNode(st)] + Block(more, depth).0, Block(more, depth).1)
    decreases st
  {
    hide Block, Arguments, ArgTokens, BodyToks, Texts, Literals, AllWritable, ToNodes;
    var args, body, t := ArgTokens(st.args, line), BodyToks(st.body, line), Token(Ident, st.name, line);
    assert StatementToks(st, line) + more == [t] + (args + (body + more));
    BlockStep(t, args + (body + more), depth);
    ParseArgs(st.args, line, depth, body + more);
    ParseBody(st.body, line, depth, more);
    assert Texts(st.args) + [] == Texts(st.args) && Literals(st.args) + [] == Literals(st.args);
  }

  lemma AtLeastOneLine(body: seq<Statement>)
    ensures BodyHeight(body) >= 1
  {
  }

  lemma TokensEnd(ss: seq<Statement>, line: nat, suf: seq<Token>)
    requires suf == [] || IsMark(suf[0], CLOSE_BRACE)
    ensures forall l: nat :: l <= line ==> EndsStatement(Toks(ss, line) + suf, l)
  {
    if ss == [] { assert Toks(ss, line) + suf == suf; }
  }

  lemma {:induction false} ParseBody(body: seq<Statement>, line: nat, depth: nat, more: seq<Token>)
    requires AllWritable(body) && EndsStatement(more, line + 1)
    ensures Arguments(BodyToks(body, line) + more, line, 0, depth) == Tail([], [], ToNodes(body), more)
    decreases body, 1
  {
    if body == [] {
      assert BodyToks(body, line) + more == more;
    } else {
      hide Block, Arguments, Toks, ToNodes, AllWritable, Height;
      var open := Token(Punct, [OPEN_BRACE], line);
      var shut := Token(Punct, [CLOSE_BRACE], line + 1 + Height(body));
      var inner := Toks(body, line + 1);
      assert BodyToks(body, line) + more == [open] + (inner + ([shut] + more));
      ParseToks(body, line + 1, depth + 1, [shut] + more);
      assert ([shut] + more)[1..] == more;
      OpenStep(open, inner + ([shut] + more), line, depth);
    }
  }

  lemma OpenStep(open: Token, after: seq<Token>, line: nat, depth: nat)
    requires IsMark(open, OPEN_BRACE)
    ensures var r := Block(after, depth + 1); Arguments([open] + after, line, 0, depth) == Tail([], [], r.0, r.1)
  {
    assert ([open] + after)[1..] == after;
  }

  lemma LexEnds(s: seq<byte>, line: nat)
    ensures Lex(s, |s|, line) == Tokens([])
  {
  }

  /** For every list of writable statements: writing it down and parsing the text gives it back. */
  lemma ParseInvertsRender(ss: seq<Statement>)
    requires AllWritable(ss)
    ensures Parse(Render(ss)) == Nodes(ToNodes(ss))
  {
    hide Lex, Block, Render, Toks, AllWritable;
    var s := Render(ss);
    assert s[0..0 + |s|] == s;
    LexEnds(s, 1 + Height(ss));
    LexRendered(s, 0, 1, ss);
    assert Toks(ss, 1) + [] == Toks(ss, 1);
    ParseToks(ss, 1, 0, []);
  }

  /** So no two different statement lists are written the same way, unless they stand for the same nodes. */
  lemma RenderIsInjective(ss: seq<Statement>, tt: seq<Statement>)
    requires AllWritable(ss) && AllWritable(tt) && Render(ss) == Render(tt)
    ensures ToNodes(ss) == ToNodes(tt)
  {
    ParseInvertsRender(ss);
    ParseInvertsRender(tt);
  }
}
