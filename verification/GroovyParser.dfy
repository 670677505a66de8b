/** The structural parser over the tokens: statements, their arguments, and nested blocks. */
module GroovyParser {
  import opened Streams
  import opened GroovyLexer

  const OPEN_PAREN: byte := 40
  const CLOSE_PAREN: byte := 41
  const OPEN_BRACE: byte := 123
  const CLOSE_BRACE: byte := 125

  lemma MarkTexts()
    ensures [OPEN_PAREN, CLOSE_PAREN, OPEN_BRACE, CLOSE_BRACE] == Chars("(){}")
  {
  }

  /** One statement: `literal` marks the arguments that were quoted strings. */
  datatype Node = Node(name: seq<byte>, args: seq<seq<byte>>, literal: seq<bool>, block: seq<Node>)

  datatype Parsed = Nodes(nodes: seq<Node>) | Unbalanced(line: nat) | BadString(line: nat)

  predicate IsMark(t: Token, c: byte) { t.kind == Punct && t.text == [c] }

  /** What follows the name of a statement, and the tokens behind the statement. */
  datatype Tail = Tail(args: seq<seq<byte>>, literal: seq<bool>, block: seq<Node>, rest: seq<Token>)

  function Push(t: Token, tail: Tail): Tail {
    tail.(args := [t.text] + tail.args, literal := [t.kind == Str] + tail.literal)
  }

  /** The statements up to the matching close brace or the end, and the tokens behind them. */
  function Block(ts: seq<Token>, depth: nat): (r: (seq<Node>, seq<Token>))
    ensures |r.1| <= |ts|
    decreases |ts|, 1
  {
    if ts == [] then ([], [])
    else if IsMark(ts[0], CLOSE_BRACE) then ([], if depth > 0 then ts[1..] else ts)
    else if ts[0].kind == Punct then Block(ts[1..], depth)
    else
      var tail := Arguments(ts[1..], ts[0].line, 0, depth);
      var (nodes, rest) := Block(tail.rest, depth);
      ([Node(ts[0].text, tail.args, tail.literal, tail.block)] + nodes, rest)
  }

  /** A statement that started on line `start` ends at its block, at a close brace, or at the next line
      outside parentheses, where only a string goes on. */
  function Arguments(ts: seq<Token>, start: nat, parens: int, depth: nat): (r: Tail)
    ensures |r.rest| <= |ts|
    decreases |ts|, 0
  {
    if ts == [] then Tail([], [], [], [])
    else if IsMark(ts[0], OPEN_PAREN) then Arguments(ts[1..], start, parens + 1, depth)
    else if IsMark(ts[0], CLOSE_PAREN) then Arguments(ts[1..], start, parens - 1, depth)
    else if IsMark(ts[0], OPEN_BRACE) then
      var (nodes, rest) := Block(ts[1..], depth + 1);
      Tail([], [], nodes, rest)
    else if IsMark(ts[0], CLOSE_BRACE) || (ts[0].kind != Str && parens == 0 && ts[0].line > start) then
      Tail([], [], [], ts)
    else Push(ts[0], Arguments(ts[1..], start, parens, depth))
  }

  /** Source to statements. */
  function Parse(src: seq<byte>): Parsed {
    match Lex(src, 0, 1)
    case Unterminated(line) => BadString(line)
    case Tokens(toks) =>
      var (nodes, rest) := Block(toks, 0);
      if rest == [] then Nodes(nodes) else Unbalanced(rest[0].line)
  }

  // ----- the parser, moving one cursor through the tokens

  ghost function Before(nodes: seq<Node>, r: (seq<Node>, seq<Token>)): (seq<Node>, seq<Token>) {
    (nodes + r.0, r.1)
  }

  ghost function Behind(args: seq<seq<byte>>, literal: seq<bool>, tail: Tail): Tail {
    tail.(args := args + tail.args, literal := literal + tail.literal)
  }

  lemma BehindPush(args: seq<seq<byte>>, literal: seq<bool>, t: Token, tail: Tail)
    ensures Behind(args, literal, Push(t, tail)) == Behind(args + [t.text], literal + [t.kind == Str], tail)
  {
    assert args + ([t.text] + tail.args) == args + [t.text] + tail.args;
    assert literal + ([t.kind == Str] + tail.literal) == literal + [t.kind == Str] + tail.literal;
  }

  lemma BehindNothing(args: seq<seq<byte>>, literal: seq<bool>)
    ensures forall nodes, rest :: Behind(args, literal, Tail([], [], nodes, rest)) == Tail(args, literal, nodes, rest)
  {
    assert args + [] == args && literal + [] == literal;
  }

  lemma NoArguments(start: nat, parens: int, depth: nat)
    ensures Arguments([], start, parens, depth) == Tail([], [], [], [])
  {
  }

  /** The parts of a statement one token at a time. */
  lemma ArgumentsStep(ts: seq<Token>, start: nat, parens: int, depth: nat)
    requires ts != []
    ensures Arguments(ts, start, parens, depth) ==
            if IsMark(ts[0], OPEN_PAREN) then Arguments(ts[1..], start, parens + 1, depth)
            else if IsMark(ts[0], CLOSE_PAREN) then Arguments(ts[1..], start, parens - 1, depth)
            else if IsMark(ts[0], OPEN_BRACE) then
              var r := Block(ts[1..], depth + 1); Tail([], [], r.0, r.1)
            else if IsMark(ts[0], CLOSE_BRACE) || (ts[0].kind != Str && parens == 0 && ts[0].line > start) then
              Tail([], [], [], ts)
            else Push(ts[0], Arguments(ts[1..], start, parens, depth))
  {
    hide IsMark, Block;
  }

  class GvParser {
    const toks: seq<Token>
    var pos: nat

    constructor (toks: seq<Token>)
      ensures this.toks == toks && pos == 0
    {
      this.toks, pos := toks, 0;
    }

    method GvBlock(depth: nat) returns (nodes: seq<Node>)
      requires pos <= |toks|
      modifies this
      ensures old(pos) <= pos <= |toks|
      ensures (nodes, toks[pos..]) == Block(toks[old(pos)..], depth)
      decreases |toks| - pos, 1
    {
      hide Arguments;
      nodes := [];
      ghost var whole := Block(toks[pos..], depth);
      assert Before([], whole) == whole by { assert [] + whole.0 == whole.0; }
      while pos < |toks|
        invariant old(pos) <= pos <= |toks|
        invariant whole == Before(nodes, Block(toks[pos..], depth))
        decreases |toks| - pos
      {
        var t := toks[pos];
        assert toks[pos..][0] == t && toks[pos..][1..] == toks[pos + 1..];
        if IsMark(t, CLOSE_BRACE) {
          assert nodes + [] == nodes;
          if depth > 0 { pos := pos + 1; }
          return;
        }
        if t.kind == Punct {
          pos := pos + 1; // no statement starts with punctuation
        } else {
          ghost var from := pos;
          pos := pos + 1;
          var args, literal, block := GvStatement(t.line, depth);
          var node := Node(t.text, args, literal, block);
          NextStatement(toks[from..], depth, nodes, Tail(args, literal, block, toks[pos..]));
          nodes := nodes + [node];
        }
      }
      assert toks[pos..] == [] && nodes + [] == nodes;
    }

    method GvStatement(startLine: nat, depth: nat) returns (args: seq<seq<byte>>, literal: seq<bool>, block: seq<Node>)
      requires pos <= |toks|
      modifies this
      ensures old(pos) <= pos <= |toks|
      ensures Tail(args, literal, block, toks[pos..]) == Arguments(toks[old(pos)..], startLine, 0, depth)
      decreases |toks| - pos, 0
    {
      hide Block, Arguments;
      args, literal, block := [], [], [];
      var parens := 0;
      ghost var whole := Arguments(toks[pos..], startLine, 0, depth);
      while pos < |toks|
        invariant old(pos) <= pos <= |toks| && block == []
        invariant whole == Behind(args, literal, Arguments(toks[pos..], startLine, parens, depth))
        decreases |toks| - pos
      {
        var a := toks[pos];
        assert toks[pos..][0] == a && toks[pos..][1..] == toks[pos + 1..];
        ArgumentsStep(toks[pos..], startLine, parens, depth);
        BehindNothing(args, literal);
        if IsMark(a, OPEN_PAREN) {
          parens, pos := parens + 1, pos + 1;
        } else if IsMark(a, CLOSE_PAREN) {
          parens, pos := parens - 1, pos + 1;
        } else if IsMark(a, OPEN_BRACE) {
          pos := pos + 1;
          block := GvBlock(depth + 1);
          return;
        } else if IsMark(a, CLOSE_BRACE) || (a.kind != Str && parens == 0 && a.line > startLine) {
          return;
        } else {
          BehindPush(args, literal, a, Arguments(toks[pos + 1..], startLine, parens, depth));
          args, literal, pos := args + [a.text], literal + [a.kind == Str], pos + 1;
        }
      }
      assert toks[pos..] == [];
      NoArguments(startLine, parens, depth);
      BehindNothing(args, literal);
    }
  }

  lemma NextStatement(ts: seq<Token>, depth: nat, nodes: seq<Node>, tail: Tail)
    requires ts != [] && ts[0].kind != Punct && tail == Arguments(ts[1..], ts[0].line, 0, depth)
    ensures Before(nodes, Block(ts, depth)) ==
            Before(nodes + [Node(ts[0].text, tail.args, tail.literal, tail.block)], Block(tail.rest, depth))
  {
    var node := Node(ts[0].text, tail.args, tail.literal, tail.block);
    assert nodes + ([node] + Block(tail.rest, depth).0) == nodes + [node] + Block(tail.rest, depth).0;
  }

  method GvParse(src: seq<byte>) returns (r: Parsed)
    ensures r == Parse(src)
  {
    var lexed := GvLex(src);
    if lexed.Unterminated? { return BadString(lexed.line); }
    var p := new GvParser(lexed.toks);
    assert lexed.toks[0..] == lexed.toks;
    var nodes := p.GvBlock(0);
    if p.pos < |lexed.toks| { return Unbalanced(lexed.toks[p.pos].line); }
    r := Nodes(nodes);
  }

  // ----- nothing but punctuation is lost

  /** A word of the pre-order walk: a statement's name, or one of its arguments. */
  datatype Entry = Name(text: seq<byte>) | Arg(text: seq<byte>, literal: bool)

  function Walk(nodes: seq<Node>): seq<Entry>
    decreases nodes
  {
    if nodes == [] then [] else WalkNode(nodes[0]) + Walk(nodes[1..])
  }

  function WalkNode(n: Node): seq<Entry>
    decreases n
  {
    [Name(n.name)] + ArgEntries(n.args, n.literal) + Walk(n.block)
  }

  function ArgEntries(args: seq<seq<byte>>, literal: seq<bool>): seq<Entry> {
    if args == [] || literal == [] then [] else [Arg(args[0], literal[0])] + ArgEntries(args[1..], literal[1..])
  }

  predicate Matches(t: Token, e: Entry) {
    t.text == e.text && (e.Name? ==> t.kind != Punct) && (e.Arg? ==> e.literal == (t.kind == Str))
  }

  /** `es` is `ts` with some of the punctuation left out: every identifier and every string is there, once, in order. */
  predicate Keeps(ts: seq<Token>, es: seq<Entry>) {
    if ts == [] then es == []
    else
      || (ts[0].kind == Punct && Keeps(ts[1..], es))
      || (es != [] && Matches(ts[0], es[0]) && Keeps(ts[1..], es[1..]))
  }

  lemma {:induction false} KeepsJoin(a: seq<Token>, x: seq<Entry>, b: seq<Token>, y: seq<Entry>)
    requires Keeps(a, x) && Keeps(b, y)
    ensures Keeps(a + b, x + y)
    decreases |a|
  {
    if a == [] {
      assert a + b == b && x + y == y;
    } else {
      assert (a + b)[1..] == a[1..] + b;
      if a[0].kind == Punct && Keeps(a[1..], x) {
        KeepsJoin(a[1..], x, b, y);
      } else {
        KeepsJoin(a[1..], x[1..], b, y);
        assert (x + y)[1..] == x[1..] + y;
      }
    }
  }

  /** The tokens of `ts` in front of its suffix `rest`. */
  function Taken(ts: seq<Token>, rest: seq<Token>): seq<Token>
    requires |rest| <= |ts|
  {
    ts[..|ts| - |rest|]
  }

  ghost predicate IsSuffix(rest: seq<Token>, ts: seq<Token>) {
    |rest| <= |ts| && rest == ts[|ts| - |rest|..]
  }

  lemma TakenSplit(ts: seq<Token>, n: nat, rest: seq<Token>)
    requires n <= |ts| && IsSuffix(rest, ts[n..])
    ensures IsSuffix(rest, ts) && Taken(ts, rest) == ts[..n] + Taken(ts[n..], rest)
  {
  }

  lemma {:induction false} BlockKeeps(ts: seq<Token>, depth: nat)
    ensures IsSuffix(Block(ts, depth).1, ts)
    ensures Keeps(Taken(ts, Block(ts, depth).1), Walk(Block(ts, depth).0))
    decreases |ts|, 1
  {
    if ts == [] {
    } else if IsMark(ts[0], CLOSE_BRACE) {
      assert Walk([]) == [];
      if depth > 0 { assert Taken(ts, ts[1..]) == [ts[0]]; } else { assert Taken(ts, ts) == []; }
    } else if ts[0].kind == Punct {
      BlockKeeps(ts[1..], depth);
      SkipKeeps(ts, Block(ts, depth).1, Walk(Block(ts, depth).0));
    } else {
      var tail := Arguments(ts[1..], ts[0].line, 0, depth);
      ArgumentsKeep(ts[1..], ts[0].line, 0, depth);
      BlockKeeps(tail.rest, depth);
      var (nodes, rest) := Block(tail.rest, depth);
      var node := Node(ts[0].text, tail.args, tail.literal, tail.block);
      StatementKeeps(ts, tail, node);
      assert Block(ts, depth).0 == [node] + nodes;
      assert ([node] + nodes)[1..] == nodes;
      var n := |ts| - |tail.rest|;
      assert ts[n..] == tail.rest;
      TakenSplit(ts, n, rest);
      KeepsJoin(Taken(ts, tail.rest), WalkNode(node), Taken(tail.rest, rest), Walk(nodes));
    }
  }

  lemma StatementKeeps(ts: seq<Token>, tail: Tail, node: Node)
    requires ts != [] && ts[0].kind != Punct && IsSuffix(tail.rest, ts[1..])
    requires Keeps(Taken(ts[1..], tail.rest), ArgEntries(tail.args, tail.literal) + Walk(tail.block))
    requires node == Node(ts[0].text, tail.args, tail.literal, tail.block)
    ensures IsSuffix(tail.rest, ts) && Keeps(Taken(ts, tail.rest), WalkNode(node))
  {
    TakenSplit(ts, 1, tail.rest);
    var es := ArgEntries(tail.args, tail.literal) + Walk(tail.block);
    assert WalkNode(node) == [Name(node.name)] + es;
    assert WalkNode(node)[1..] == es;
    assert Taken(ts, tail.rest)[1..] == Taken(ts[1..], tail.rest);
  }

  lemma {:induction false} ArgumentsKeep(ts: seq<Token>, start: nat, parens: int, depth: nat)
    ensures var tail := Arguments(ts, start, parens, depth);
            && IsSuffix(tail.rest, ts)
            && Keeps(Taken(ts, tail.rest), ArgEntries(tail.args, tail.literal) + Walk(tail.block))
    decreases |ts|, 0
  {
    var tail := Arguments(ts, start, parens, depth);
    var es := ArgEntries(tail.args, tail.literal) + Walk(tail.block);
    if ts == [] {
    } else if IsMark(ts[0], OPEN_PAREN) || IsMark(ts[0], CLOSE_PAREN) {
      ArgumentsKeep(ts[1..], start, if IsMark(ts[0], OPEN_PAREN) then parens + 1 else parens - 1, depth);
      SkipKeeps(ts, tail.rest, es);
    } else if IsMark(ts[0], OPEN_BRACE) {
      BlockKeeps(ts[1..], depth + 1);
      assert es == Walk(tail.block);
      SkipKeeps(ts, tail.rest, es);
    } else if IsMark(ts[0], CLOSE_BRACE) || (ts[0].kind != Str && parens == 0 && ts[0].line > start) {
      assert Taken(ts, ts) == [];
    } else {
      ArgumentsKeep(ts[1..], start, parens, depth);
      PushKeeps(ts, Arguments(ts[1..], start, parens, depth));
    }
  }

  lemma SkipKeeps(ts: seq<Token>, rest: seq<Token>, es: seq<Entry>)
    requires ts != [] && ts[0].kind == Punct && IsSuffix(rest, ts[1..])
    requires Keeps(Taken(ts[1..], rest), es)
    ensures IsSuffix(rest, ts) && Keeps(Taken(ts, rest), es)
  {
    TakenSplit(ts, 1, rest);
    assert Taken(ts, rest)[1..] == Taken(ts[1..], rest);
  }

  lemma PushKeeps(ts: seq<Token>, more: Tail)
    requires ts != [] && IsSuffix(more.rest, ts[1..])
    requires Keeps(Taken(ts[1..], more.rest), ArgEntries(more.args, more.literal) + Walk(more.block))
    ensures var tail := Push(ts[0], more);
            IsSuffix(tail.rest, ts) && Keeps(Taken(ts, tail.rest), ArgEntries(tail.args, tail.literal) + Walk(tail.block))
  {
    var tail := Push(ts[0], more);
    var es := ArgEntries(tail.args, tail.literal) + Walk(tail.block);
    TakenSplit(ts, 1, tail.rest);
    assert Taken(ts, tail.rest)[1..] == Taken(ts[1..], tail.rest);
    assert tail.args[1..] == more.args && tail.literal[1..] == more.literal;
    assert es[1..] == ArgEntries(more.args, more.literal) + Walk(more.block);
  }

  /** A successful parse accounts for every token. */
  lemma ParseKeepsTokens(src: seq<byte>)
    requires Parse(src).Nodes?
    ensures Keeps(Lex(src, 0, 1).toks, Walk(Parse(src).nodes))
  {
    var toks := Lex(src, 0, 1).toks;
    BlockKeeps(toks, 0);
    assert Taken(toks, []) == toks;
  }
}
