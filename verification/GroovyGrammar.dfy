/** The parser against a grammar: every token list has one reading into statements, their parts and their blocks, up
    to a close brace that nothing opened, and the parser yields the statements of that reading. */
module GroovyGrammar {
  import opened Streams
  import opened GroovyLexer
  import opened GroovyParser

  /** A part of a statement: a parenthesis, or an argument. */
  datatype Part = Paren(t: Token) | Argument(t: Token)

  /** A statement ends in front of something else, or with a block; `close` is its close brace, if there is one. */
  datatype Ending = Next | Opened(open: Token, items: seq<Item>, close: seq<Token>)

  /** What stands in a block: punctuation that belongs to no statement, and statements. */
  datatype Item = Stray(t: Token) | Stmt(name: Token, parts: seq<Part>, end: Ending)

  // ----- the tokens of a reading

  function Spell(items: seq<Item>): seq<Token>
    decreases items
  {
    if items == [] then [] else SpellItem(items[0]) + Spell(items[1..])
  }

  function SpellItem(i: Item): seq<Token>
    decreases i
  {
    match i
    case Stray(t) => [t]
    case Stmt(name, parts, end) => [name] + (SpellParts(parts) + SpellEnding(end))
  }

  function SpellParts(parts: seq<Part>): seq<Token> {
    if parts == [] then [] else [parts[0].t] + SpellParts(parts[1..])
  }

  function SpellEnding(end: Ending): seq<Token>
    decreases end
  {
    match end
    case Next => []
    case Opened(open, items, close) => [open] + (Spell(items) + close)
  }

  // ----- which readings there are

  predicate IsParen(t: Token) { IsMark(t, OPEN_PAREN) || IsMark(t, CLOSE_PAREN) }

  predicate IsBrace(t: Token) { IsMark(t, OPEN_BRACE) || IsMark(t, CLOSE_BRACE) }

  predicate AtClose(ts: seq<Token>) { ts != [] && IsMark(ts[0], CLOSE_BRACE) }

  /** How many more parentheses are open behind a part. */
  function Opens(p: Part): int { if p.Argument? then 0 else if IsMark(p.t, OPEN_PAREN) then 1 else -1 }

  function AllOpens(parts: seq<Part>): int { if parts == [] then 0 else Opens(parts[0]) + AllOpens(parts[1..]) }

  /** A statement goes on over the end of its line only with a string, or inside parentheses. */
  predicate GoesOn(t: Token, start: nat, parens: int) { t.kind == Str || parens != 0 || t.line <= start }

  /** Parts of a statement that started on line `start`, behind `parens` open parentheses. */
  ghost predicate PartsFit(parts: seq<Part>, start: nat, parens: int) {
    parts == []
    || (var p := parts[0];
        && (if p.Paren? then IsParen(p.t) else !IsParen(p.t) && !IsBrace(p.t) && GoesOn(p.t, start, parens))
        && PartsFit(parts[1..], start, parens + Opens(p)))
  }

  /** A statement ends with its block, or in front of the end, a close brace, or a token that does not go on with it.
      Only the end of the tokens may stand for a close brace. */
  ghost predicate EndFits(end: Ending, start: nat, parens: int, rest: seq<Token>)
    decreases end, 0
  {
    match end
    case Next => rest == [] || AtClose(rest) || (!IsParen(rest[0]) && !IsBrace(rest[0]) && !GoesOn(rest[0], start, parens))
    case Opened(open, items, close) =>
      && IsMark(open, OPEN_BRACE)
      && (if close == [] then rest == [] else |close| == 1 && AtClose(close))
      && Reads(items, close + rest)
  }

  ghost predicate ItemFits(i: Item, rest: seq<Token>)
    decreases i, 0
  {
    match i
    case Stray(t) => t.kind == Punct && !IsMark(t, CLOSE_BRACE)
    case Stmt(name, parts, end) =>
      name.kind != Punct && PartsFit(parts, name.line, 0) && EndFits(end, name.line, AllOpens(parts), rest)
  }

  /** The items are how the tokens in front of `rest` are to be read. */
  ghost predicate Reads(items: seq<Item>, rest: seq<Token>)
    decreases items, 1
  {
    items == [] || (ItemFits(items[0], Spell(items[1..]) + rest) && Reads(items[1..], rest))
  }

  // ----- the statements of a reading

  function Texts(parts: seq<Part>): seq<seq<byte>> {
    if parts == [] then [] else (if parts[0].Argument? then [parts[0].t.text] else []) + Texts(parts[1..])
  }

  function Literals(parts: seq<Part>): seq<bool> {
    if parts == [] then [] else (if parts[0].Argument? then [parts[0].t.kind == Str] else []) + Literals(parts[1..])
  }

  function NodesOf(items: seq<Item>): seq<Node>
    decreases items
  {
    if items == [] then [] else NodesOfItem(items[0]) + NodesOf(items[1..])
  }

  function NodesOfItem(i: Item): seq<Node>
    decreases i
  {
    match i
    case Stray(_) => []
    case Stmt(name, parts, end) => [Node(name.text, Texts(parts), Literals(parts), BlockOf(end))]
  }

  function BlockOf(end: Ending): seq<Node>
    decreases end
  {
    match end case Next => [] case Opened(_, items, _) => NodesOf(items)
  }

  // ----- every reading is what the parser makes of its tokens

  /** Behind a block: the close brace is taken, unless nothing opened the block. */
  function Behind(rest: seq<Token>, depth: nat): seq<Token> { if rest != [] && depth > 0 then rest[1..] else rest }

  lemma {:induction false} ReadingIsParsed(items: seq<Item>, rest: seq<Token>, depth: nat)
    requires Reads(items, rest) && (rest == [] || AtClose(rest))
    ensures Block(Spell(items) + rest, depth) == (NodesOf(items), Behind(rest, depth))
    decreases items, 0
  {
    hide Arguments, ItemFits;
    var ts := Spell(items) + rest;
    if items == [] {
      assert ts == rest;
    } else {
      var more := Spell(items[1..]) + rest;
      assert ts == SpellItem(items[0]) + more;
      ReadingIsParsed(items[1..], rest, depth);
      ItemIsParsed(items[0], more, depth);
    }
  }

  lemma ItemIsParsed(i: Item, more: seq<Token>, depth: nat)
    requires ItemFits(i, more)
    ensures var (nodes, rest) := Block(more, depth); Block(SpellItem(i) + more, depth) == (NodesOfItem(i) + nodes, rest)
    decreases i, 0
  {
    hide Arguments, PartsFit, EndFits;
    var ts := SpellItem(i) + more;
    match i
    case Stray(t) =>
      assert ts[1..] == more;
      assert [] + Block(more, depth).0 == Block(more, depth).0;
    case Stmt(name, parts, end) =>
      assert ts[1..] == SpellParts(parts) + SpellEnding(end) + more;
      PartsAreParsed(parts, end, name.line, 0, depth, more);
      assert ts[0] == name;
  }

  lemma {:induction false} PartsAreParsed(parts: seq<Part>, end: Ending, start: nat, parens: int, depth: nat, rest: seq<Token>)
    requires PartsFit(parts, start, parens) && EndFits(end, start, parens + AllOpens(parts), rest)
    ensures Arguments(SpellParts(parts) + SpellEnding(end) + rest, start, parens, depth)
         == Tail(Texts(parts), Literals(parts), BlockOf(end), rest)
    decreases end, 1 + |parts|
  {
    hide Block, EndFits, Arguments, IsMark, BlockOf;
    var ts := SpellParts(parts) + SpellEnding(end) + rest;
    if parts == [] {
      assert ts == SpellEnding(end) + rest;
      EndIsParsed(end, start, parens, depth, rest);
    } else {
      var p := parts[0];
      assert ts[0] == p.t && ts[1..] == SpellParts(parts[1..]) + SpellEnding(end) + rest;
      PartsAreParsed(parts[1..], end, start, parens + Opens(p), depth, rest);
      ArgumentsStep(ts, start, parens, depth);
      assert [] + Texts(parts[1..]) == Texts(parts[1..]) && [] + Literals(parts[1..]) == Literals(parts[1..]);
    }
  }

  lemma EndIsParsed(end: Ending, start: nat, parens: int, depth: nat, rest: seq<Token>)
    requires EndFits(end, start, parens, rest)
    ensures Arguments(SpellEnding(end) + rest, start, parens, depth) == Tail([], [], BlockOf(end), rest)
    decreases end, 0
  {
    hide Block, Reads;
    var ts := SpellEnding(end) + rest;
    match end
    case Next =>
      assert ts == rest;
    case Opened(open, items, close) =>
      assert ts[0] == open && ts[1..] == Spell(items) + (close + rest);
      ReadingIsParsed(items, close + rest, depth + 1);
      if close != [] { assert (close + rest)[1..] == rest; }
  }

  // ----- every token list has a reading

  lemma {:induction false} SomeReading(ts: seq<Token>) returns (items: seq<Item>, rest: seq<Token>)
    ensures ts == Spell(items) + rest && Reads(items, rest) && (rest == [] || AtClose(rest))
    decreases |ts|, 2
  {
    hide Spell, SpellItem, Reads, ItemFits, PartsFit, EndFits;
    if ts == [] || AtClose(ts) {
      items, rest := [], ts;
      EmptyReading(ts);
    } else {
      var i, more := SomeItem(ts);
      items, rest := SomeReading(more);
      OneMoreItem(i, items, rest);
      items := [i] + items;
    }
  }

  lemma EmptyReading(ts: seq<Token>)
    ensures Reads([], ts) && ts == Spell([]) + ts
  {
  }

  lemma SomeItem(ts: seq<Token>) returns (i: Item, rest: seq<Token>)
    requires ts != [] && !AtClose(ts)
    ensures ts == SpellItem(i) + rest && |rest| < |ts| && ItemFits(i, rest)
    decreases |ts|, 1
  {
    hide PartsFit, EndFits;
    if ts[0].kind == Punct {
      i, rest := Stray(ts[0]), ts[1..];
    } else {
      var parts, end, more := SomeParts(ts[1..], ts[0].line, 0);
      i, rest := Stmt(ts[0], parts, end), more;
      assert ts == [ts[0]] + ts[1..];
      assert SpellItem(i) + rest == [ts[0]] + (SpellParts(parts) + SpellEnding(end) + rest);
    }
  }

  lemma OneMoreItem(i: Item, items: seq<Item>, rest: seq<Token>)
    requires ItemFits(i, Spell(items) + rest) && Reads(items, rest)
    ensures Reads([i] + items, rest) && Spell([i] + items) + rest == SpellItem(i) + (Spell(items) + rest)
  {
    hide ItemFits, SpellItem;
    assert ([i] + items)[1..] == items;
  }

  lemma {:induction false} SomeParts(ts: seq<Token>, start: nat, parens: int)
    returns (parts: seq<Part>, end: Ending, rest: seq<Token>)
    ensures |rest| <= |ts| && ts == SpellParts(parts) + SpellEnding(end) + rest
    ensures PartsFit(parts, start, parens) && EndFits(end, start, parens + AllOpens(parts), rest)
    decreases |ts|, 1
  {
    hide Reads, Spell, SpellParts, SpellEnding, PartsFit, EndFits, AllOpens;
    NoParts(ts, start, parens);
    if ts == [] || AtClose(ts) || !(IsMark(ts[0], OPEN_BRACE) || IsParen(ts[0]) || GoesOn(ts[0], start, parens)) {
      parts, end, rest := [], Next, ts;
    } else if IsMark(ts[0], OPEN_BRACE) {
      parts := [];
      end, rest := SomeBlock(ts, start, parens);
    } else {
      var p := if IsParen(ts[0]) then Paren(ts[0]) else Argument(ts[0]);
      parts, end, rest := SomeParts(ts[1..], start, parens + Opens(p));
      OneMorePart(p, parts, SpellEnding(end), rest, start, parens);
      parts := [p] + parts;
      assert ts == [ts[0]] + ts[1..];
    }
  }

  lemma NoParts(ts: seq<Token>, start: nat, parens: int)
    ensures PartsFit([], start, parens) && AllOpens([]) == 0
    ensures SpellParts([]) + SpellEnding(Next) + ts == ts && forall e :: SpellParts([]) + SpellEnding(e) == SpellEnding(e)
    ensures (ts == [] || AtClose(ts) || !(IsBrace(ts[0]) || IsParen(ts[0]) || GoesOn(ts[0], start, parens))) ==>
              EndFits(Next, start, parens, ts)
  {
  }

  /** A block at the front, with its close brace if there is one. */
  lemma SomeBlock(ts: seq<Token>, start: nat, parens: int) returns (end: Ending, rest: seq<Token>)
    requires ts != [] && IsMark(ts[0], OPEN_BRACE)
    ensures |rest| < |ts| && ts == SpellEnding(end) + rest && EndFits(end, start, parens, rest)
    decreases |ts|, 0
  {
    hide Reads, Spell;
    var items, more := SomeReading(ts[1..]);
    var close := if more == [] then [] else [more[0]];
    end, rest := Opened(ts[0], items, close), more[|close|..];
    assert close + rest == more;
    assert ts == [ts[0]] + (Spell(items) + close) + rest;
  }

  lemma OneMorePart(p: Part, parts: seq<Part>, spelled: seq<Token>, rest: seq<Token>, start: nat, parens: int)
    requires PartsFit(parts, start, parens + Opens(p))
    requires if p.Paren? then IsParen(p.t) else !IsParen(p.t) && !IsBrace(p.t) && GoesOn(p.t, start, parens)
    ensures SpellParts([p] + parts) + spelled + rest == [p.t] + (SpellParts(parts) + spelled + rest)
    ensures AllOpens([p] + parts) == Opens(p) + AllOpens(parts) && PartsFit([p] + parts, start, parens)
  {
    assert ([p] + parts)[1..] == parts;
  }

  // ----- the outcome of parsing, by readings

  /** `src` tokenizes to what the items spell and then `rest`, which is empty or starts at a close brace of its own. */
  ghost predicate IsReading(src: seq<byte>, items: seq<Item>, rest: seq<Token>) {
    Lex(src, 0, 1) == Tokens(Spell(items) + rest) && Reads(items, rest) && (rest == [] || AtClose(rest))
  }

  lemma ReadingDecides(src: seq<byte>, items: seq<Item>, rest: seq<Token>)
    requires IsReading(src, items, rest)
    ensures Parse(src) == if rest == [] then Nodes(NodesOf(items)) else Unbalanced(rest[0].line)
  {
    hide Lex, Block, Reads;
    ReadingIsParsed(items, rest, 0);
  }

  /** A source that tokenizes parses exactly if the reading of its tokens leaves nothing over, and then to the
      statements of the reading; else the error names the line of the first close brace that nothing opened. */
  lemma ParseIsReading(src: seq<byte>)
    ensures forall nodes :: Parse(src) == Nodes(nodes) <==> exists items :: IsReading(src, items, []) && nodes == NodesOf(items)
    ensures forall line :: Parse(src) == Unbalanced(line) <==>
              exists items, rest: seq<Token> :: IsReading(src, items, rest) && rest != [] && line == rest[0].line
    ensures forall line :: Parse(src) == BadString(line) <==> Lex(src, 0, 1) == Unterminated(line)
  {
    hide Lex, Block, Reads, Spell, NodesOf, IsReading;
    forall items, rest: seq<Token> | IsReading(src, items, rest)
      ensures Parse(src) == if rest == [] then Nodes(NodesOf(items)) else Unbalanced(rest[0].line)
    {
      ReadingDecides(src, items, rest);
    }
    if Lex(src, 0, 1).Tokens? {
      var items, rest := SourceReading(src);
      assert IsReading(src, items, rest);
    }
  }

  lemma SourceReading(src: seq<byte>) returns (items: seq<Item>, rest: seq<Token>)
    requires Lex(src, 0, 1).Tokens?
    ensures IsReading(src, items, rest)
  {
    hide Lex, Reads;
    items, rest := SomeReading(Lex(src, 0, 1).toks);
  }

  /** A source without close braces parses, whatever other punctuation it has between its statements. */
  lemma NoCloseBraceParses(src: seq<byte>)
    requires Lex(src, 0, 1).Tokens? && forall t <- Lex(src, 0, 1).toks :: !IsMark(t, CLOSE_BRACE)
    ensures Parse(src).Nodes?
  {
    hide Lex, Reads, Block;
    var items, rest := SourceReading(src);
    ReadingDecides(src, items, rest);
  }
}
