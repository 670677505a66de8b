/** Parameter tokens by the text they have, and substitution by a reading of the text into tokens and characters. */
module OrbTokens {
  import opened Wrappers
  import opened Orbs

  predicate AllBlank(s: string) { forall c <- s :: c in " \t\n\U{000C}\r" }

  predicate IsName(s: string) {
    s != "" && forall c <- s :: 'a' <= c <= 'z' || 'A' <= c <= 'Z' || '0' <= c <= '9' || c == '_' || c == '-'
  }

  /** `t` is a token for `name`, with blanks around what it says. */
  ghost predicate IsToken(t: string, name: string) {
    IsName(name) && exists a, b :: AllBlank(a) && AllBlank(b) && t == "<<" + a + "parameters." + name + b + ">>"
  }

  // ----- the token that starts at an offset

  lemma {:induction false} BlanksEnd(s: string, i: nat, e: nat)
    requires i <= e <= |s| && AllBlank(s[i..e]) && (e < |s| ==> !AllBlank([s[e]]))
    ensures SkipBlanks(s, i) == e
    decreases e - i
  {
    if i < e {
      assert s[i..e][0] == s[i] && s[i] in s[i..e];
      assert s[i..e][1..] == s[i + 1..e];
      BlanksEnd(s, i + 1, e);
    } else if e < |s| {
      assert s[e] in [s[e]];
    }
  }

  lemma {:induction false} BlanksAre(s: string, i: nat)
    requires i <= |s|
    ensures AllBlank(s[i..SkipBlanks(s, i)])
    decreases |s| - i
  {
    if i < |s| && IsBlank(s[i]) {
      BlanksAre(s, i + 1);
      assert s[i..SkipBlanks(s, i)] == [s[i]] + s[i + 1..SkipBlanks(s, i)];
    }
  }

  lemma {:induction false} NameEnds(s: string, i: nat, e: nat)
    requires i <= e <= |s| && (i < e ==> IsName(s[i..e])) && (e < |s| ==> !IsNameChar(s[e]))
    ensures SkipName(s, i) == e
    decreases e - i
  {
    if i < e {
      assert s[i] == s[i..e][0] && s[i] in s[i..e];
      if i + 1 < e { TailIsName(s[i..e]); assert s[i..e][1..] == s[i + 1..e]; }
      NameEnds(s, i + 1, e);
    }
  }

  lemma TailIsName(s: string)
    requires IsName(s) && |s| > 1
    ensures IsName(s[1..])
  {
    forall c | c in s[1..] ensures c in s {}
  }

  lemma {:induction false} NameIs(s: string, i: nat)
    requires i <= |s|
    ensures SkipName(s, i) > i ==> IsName(s[i..SkipName(s, i)])
    decreases |s| - i
  {
    if i < |s| && IsNameChar(s[i]) {
      NameIs(s, i + 1);
      assert s[i..SkipName(s, i)] == [s[i]] + s[i + 1..SkipName(s, i)];
    }
  }

  predicate Stands(s: string, i: nat, p: string) { i + |p| <= |s| && s[i..i + |p|] == p }

  /** The steps of the search, once the text in front of the name is there. */
  lemma TokenAtIs(s: string, i: nat, j: nat, k: nat, l: nat)
    requires Stands(s, i, "<<") && j == SkipBlanks(s, i + 2)
    requires Stands(s, j, "parameters.") && k == SkipName(s, j + 11) && l == SkipBlanks(s, k)
    ensures if k > j + 11 && Stands(s, l, ">>") then TokenAt(s, i) == Some((s[j + 11..k], l + 2)) else TokenAt(s, i).None?
  {
    hide SkipBlanks, SkipName, Stands;
    FrontIs(s, i, "<<");
    FrontIs(s, j, "parameters.");
    FrontIs(s, l, ">>");
  }

  lemma TokenHasFront(s: string, i: nat)
    requires i <= |s| && TokenAt(s, i).Some?
    ensures Stands(s, i, "<<") && Stands(s, SkipBlanks(s, i + 2), "parameters.")
  {
    hide SkipBlanks, SkipName, Stands;
    FrontIs(s, i, "<<");
    var j := SkipBlanks(s, i + 2);
    FrontIs(s, j, "parameters.");
  }

  lemma TokenIs(s: string, i: nat)
    requires i <= |s| && TokenAt(s, i).Some?
    ensures var (name, end) := TokenAt(s, i).value; IsToken(s[i..end], name)
  {
    hide TokenAt, AllBlank, IsName, IsToken, SkipBlanks, SkipName, Stands;
    TokenHasFront(s, i);
    StandsInside(s, i, "<<");
    StandsInside(s, SkipBlanks(s, i + 2), "parameters.");
    var j := SkipBlanks(s, i + 2);
    var k := SkipName(s, j + 11);
    var l := SkipBlanks(s, k);
    TokenAtIs(s, i, j, k, l);
    BlanksAre(s, i + 2);
    NameIs(s, j + 11);
    BlanksAre(s, k);
    Assembled(s, i, j, k, l);
    TokenOf(s[i + 2..j], s[j + 11..k], s[k..l]);
  }

  lemma StandsInside(s: string, i: nat, p: string)
    requires Stands(s, i, p)
    ensures i + |p| <= |s|
  {
  }

  lemma Assembled(s: string, i: nat, j: nat, k: nat, l: nat)
    requires i + 2 <= j && j + 11 <= k <= l && Stands(s, i, "<<") && Stands(s, j, "parameters.") && Stands(s, l, ">>")
    ensures l + 2 <= |s| && s[i..l + 2] == "<<" + s[i + 2..j] + "parameters." + s[j + 11..k] + s[k..l] + ">>"
  {
    Sliced(s, i, i + 2, j, j + 11, k, l, l + 2);
  }

  lemma TokenOf(a: string, name: string, b: string)
    requires AllBlank(a) && IsName(name) && AllBlank(b)
    ensures IsToken("<<" + a + "parameters." + name + b + ">>", name)
  {
    hide AllBlank, IsName;
  }

  lemma FrontIs(s: string, i: nat, p: string)
    requires i <= |s|
    ensures p <= s[i..] <==> Stands(s, i, p)
  {
    if i + |p| <= |s| { assert s[i..][..|p|] == s[i..i + |p|]; }
  }

  lemma Sliced(s: string, a: nat, b: nat, c: nat, d: nat, e: nat, f: nat, g: nat)
    requires a <= b <= c <= d <= e <= f <= g <= |s|
    ensures s[a..g] == s[a..b] + s[b..c] + s[c..d] + s[d..e] + s[e..f] + s[f..g]
  {
    Joins(s, a, b, c);
    Joins(s, a, c, d);
    Joins(s, a, d, e);
    Joins(s, a, e, f);
    Joins(s, a, f, g);
  }

  lemma Joins(s: string, a: nat, b: nat, c: nat)
    requires a <= b <= c <= |s|
    ensures s[a..c] == s[a..b] + s[b..c]
  {
  }

  lemma TokenFound(s: string, i: nat, end: nat, name: string)
    requires i <= end <= |s| && IsToken(s[i..end], name)
    ensures TokenAt(s, i) == Some((name, end))
  {
    hide TokenAt, AllBlank, IsName, SkipBlanks, SkipName;
    var a, b :| AllBlank(a) && AllBlank(b) && s[i..end] == "<<" + a + "parameters." + name + b + ">>";
    PartsOf(s, i, end, a, name, b);
    SearchFinds(s, i, a, name, b);
  }

  /** The blanks and the name end where they should. */
  lemma SearchFinds(s: string, i: nat, a: string, name: string, b: string)
    requires AllBlank(a) && IsName(name) && AllBlank(b)
    requires var j, k, l := i + 2 + |a|, i + 13 + |a| + |name|, i + 13 + |a| + |name| + |b|;
             && Stands(s, i, "<<") && Stands(s, i + 2, a) && Stands(s, j, "parameters.")
             && Stands(s, j + 11, name) && Stands(s, k, b) && Stands(s, l, ">>")
    ensures TokenAt(s, i) == Some((name, i + 15 + |a| + |name| + |b|))
  {
    hide TokenAt, AllBlank, IsName, SkipBlanks, SkipName;
    var j, k, l := i + 2 + |a|, i + 13 + |a| + |name|, i + 13 + |a| + |name| + |b|;
    assert s[j] == s[j..j + 11][0] && s[l] == s[l..l + 2][0];
    NotBlank(s, j);
    NotBlank(s, l);
    BlanksEnd(s, i + 2, j);
    NotNameChar(s, k, b);
    NameEnds(s, j + 11, k);
    BlanksEnd(s, k, l);
    NameIsSomething(name);
    TokenAtIs(s, i, j, k, l);
  }

  lemma NameIsSomething(name: string)
    requires IsName(name)
    ensures name != ""
  {
  }

  lemma PartsOf(s: string, i: nat, end: nat, a: string, name: string, b: string)
    requires i <= end <= |s| && s[i..end] == "<<" + a + "parameters." + name + b + ">>"
    ensures var j, k, l := i + 2 + |a|, i + 13 + |a| + |name|, i + 13 + |a| + |name| + |b|;
            && l + 2 == end && Stands(s, i, "<<") && Stands(s, i + 2, a) && Stands(s, j, "parameters.")
            && Stands(s, j + 11, name) && Stands(s, k, b) && Stands(s, l, ">>")
  {
    var j, k, l := i + 2 + |a|, i + 13 + |a| + |name|, i + 13 + |a| + |name| + |b|;
    Halved(s, i, end, "<<" + a + "parameters." + name + b, ">>");
    Halved(s, i, l, "<<" + a + "parameters." + name, b);
    Halved(s, i, k, "<<" + a + "parameters.", name);
    Halved(s, i, j + 11, "<<" + a, "parameters.");
    Halved(s, i, j, "<<", a);
  }

  lemma Halved(s: string, i: nat, end: nat, u: string, v: string)
    requires i <= end <= |s| && s[i..end] == u + v
    ensures i + |u| + |v| == end && s[i..i + |u|] == u && s[i + |u|..end] == v
  {
    assert s[i..end][..|u|] == s[i..i + |u|] && s[i..end][|u|..] == s[i + |u|..end];
  }

  lemma NotBlank(s: string, i: nat)
    requires i < |s| && (s[i] == 'p' || s[i] == '>')
    ensures !AllBlank([s[i]])
  {
    assert s[i] in [s[i]];
  }

  lemma NotNameChar(s: string, k: nat, b: string)
    requires k + |b| < |s| && s[k..k + |b|] == b && AllBlank(b) && s[k + |b|] == '>'
    ensures !IsNameChar(s[k])
  {
    if b != "" { assert s[k] == b[0] && b[0] in b; }
  }

  lemma TokenAtMeans(s: string, i: nat, end: nat, name: string)
    requires i <= end <= |s|
    ensures TokenAt(s, i) == Some((name, end)) <==> IsToken(s[i..end], name)
  {
    hide TokenAt, IsToken;
    if TokenAt(s, i) == Some((name, end)) { TokenIs(s, i); }
    if IsToken(s[i..end], name) { TokenFound(s, i, end, name); }
  }

  // ----- substitution

  datatype Segment = Plain(c: char) | Token(text: string, name: string)

  function Source(g: Segment): string { if g.Plain? then [g.c] else g.text }

  ghost predicate NoTokenAtFront(s: string) {
    forall end: nat, name :: end <= |s| ==> !IsToken(s[..end], name)
  }

  /** The segments, one after the other, are the text: tokens, and characters at which none starts. */
  ghost predicate Reads(gs: seq<Segment>, s: string) {
    if gs == [] then s == ""
    else
      && Source(gs[0]) <= s
      && (if gs[0].Plain? then NoTokenAtFront(s) else IsToken(gs[0].text, gs[0].name))
      && Reads(gs[1..], s[|Source(gs[0])|..])
  }

  function Replaced(gs: seq<Segment>, params: Params): string {
    if gs == [] then ""
    else (if gs[0].Token? && gs[0].name in params then params[gs[0].name] else Source(gs[0])) + Replaced(gs[1..], params)
  }

  /** The first parameter that the text mentions. */
  function Mentioned(gs: seq<Segment>): Option<string> {
    if gs == [] then None else if gs[0].Token? then Some(gs[0].name) else Mentioned(gs[1..])
  }

  lemma SuffixFront(s: string, i: nat, end: nat)
    requires i <= end <= |s|
    ensures s[i..][..end - i] == s[i..end]
  {
  }

  lemma NoTokenMeans(s: string, i: nat)
    requires i <= |s|
    ensures TokenAt(s, i).None? <==> NoTokenAtFront(s[i..])
  {
    hide TokenAt, IsToken;
    forall end: nat, name: string | i <= end <= |s|
      ensures TokenAt(s, i) == Some((name, end)) <==> IsToken(s[i..][..end - i], name)
    {
      TokenAtMeans(s, i, end, name);
      SuffixFront(s, i, end);
    }
    if TokenAt(s, i).Some? {
      var (name, end) := TokenAt(s, i).value;
      assert IsToken(s[i..][..end - i], name);
    } else {
      forall end: nat, name | end <= |s[i..]| ensures !IsToken(s[i..][..end], name) {
        var e: nat := i + end;
        assert TokenAt(s, i) == Some((name, e)) <==> IsToken(s[i..][..e - i], name);
      }
    }
  }

  lemma FrontIsRead(s: string, i: nat, g: Segment)
    requires i <= |s| && Source(g) <= s[i..] && (if g.Plain? then NoTokenAtFront(s[i..]) else IsToken(g.text, g.name))
    ensures var end: nat := i + |Source(g)|;
            && i < end <= |s| && s[i..][|Source(g)|..] == s[end..] && Source(g) == s[i..end]
            && (if g.Plain? then TokenAt(s, i).None? else TokenAt(s, i) == Some((g.name, end)))
  {
    hide TokenAt, NoTokenAtFront;
    var end := i + |Source(g)|;
    SuffixFront(s, i, end);
    assert Source(g) == s[i..][..|Source(g)|];
    if g.Plain? { NoTokenMeans(s, i); } else { TokenAtMeans(s, i, end, g.name); }
  }

  lemma SubstStep(s: string, i: nat, g: Segment, params: Params)
    requires i < |s| && i + |Source(g)| <= |s| && Source(g) == s[i..i + |Source(g)|]
    requires if g.Plain? then TokenAt(s, i).None? else TokenAt(s, i) == Some((g.name, i + |Source(g)|))
    ensures var end: nat := i + |Source(g)|;
            && SubstFrom(s, i, params) ==
               (if g.Token? && g.name in params then params[g.name] else Source(g)) + SubstFrom(s, end, params)
            && FirstToken(s, i) == if g.Token? then Some(g.name) else FirstToken(s, end)
  {
    hide TokenAt;
    if g.Plain? { assert s[i..i + 1] == [s[i]]; }
  }

  lemma ReadsRest(gs: seq<Segment>, s: string, i: nat)
    requires i <= |s| && Reads(gs, s[i..]) && gs != []
    ensures var end: nat := i + |Source(gs[0])|;
            && i < end <= |s| && Source(gs[0]) == s[i..end] && Reads(gs[1..], s[end..])
            && (if gs[0].Plain? then TokenAt(s, i).None? else TokenAt(s, i) == Some((gs[0].name, end)))
  {
    hide TokenAt, IsToken, NoTokenAtFront, Source;
    FrontIsRead(s, i, gs[0]);
  }

  lemma ReplacedStep(gs: seq<Segment>, params: Params)
    requires gs != []
    ensures var g := gs[0];
            && Replaced(gs, params) ==
               (if g.Token? && g.name in params then params[g.name] else Source(g)) + Replaced(gs[1..], params)
            && Mentioned(gs) == if g.Token? then Some(g.name) else Mentioned(gs[1..])
  {
    hide Source;
  }

  lemma NothingRead(s: string, i: nat, params: Params)
    requires i <= |s| && Reads([], s[i..])
    ensures SubstFrom(s, i, params) == "" == Replaced([], params) && FirstToken(s, i) == None == Mentioned([])
  {
    assert |s[i..]| == |s| - i;
  }

  lemma {:induction false} ReadingIsSubst(s: string, i: nat, gs: seq<Segment>, params: Params)
    requires i <= |s| && Reads(gs, s[i..])
    ensures SubstFrom(s, i, params) == Replaced(gs, params) && FirstToken(s, i) == Mentioned(gs)
    decreases |gs|
  {
    hide TokenAt, Source, Reads, Replaced, Mentioned, SubstFrom, FirstToken;
    if gs == [] {
      NothingRead(s, i, params);
    } else {
      ReadsRest(gs, s, i);
      ReadingIsSubst(s, i + |Source(gs[0])|, gs[1..], params);
      SubstStep(s, i, gs[0], params);
      ReplacedStep(gs, params);
    }
  }

  lemma {:induction false} SomeReading(s: string, i: nat) returns (gs: seq<Segment>)
    requires i <= |s|
    ensures Reads(gs, s[i..])
    decreases |s| - i
  {
    hide TokenAt, IsToken, NoTokenAtFront;
    if i == |s| {
      gs := [];
    } else {
      var g := if TokenAt(s, i).Some? then Token(s[i..TokenAt(s, i).value.1], TokenAt(s, i).value.0) else Plain(s[i]);
      var end := i + |Source(g)|;
      SuffixFront(s, i, end);
      if g.Plain? { NoTokenMeans(s, i); } else { TokenAtMeans(s, i, end, g.name); }
      var more := SomeReading(s, end);
      gs := [g] + more;
      assert gs[0] == g && gs[1..] == more && s[i..][|Source(g)|..] == s[end..];
    }
  }

  /** Every text can be read as tokens and other characters, and whatever way it is read, substitution replaces the
      tokens that name a parameter by its value and leaves everything else; the first token is the one looked at. */
  lemma SubstMeans(s: string, params: Params)
    ensures exists gs :: Reads(gs, s)
    ensures forall gs :: Reads(gs, s) ==> Subst(s, params) == Replaced(gs, params) && FirstToken(s, 0) == Mentioned(gs)
  {
    hide Reads, SubstFrom, FirstToken;
    assert s[0..] == s;
    var gs := SomeReading(s, 0);
    forall gs | Reads(gs, s) ensures Subst(s, params) == Replaced(gs, params) && FirstToken(s, 0) == Mentioned(gs) {
      ReadingIsSubst(s, 0, gs, params);
    }
  }
}
