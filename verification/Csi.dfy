/** Control sequences in the format of section 5.4 of ECMA-48 (ESC [ parameters intermediates
    final), how a byte string starting at ESC is classified, and what is left of a text when
    the screen-painting sequences are taken out. */
module Csi {
  import opened Streams
  import opened Wrappers

  const BRACKET: byte := 0x5b

  predicate IsFinal(b: byte) { 0x40 <= b <= 0x7e }

  /** J H f h l */
  predicate IsPaint(b: byte) { b == 0x4a || b == 0x48 || b == 0x66 || b == 0x68 || b == 0x6c }

  ghost predicate AllWithin(s: seq<byte>, from: int, to: int, lo: int, hi: int) {
    forall i :: 0 <= from <= i < to <= |s| ==> lo <= s[i] <= hi
  }

  /** `s` is one whole control sequence; parameters end at offset `p`. */
  ghost predicate IsCsiWith(s: seq<byte>, p: int) {
    && 2 <= p < |s| && s[0] == ESC && s[1] == BRACKET
    && AllWithin(s, 2, p, 0x30, 0x3f)
    && AllWithin(s, p, |s| - 1, 0x20, 0x2f)
    && IsFinal(s[|s| - 1])
  }

  ghost predicate IsCsi(s: seq<byte>) { exists p :: IsCsiWith(s, p) }

  /** `s` starts with a whole control sequence of length `n`. */
  ghost predicate StartsCsi(s: seq<byte>, n: int) { 0 <= n <= |s| && IsCsi(s[..n]) }

  /** No control sequence starts at the front of `s`, whatever follows. */
  ghost predicate NeverCsi(s: seq<byte>) { forall more, n :: !StartsCsi(s + more, n) }

  /** Not yet a control sequence, but it may become one. */
  ghost predicate Unfinished(s: seq<byte>) {
    && s != [] && s[0] == ESC
    && (forall n :: !StartsCsi(s, n))
    && exists more :: IsCsi(s + more)
  }

  // ----- classification

  datatype CsiScan = Complete(len: nat, final: byte) | Partial | NotCsi

  function RunEnd(s: seq<byte>, i: nat, lo: int, hi: int): (e: nat)
    requires i <= |s|
    ensures i <= e <= |s|
    decreases |s| - i
  {
    if i < |s| && lo <= s[i] <= hi then RunEnd(s, i + 1, lo, hi) else i
  }

  lemma {:induction false} RunEndMeans(s: seq<byte>, i: nat, lo: int, hi: int)
    requires i <= |s|
    ensures var e := RunEnd(s, i, lo, hi); AllWithin(s, i, e, lo, hi) && (e < |s| ==> !(lo <= s[e] <= hi))
    decreases |s| - i
  {
    if i < |s| && lo <= s[i] <= hi { RunEndMeans(s, i + 1, lo, hi); }
  }

  function Scanned(s: seq<byte>): CsiScan
    requires s != [] && s[0] == ESC
  {
    if |s| == 1 then Partial
    else if s[1] != BRACKET then NotCsi
    else
      var q := RunEnd(s, RunEnd(s, 2, 0x30, 0x3f), 0x20, 0x2f);
      if q == |s| then Partial
      else if IsFinal(s[q]) then Complete(q + 1, s[q])
      else NotCsi
  }

  lemma CompleteIsCsi(s: seq<byte>)
    requires s != [] && s[0] == ESC && Scanned(s).Complete?
    ensures var n := Scanned(s).len; StartsCsi(s, n) && 3 <= n && Scanned(s).final == s[n - 1]
  {
    var p := RunEnd(s, 2, 0x30, 0x3f);
    RunEndMeans(s, 2, 0x30, 0x3f);
    RunEndMeans(s, p, 0x20, 0x2f);
    assert IsCsiWith(s[..Scanned(s).len], p);
  }

  /** Any control sequence at the front of `s` is the one the scan finds. */
  lemma OnlyTheScannedCsi(s: seq<byte>, n: int)
    requires s != [] && s[0] == ESC && StartsCsi(s, n)
    ensures Scanned(s) == Complete(n, s[n - 1])
  {
    var c := s[..n];
    var p :| IsCsiWith(c, p);
    assert c[1] == s[1] && c[n - 1] == s[n - 1];
    forall i | 2 <= i < p ensures 0x30 <= s[i] <= 0x3f { assert c[i] == s[i]; }
    forall i | p <= i < n - 1 ensures 0x20 <= s[i] <= 0x2f { assert c[i] == s[i]; }
    var e := RunEnd(s, 2, 0x30, 0x3f);
    assert !(0x30 <= s[p] <= 0x3f);
    RunEndMeans(s, 2, 0x30, 0x3f);
    assert e == p;
    RunEndMeans(s, e, 0x20, 0x2f);
    assert RunEnd(s, e, 0x20, 0x2f) == n - 1;
  }

  lemma {:induction false} RunEndStable(s: seq<byte>, t: seq<byte>, i: nat, lo: int, hi: int)
    requires i <= |s| && RunEnd(s, i, lo, hi) < |s|
    ensures RunEnd(s + t, i, lo, hi) == RunEnd(s, i, lo, hi)
    decreases |s| - i
  {
    if lo <= s[i] <= hi { RunEndStable(s, t, i + 1, lo, hi); }
  }

  /** More input never changes a verdict that has been reached. */
  lemma ScannedStable(s: seq<byte>, t: seq<byte>)
    requires s != [] && s[0] == ESC && !Scanned(s).Partial?
    ensures Scanned(s + t) == Scanned(s)
  {
    if s[1] == BRACKET {
      RunEndStable(s, t, 2, 0x30, 0x3f);
      RunEndStable(s, t, RunEnd(s, 2, 0x30, 0x3f), 0x20, 0x2f);
    }
  }

  /** The three verdicts, each described without the scan. */
  lemma ScannedMeans(s: seq<byte>)
    requires s != [] && s[0] == ESC
    ensures forall n: nat, f: byte :: Scanned(s) == Complete(n, f) <==> StartsCsi(s, n) && f == s[n - 1]
    ensures Scanned(s).NotCsi? <==> NeverCsi(s)
    ensures Scanned(s).Partial? <==> Unfinished(s)
  {
    forall n | StartsCsi(s, n) ensures Scanned(s) == Complete(n, s[n - 1]) { OnlyTheScannedCsi(s, n); }
    match Scanned(s)
    case Complete(n, _) =>
      CompleteIsCsi(s);
      assert s + [] == s;
      assert StartsCsi(s + [], n);
    case NotCsi =>
      forall more, n ensures !StartsCsi(s + more, n) {
        ScannedStable(s, more);
        if StartsCsi(s + more, n) { OnlyTheScannedCsi(s + more, n); }
      }
      forall more ensures !IsCsi(s + more) {
        assert (s + more)[..|s + more|] == s + more;
        assert !StartsCsi(s + more, |s + more|);
      }
    case Partial =>
      if |s| > 1 {
        RunEndMeans(s, 2, 0x30, 0x3f);
        RunEndMeans(s, RunEnd(s, 2, 0x30, 0x3f), 0x20, 0x2f);
      }
      var more: seq<byte> := if |s| == 1 then [BRACKET, 0x40] else [0x40];
      assert IsCsiWith(s + more, if |s| == 1 then 2 else RunEnd(s, 2, 0x30, 0x3f));
      assert (s + more)[..|s + more|] == s + more;
      assert StartsCsi(s + more, |s + more|);
  }

  /** The scanner: two loops over the parameter and the intermediate bytes. */
  method ParseCsi(s: seq<byte>) returns (scan: CsiScan)
    requires s != [] && s[0] == ESC
    ensures scan == Scanned(s)
  {
    if |s| == 1 { return Partial; }
    if s[1] != BRACKET { return NotCsi; }
    var i := 2;
    while i < |s| && 0x30 <= s[i] <= 0x3f
      invariant 2 <= i <= |s| && RunEnd(s, i, 0x30, 0x3f) == RunEnd(s, 2, 0x30, 0x3f)
    {
      i := i + 1;
    }
    ghost var p := i;
    while i < |s| && 0x20 <= s[i] <= 0x2f
      invariant p <= i <= |s| && RunEnd(s, i, 0x20, 0x2f) == RunEnd(s, p, 0x20, 0x2f)
    {
      i := i + 1;
    }
    if i == |s| { return Partial; }
    return if IsFinal(s[i]) then Complete(i + 1, s[i]) else NotCsi;
  }

  // ----- taking out the screen-painting sequences

  /** What the front of `s` turns into, and how many bytes that takes; None while it is undecided. */
  function Front(s: seq<byte>): (f: Option<(seq<byte>, nat)>)
    requires s != []
    ensures f.Some? ==> 1 <= f.value.1 <= |s|
    ensures f.None? ==> s[0] == ESC
  {
    if s[0] != ESC then Some(([s[0]], 1))
    else match Scanned(s)
      case Complete(n, f) => Some((if IsPaint(f) then [] else s[..n], n))
      case Partial => None
      case NotCsi => Some(([s[0]], 1))
  }

  /** The text with the painting sequences gone, up to an unfinished sequence at its end. */
  function Shown(s: seq<byte>): seq<byte>
    decreases |s|
  {
    if s == [] || Front(s).None? then []
    else Front(s).value.0 + Shown(s[Front(s).value.1..])
  }

  /** The unfinished sequence at the end, if there is one. */
  function Pending(s: seq<byte>): (t: seq<byte>)
    ensures |t| <= |s|
    decreases |s|
  {
    if s == [] || Front(s).None? then s
    else Pending(s[Front(s).value.1..])
  }

  /** The text with the painting sequences gone and an unfinished sequence left as it is. */
  function Unpainted(s: seq<byte>): seq<byte> { Shown(s) + Pending(s) }

  lemma FrontStable(s: seq<byte>, t: seq<byte>)
    requires s != [] && Front(s).Some?
    ensures Front(s + t) == Front(s)
  {
    if s[0] == ESC {
      ScannedStable(s, t);
      if Scanned(s).Complete? { assert (s + t)[..Scanned(s).len] == s[..Scanned(s).len]; }
    }
  }

  /** Work may stop after any prefix and resume from the pending bytes. */
  lemma {:induction false} ScanResumes(x: seq<byte>, y: seq<byte>)
    ensures Shown(x + y) == Shown(x) + Shown(Pending(x) + y)
    ensures Pending(x + y) == Pending(Pending(x) + y)
    decreases |x|
  {
    hide Front, Scanned;
    if x == [] {
      assert x + y == y;
    } else if Front(x).Some? {
      FrontStable(x, y);
      var n := Front(x).value.1;
      assert (x + y)[n..] == x[n..] + y;
      ScanResumes(x[n..], y);
      var f, rest := Front(x).value.0, Shown(Pending(x) + y);
      assert f + (Shown(x[n..]) + rest) == f + Shown(x[n..]) + rest;
    } else {
      assert [] + Shown(x + y) == Shown(x + y);
    }
  }

  lemma {:induction false} NoEscNoChange(s: seq<byte>)
    requires ESC !in s
    ensures Shown(s) == s && Pending(s) == []
    decreases |s|
  {
    if s != [] { NoEscNoChange(s[1..]); assert s == [s[0]] + s[1..]; }
  }

  // ----- the same, said by a reading of the text into single bytes and whole sequences

  datatype Item = Plain(b: byte) | Sequence(bytes: seq<byte>)

  function Bytes(i: Item): seq<byte> { if i.Plain? then [i.b] else i.bytes }

  /** `i` is how the front of `s` is to be read: a whole sequence, or a byte where no sequence can start. */
  ghost predicate Leads(i: Item, s: seq<byte>) {
    Bytes(i) <= s && Bytes(i) != [] && if i.Plain? then i.b == ESC ==> NeverCsi(s) else IsCsi(i.bytes)
  }

  /** `items` and then the unfinished `tail` spell out `s`. */
  ghost predicate Spells(s: seq<byte>, items: seq<Item>, tail: seq<byte>)
    decreases |items|
  {
    if items == [] then s == tail && (tail == [] || Unfinished(tail))
    else Leads(items[0], s) && Spells(s[|Bytes(items[0])|..], items[1..], tail)
  }

  predicate Paints(i: Item) { i.Sequence? && i.bytes != [] && IsPaint(i.bytes[|i.bytes| - 1]) }

  function Text(items: seq<Item>): seq<byte> {
    if items == [] then [] else Bytes(items[0]) + Text(items[1..])
  }

  function Kept(items: seq<Item>): seq<Item> {
    if items == [] then [] else (if Paints(items[0]) then [] else [items[0]]) + Kept(items[1..])
  }

  lemma LeaderIsFront(i: Item, s: seq<byte>)
    requires Leads(i, s)
    ensures Front(s).Some? && Front(s).value.1 == |Bytes(i)|
    ensures Front(s).value.0 == if Paints(i) then [] else Bytes(i)
  {
    var n := |Bytes(i)|;
    assert s[..n] == Bytes(i);
    if i.Plain? {
      if i.b == ESC { ScannedMeans(s); }
    } else {
      assert StartsCsi(s, n);
      OnlyTheScannedCsi(s, n);
    }
  }

  lemma TextCons(i: Item, rest: seq<Item>)
    ensures Text([i] + rest) == Bytes(i) + Text(rest)
  {
    assert ([i] + rest)[1..] == rest;
  }

  lemma KeptCons(i: Item, rest: seq<Item>)
    ensures Text(Kept([i] + rest)) == (if Paints(i) then [] else Bytes(i)) + Text(Kept(rest))
  {
    assert ([i] + rest)[1..] == rest;
    TextCons(i, Kept(rest));
    if Paints(i) { assert [] + Kept(rest) == Kept(rest); assert [] + Text(Kept(rest)) == Text(Kept(rest)); }
  }

  lemma {:induction false} SpellsBack(s: seq<byte>, items: seq<Item>, tail: seq<byte>)
    requires Spells(s, items, tail)
    ensures Text(items) + tail == s
    decreases |items|
  {
    hide Leads, Unfinished, Bytes;
    if items != [] {
      var i := items[0];
      LeaderFits(i, s);
      SpellsBack(s[|Bytes(i)|..], items[1..], tail);
      assert Bytes(i) + (Text(items[1..]) + tail) == Text(items) + tail;
    }
  }

  lemma LeaderFits(i: Item, s: seq<byte>)
    requires Leads(i, s)
    ensures |Bytes(i)| <= |s| && s == Bytes(i) + s[|Bytes(i)|..]
  {
    hide NeverCsi, IsCsi;
  }

  lemma UnfinishedHasNoFront(s: seq<byte>)
    requires Unfinished(s) && s != []
    ensures Front(s).None?
  {
    ScannedMeans(s);
  }

  lemma NothingKept()
    ensures Text(Kept([])) == []
  {
  }

  lemma {:induction false} SpellingsAgree(s: seq<byte>, items: seq<Item>, tail: seq<byte>)
    requires Spells(s, items, tail)
    ensures Shown(s) == Text(Kept(items)) && Pending(s) == tail
    decreases |items|
  {
    hide Scanned, Front, Leads, NeverCsi, IsCsi, IsPaint, Paints, Text, Kept;
    if items == [] {
      if tail != [] { UnfinishedHasNoFront(s); }
      NothingKept();
    } else {
      var i, rest := items[0], items[1..];
      LeaderIsFront(i, s);
      SpellingsAgree(s[|Bytes(i)|..], rest, tail);
      assert items == [i] + rest;
      KeptCons(i, rest);
    }
  }

  lemma OneLeader(i: Item, k: Item, s: seq<byte>)
    requires Leads(i, s) && Leads(k, s)
    ensures i == k
  {
    hide Scanned, Front, NeverCsi;
    LeaderIsFront(i, s);
    LeaderIsFront(k, s);
    assert Bytes(i) == s[..|Bytes(i)|] == Bytes(k);
  }

  lemma NoLeader(i: Item, s: seq<byte>)
    requires s == [] || Unfinished(s)
    ensures !Leads(i, s)
  {
    hide Scanned, Front, NeverCsi, Unfinished;
    if Leads(i, s) {
      LeaderIsFront(i, s);
      UnfinishedHasNoFront(s);
    }
  }

  /** There is only one way to read a text. */
  lemma {:induction false} OneSpelling(s: seq<byte>, items: seq<Item>, tail: seq<byte>, others: seq<Item>, end: seq<byte>)
    requires Spells(s, items, tail) && Spells(s, others, end)
    ensures items == others && tail == end
    decreases |items|
  {
    hide Scanned, Front, Leads, NeverCsi, IsCsi;
    if items == [] {
      if others != [] { NoLeader(others[0], s); }
    } else if others == [] {
      NoLeader(items[0], s);
    } else {
      LeaderIsFront(items[0], s);
      OneLeader(items[0], others[0], s);
      OneSpelling(s[|Bytes(items[0])|..], items[1..], tail, others[1..], end);
      assert items == [items[0]] + items[1..] && others == [others[0]] + others[1..];
    }
  }

  lemma {:induction false} SpellingExists(s: seq<byte>) returns (items: seq<Item>)
    ensures Spells(s, items, Pending(s))
    decreases |s|
  {
    if s == [] {
      items := [];
    } else {
      if s[0] == ESC { ScannedMeans(s); }
      if Front(s).None? {
        items := [];
      } else {
        var n := Front(s).value.1;
        var rest := SpellingExists(s[n..]);
        if s[0] == ESC && Scanned(s).Complete? {
          assert StartsCsi(s, n);
          items := [Sequence(s[..n])] + rest;
        } else {
          items := [Plain(s[0])] + rest;
        }
        assert Leads(items[0], s) && items[1..] == rest;
      }
    }
  }

  /** Every text has exactly one spelling, and stripping removes exactly its painting sequences:
      whatever spells `s` out, the result is that spelling without them, with the tail verbatim. */
  lemma UnpaintedMeans(s: seq<byte>)
    ensures exists items :: Spells(s, items, Pending(s))
    ensures forall items, tail, others, end :: Spells(s, items, tail) && Spells(s, others, end) ==>
              items == others && tail == end
    ensures forall items, tail :: Spells(s, items, tail) ==>
              Text(items) + tail == s && Unpainted(s) == Text(Kept(items)) + tail
  {
    var items := SpellingExists(s);
    forall items, tail, others, end | Spells(s, items, tail) && Spells(s, others, end)
      ensures items == others && tail == end
    {
      OneSpelling(s, items, tail, others, end);
    }
    forall items, tail | Spells(s, items, tail)
      ensures Text(items) + tail == s && Unpainted(s) == Text(Kept(items)) + tail
    {
      SpellsBack(s, items, tail);
      SpellingsAgree(s, items, tail);
    }
  }

  /** Of the sequences without intermediates exactly those that end in J, H, f, h or l go: a colour (m) stays. */
  lemma OnlyPaintingGoes(params: seq<byte>, final: byte)
    requires (forall i :: 0 <= i < |params| ==> 0x30 <= params[i] <= 0x3f) && 0x40 <= final <= 0x7e
    ensures var s := [27, 0x5b] + params + [final];
            Unpainted(s) == if final as char in "JHfhl" then [] else s
  {
    hide Scanned;
    var s := [27, 0x5b] + params + [final];
    assert IsCsiWith(s, |s| - 1);
    assert s[..|s|] == s;
    assert StartsCsi(s, |s|);
    OnlyTheScannedCsi(s, |s|);
    assert Front(s).value.0 == (if IsPaint(final) then [] else s) && Front(s).value.1 == |s|;
    assert s[|s|..] == [] && Shown(s[|s|..]) == [] && Pending(s[|s|..]) == [];
    assert Shown(s) == if IsPaint(final) then [] else s;
    PaintsBy(final);
  }

  lemma PaintsBy(final: byte)
    ensures IsPaint(final) <==> final as char in "JHfhl"
  {
  }
}
