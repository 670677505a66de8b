/** The console client's exit-marker filter: strips a fixed marker from a stream that is
    cut at arbitrary places, holding back what might still become a marker. */
module ExitMarker {
  import opened Streams

  /** ESC ] 6 6 6 6 ; b s d k r u n - e x i t BEL */
  const EXIT_MARKER: seq<byte> :=
    [27, 93, 54, 54, 54, 54, 59, 98, 115, 100, 107, 114, 117, 110, 45, 101, 120, 105, 116, 7]

  lemma MarkerText()
    ensures EXIT_MARKER == [ESC] + Chars("]6666;bsdkrun-exit") + [7]
  {
  }

  // ----- the whole-input specification

  /** One left-to-right pass over a complete input. */
  function Strip(s: seq<byte>): seq<byte>
    decreases |s|
  {
    if s == [] then []
    else if EXIT_MARKER <= s then Strip(s[|EXIT_MARKER|..])
    else [s[0]] + Strip(s[1..])
  }

  function Markers(s: seq<byte>): nat
    decreases |s|
  {
    if s == [] then 0
    else if EXIT_MARKER <= s then 1 + Markers(s[|EXIT_MARKER|..])
    else Markers(s[1..])
  }

  /** The last `h` bytes of `s` are a proper prefix of the marker. */
  predicate Hangs(s: seq<byte>, h: int) {
    0 <= h < |EXIT_MARKER| && h <= |s| && s[|s| - h..] == EXIT_MARKER[..h]
  }

  /** `h` is the length of the longest such suffix. */
  ghost predicate LongestHang(s: seq<byte>, h: int) {
    Hangs(s, h) && forall g :: Hangs(s, g) ==> g <= h
  }

  // ----- the marker cannot overlap itself

  lemma EscOnlyInFront(k: int)
    requires 0 <= k < |EXIT_MARKER|
    ensures EXIT_MARKER[k] == ESC <==> k == 0
  {
  }

  lemma MarkerLength()
    ensures |EXIT_MARKER| == 20
  {
  }

  lemma NoOverlap(s: seq<byte>, i: int, j: int)
    requires OccursAt(s, EXIT_MARKER, i) && OccursAt(s, EXIT_MARKER, j)
    ensures i == j || i + |EXIT_MARKER| <= j || j + |EXIT_MARKER| <= i
  {
    MarkerByte(s, i, i);
    MarkerByte(s, j, j);
    EscOnlyInFront(0);
    if i < j < i + |EXIT_MARKER| {
      NoEscInside(s, i, j);
    } else if j < i < j + |EXIT_MARKER| {
      NoEscInside(s, j, i);
    }
  }

  lemma MarkerByte(s: seq<byte>, i: int, k: int)
    requires OccursAt(s, EXIT_MARKER, i) && i <= k < i + |EXIT_MARKER|
    ensures s[k] == EXIT_MARKER[k - i]
  {
    assert s[i..i + |EXIT_MARKER|][k - i] == s[k];
  }

  lemma PrefixIsOccurrence(s: seq<byte>)
    ensures EXIT_MARKER <= s <==> OccursAt(s, EXIT_MARKER, 0)
  {
  }

  // ----- stripping is independent of where a marker-free cut falls

  ghost predicate Straddles(s: seq<byte>, cut: int, i: int) {
    OccursAt(s, EXIT_MARKER, i) && i < cut < i + |EXIT_MARKER|
  }

  /** No occurrence that starts before `k` reaches past it. */
  ghost predicate CleanCut(s: seq<byte>, k: int) {
    forall i :: !Straddles(s, k, i)
  }

  /** A clean cut stays one when the front of the stream, up to the cut at most, is taken away. */
  lemma CleanBehind(a: seq<byte>, b: seq<byte>, n: nat)
    requires n <= |a| && CleanCut(a + b, |a|)
    ensures CleanCut(a[n..] + b, |a| - n)
  {
    hide EXIT_MARKER, OccursAt;
    var rest := a[n..] + b;
    assert a + b == a[..n] + rest;
    var cut := |a| - n;
    forall i ensures !Straddles(rest, cut, i) {
      assert !Straddles(a + b, |a|, n + i);
      if OccursAt(rest, EXIT_MARKER, i) {
        OccursAtInside(rest, EXIT_MARKER, i);
        OccursAtShifts(a[..n], rest, EXIT_MARKER, i);
      }
    }
  }

  /** With a clean cut, a marker in front of the stream is in front of the first part. */
  lemma FrontIsWhole(a: seq<byte>, b: seq<byte>)
    requires a != [] && CleanCut(a + b, |a|)
    ensures EXIT_MARKER <= a + b <==> EXIT_MARKER <= a
  {
    hide EXIT_MARKER, OccursAt;
    MarkerLength();
    var s := a + b;
    if EXIT_MARKER <= s {
      PrefixIsOccurrence(s);
      assert !Straddles(s, |a|, 0);
      assert s[..|EXIT_MARKER|] == a[..|EXIT_MARKER|];
    }
    if EXIT_MARKER <= a { assert s[..|EXIT_MARKER|] == a[..|EXIT_MARKER|]; }
  }

  /** What one round of the pass takes: a whole marker, or one byte. */
  function Round(s: seq<byte>): nat { if EXIT_MARKER <= s then |EXIT_MARKER| else 1 }

  lemma StripStep(s: seq<byte>)
    requires s != []
    ensures Round(s) <= |s|
    ensures Strip(s) == (if EXIT_MARKER <= s then [] else [s[0]]) + Strip(s[Round(s)..])
    ensures Markers(s) == (if EXIT_MARKER <= s then 1 else 0) + Markers(s[Round(s)..])
  {
    hide EXIT_MARKER;
    assert [] + Strip(s[Round(s)..]) == Strip(s[Round(s)..]);
  }

  lemma {:induction false} StripSplits(a: seq<byte>, b: seq<byte>)
    requires CleanCut(a + b, |a|)
    ensures Strip(a + b) == Strip(a) + Strip(b)
    ensures Markers(a + b) == Markers(a) + Markers(b)
    decreases |a|
  {
    hide EXIT_MARKER, CleanCut, Strip, Markers;
    MarkerLength();
    if a == [] {
      assert a + b == b;
      NothingToStrip();
      assert [] + Strip(b) == Strip(b);
    } else {
      FrontIsWhole(a, b);
      StripStep(a);
      StripStep(a + b);
      var n := Round(a);
      assert (a + b)[n..] == a[n..] + b;
      CleanBehind(a, b, n);
      StripSplits(a[n..], b);
      var front: seq<byte> := if EXIT_MARKER <= a then [] else [a[0]];
      assert front + (Strip(a[n..]) + Strip(b)) == front + Strip(a[n..]) + Strip(b);
    }
  }

  lemma NothingToStrip()
    ensures Strip([]) == [] && Markers([]) == 0
  {
  }

  lemma NoEscInside(s: seq<byte>, i: int, k: int)
    requires OccursAt(s, EXIT_MARKER, i) && i < k < i + |EXIT_MARKER|
    ensures s[k] != ESC
  {
    MarkerByte(s, i, k);
    EscOnlyInFront(k - i);
  }

  lemma HangStartsWithEsc(s: seq<byte>, h: int)
    requires Hangs(s, h) && h > 0
    ensures s[|s| - h] == ESC
  {
    assert s[|s| - h..][0] == EXIT_MARKER[..h][0];
    EscOnlyInFront(0);
  }

  /** An occurrence that is complete only with what follows `stream` hangs over its end. */
  lemma CutOccurrenceHangs(stream: seq<byte>, more: seq<byte>, i: int)
    requires OccursAt(stream + more, EXIT_MARKER, i) && i <= |stream| < i + |EXIT_MARKER|
    ensures Hangs(stream, |stream| - i)
  {
    var g := |stream| - i;
    assert stream[i..] == (stream + more)[i..i + |EXIT_MARKER|][..g] == EXIT_MARKER[..g];
  }

  /** Cutting a stream in front of its longest hanging suffix cuts through no marker, however the stream goes on. */
  lemma HoldCutsNoMarker(stream: seq<byte>, h: int, more: seq<byte>)
    requires LongestHang(stream, h)
    ensures CleanCut(stream + more, |stream| - h)
  {
    hide EXIT_MARKER, OccursAt;
    var s, cut := stream + more, |stream| - h;
    forall i ensures !Straddles(s, cut, i) {
      if Straddles(s, cut, i) {
        if i + |EXIT_MARKER| <= |stream| {
          NoEscInside(s, i, cut);
          HangStartsWithEsc(stream, h);
        } else {
          CutOccurrenceHangs(stream, more, i);
        }
      }
    }
  }

  /** A stream with its hanging suffix: nothing of the suffix is stripped. */
  lemma HeldBytesPass(before: seq<byte>, held: seq<byte>)
    requires LongestHang(before + held, |held|)
    ensures Strip(before + held) == Strip(before) + held
    ensures Markers(before + held) == Markers(before)
  {
    var s := before + held;
    HoldCutsNoMarker(s, |held|, []);
    assert s + [] == s;
    StripSplits(before, held);
    ShortPasses(held);
  }

  /** Between two reads: what was stripped before, and what is stripped now, add up. */
  lemma StripResumes(before: seq<byte>, carry: seq<byte>, data: seq<byte>, done: seq<byte>, held: seq<byte>)
    requires LongestHang(before + carry, |carry|)
    requires carry + data == done + held
    ensures Strip(before + done) == Strip(before) + Strip(done)
    ensures Markers(before + done) == Markers(before) + Markers(done)
  {
    var s := before + done;
    HoldCutsNoMarker(before + carry, |carry|, data);
    assert before + carry + data == before + (carry + data) == s + held;
    forall i ensures !Straddles(s, |before|, i) {
      assert !Straddles(s + held, |before|, i);
      if OccursAt(s, EXIT_MARKER, i) { OccursAtExtends(s, held, EXIT_MARKER, i); }
    }
    StripSplits(before, done);
  }

  lemma {:induction false} ShortPasses(b: seq<byte>)
    requires |b| < |EXIT_MARKER|
    ensures Strip(b) == b && Markers(b) == 0
    decreases |b|
  {
    if b != [] { ShortPasses(b[1..]); assert b == [b[0]] + b[1..]; }
  }

  lemma HangReachesBack(stream: seq<byte>, data: seq<byte>, g: int)
    requires Hangs(stream + data, g) && g > |data|
    ensures Hangs(stream, g - |data|)
  {
    var s, k := stream + data, g - |data|;
    assert stream[|stream| - k..] == s[|s| - g..][..k] == EXIT_MARKER[..k];
  }

  /** The longest hang of a longer stream lies inside the old hang and the new bytes. */
  lemma HangIsLocal(stream: seq<byte>, h: int, data: seq<byte>, g: int)
    requires LongestHang(stream, h)
    ensures Hangs(stream + data, g) <==> Hangs(stream[|stream| - h..] + data, g)
  {
    hide EXIT_MARKER;
    MarkerLength();
    var s, buf := stream + data, stream[|stream| - h..] + data;
    assert s == stream[..|stream| - h] + buf;
    if Hangs(s, g) && g > |buf| { HangReachesBack(stream, data, g); }
    if 0 <= g <= |buf| {
      assert s[|s| - g..] == buf[|buf| - g..];
    }
  }

  // ----- what one pass removes, said without a pass: exactly the bytes inside some occurrence

  ghost predicate Covered(s: seq<byte>, k: int) {
    exists i :: OccursAt(s, EXIT_MARKER, i) && i <= k < i + |EXIT_MARKER|
  }

  /** The bytes of `s` from offset `k` on that lie in no occurrence of the marker. */
  ghost function Uncovered(s: seq<byte>, k: nat): seq<byte>
    requires k <= |s|
    decreases |s| - k
  {
    if k == |s| then []
    else (if Covered(s, k) then [] else [s[k]]) + Uncovered(s, k + 1)
  }

  ghost function Occurrences(s: seq<byte>, from: nat): set<int> {
    set i | from <= i <= |s| && OccursAt(s, EXIT_MARKER, i)
  }

  lemma {:induction false} CoveredRunVanishes(s: seq<byte>, k: nat, n: nat)
    requires k <= n <= |s|
    requires forall j :: k <= j < n ==> Covered(s, j)
    ensures Uncovered(s, k) == Uncovered(s, n)
    decreases n - k
  {
    if k < n { assert Covered(s, k); CoveredRunVanishes(s, k + 1, n); }
  }

  /** What the pass steps over in front of the stream at `k`: a whole occurrence, or a byte in none. */
  lemma StepIsClean(s: seq<byte>, k: nat, n: nat)
    requires k < |s| && CleanCut(s, k)
    requires n == if OccursAt(s, EXIT_MARKER, k) then |EXIT_MARKER| else 1
    ensures k + n <= |s| && CleanCut(s, k + n)
  {
    hide EXIT_MARKER, OccursAt;
    if OccursAt(s, EXIT_MARKER, k) { OccursAtInside(s, EXIT_MARKER, k); }
    var cut := k + n;
    forall i ensures !Straddles(s, cut, i) {
      assert !Straddles(s, k, i);
      if Straddles(s, k + n, i) && n == |EXIT_MARKER| { NoOverlap(s, k, i); }
    }
  }

  lemma StepOverMarker(s: seq<byte>, k: nat)
    requires OccursAt(s, EXIT_MARKER, k) && k + |EXIT_MARKER| <= |s|
    ensures Uncovered(s, k) == Uncovered(s, k + |EXIT_MARKER|)
    ensures |Occurrences(s, k)| == 1 + |Occurrences(s, k + |EXIT_MARKER|)|
  {
    hide EXIT_MARKER, OccursAt, Uncovered;
    MarkerLength();
    var next := k + |EXIT_MARKER|;
    forall j | k <= j < next ensures Covered(s, j) {}
    CoveredRunVanishes(s, k, next);
    forall i | i in Occurrences(s, k) ensures i in {k} + Occurrences(s, next) { NoOverlap(s, k, i); }
    assert Occurrences(s, k) == {k} + Occurrences(s, next);
  }

  lemma StepOverByte(s: seq<byte>, k: nat)
    requires k < |s| && CleanCut(s, k) && !OccursAt(s, EXIT_MARKER, k)
    ensures Uncovered(s, k) == [s[k]] + Uncovered(s, k + 1)
    ensures Occurrences(s, k) == Occurrences(s, k + 1)
  {
    hide EXIT_MARKER, OccursAt;
    forall i ensures !(OccursAt(s, EXIT_MARKER, i) && i <= k < i + |EXIT_MARKER|) {
      assert !Straddles(s, k, i);
    }
    assert !Covered(s, k);
  }

  lemma NothingOccursAtEnd(s: seq<byte>)
    ensures Occurrences(s, |s|) == {}
  {
    hide EXIT_MARKER, OccursAt;
    MarkerLength();
    forall i | i in Occurrences(s, |s|) ensures false { OccursAtInside(s, EXIT_MARKER, i); }
  }

  lemma {:induction false} StripFrom(s: seq<byte>, k: nat)
    requires k <= |s| && CleanCut(s, k)
    ensures Strip(s[k..]) == Uncovered(s, k)
    ensures Markers(s[k..]) == |Occurrences(s, k)|
    decreases |s| - k
  {
    hide EXIT_MARKER, OccursAt, CleanCut, Occurrences, Uncovered, Strip, Markers;
    MarkerLength();
    if k == |s| {
      NothingToStrip();
      NothingOccursAtEnd(s);
      NothingUncoveredAtEnd(s);
    } else {
      var t := s[k..];
      MarkerIsNext(s, k);
      var n := Round(t);
      StripStep(t);
      StepIsClean(s, k, n);
      assert t[n..] == s[k + n..];
      StripFrom(s, k + n);
      assert [] + Strip(t[n..]) == Strip(t[n..]);
      if EXIT_MARKER <= t { StepOverMarker(s, k); } else { StepOverByte(s, k); }
    }
  }

  lemma NothingUncoveredAtEnd(s: seq<byte>)
    ensures Uncovered(s, |s|) == []
  {
  }

  lemma MarkerIsNext(s: seq<byte>, k: nat)
    requires k <= |s|
    ensures EXIT_MARKER <= s[k..] <==> OccursAt(s, EXIT_MARKER, k)
  {
    hide EXIT_MARKER, OccursAt;
    assert s == s[..k] + s[k..];
    OccursAtShifts(s[..k], s[k..], EXIT_MARKER, 0);
    PrefixIsOccurrence(s[k..]);
  }

  /** Stripping drops exactly the bytes covered by an occurrence, and counts every occurrence once. */
  lemma StripIsUncovered(s: seq<byte>)
    ensures Strip(s) == Uncovered(s, 0)
    ensures Markers(s) == |Occurrences(s, 0)|
  {
    assert s[0..] == s;
    StripFrom(s, 0);
  }

  // ----- the streaming filter

  method PartialMarkerSuffix(buf: seq<byte>) returns (h: nat)
    ensures LongestHang(buf, h)
  {
    var top := if |EXIT_MARKER| - 1 < |buf| then |EXIT_MARKER| - 1 else |buf|;
    h := top;
    while h >= 1
      invariant 0 <= h <= top
      invariant forall g :: Hangs(buf, g) ==> g <= h
    {
      if buf[|buf| - h..] == EXIT_MARKER[..h] { return; }
      h := h - 1;
    }
    assert Hangs(buf, 0);
  }

  /** The loop of the filter over the bytes it may decide now. */
  method StripPass(process: seq<byte>) returns (out: seq<byte>, markers: nat)
    ensures out == Strip(process) && markers == Markers(process)
  {
    hide EXIT_MARKER;
    MarkerLength();
    out, markers := [], 0;
    var i := 0;
    while i < |process|
      invariant 0 <= i <= |process|
      invariant out + Strip(process[i..]) == Strip(process)
      invariant markers + Markers(process[i..]) == Markers(process)
    {
      if EXIT_MARKER <= process[i..] {
        assert process[i..][|EXIT_MARKER|..] == process[i + |EXIT_MARKER|..];
        markers := markers + 1;
        i := i + |EXIT_MARKER|;
      } else {
        assert process[i..][1..] == process[i + 1..];
        out := out + [process[i]];
        i := i + 1;
      }
    }
  }

  class MarkerFilter {
    var carry: seq<byte>
    ghost var stream: seq<byte>   // every byte fed so far
    ghost var emitted: seq<byte>  // every byte handed on so far
    ghost var stripped: nat       // every marker reported so far

    /** The carry is the longest hanging suffix of the whole stream, and all before it has been stripped in one pass. */
    ghost predicate Valid()
      reads this
    {
      && LongestHang(stream, |carry|)
      && carry == stream[|stream| - |carry|..]
      && emitted == Strip(stream[..|stream| - |carry|])
      && stripped == Markers(stream[..|stream| - |carry|])
    }

    constructor ()
      ensures Valid() && stream == [] && emitted == [] && stripped == 0
    {
      carry, stream, emitted, stripped := [], [], [], 0;
    }

    method Feed(data: seq<byte>) returns (out: seq<byte>, markers: nat)
      requires Valid()
      modifies this
      ensures Valid()
      ensures stream == old(stream) + data
      ensures emitted == old(emitted) + out && stripped == old(stripped) + markers
    {
      hide EXIT_MARKER, Strip, Markers;
      var buf := carry + data;
      var hold := PartialMarkerSuffix(buf);
      var split := |buf| - hold;
      var process := buf[..split];
      ghost var before := stream[..|stream| - |carry|];
      assert stream == before + carry;
      forall g ensures Hangs(stream + data, g) <==> Hangs(buf, g) { HangIsLocal(stream, |carry|, data, g); }
      StripResumes(before, carry, data, process, buf[split..]);
      stream := stream + data;
      assert stream == (before + process) + buf[split..];
      carry := buf[split..];

      out, markers := StripPass(process);
      emitted, stripped := emitted + out, stripped + markers;
    }

    method Flush() returns (out: seq<byte>)
      requires Valid()
      modifies this
      ensures stream == old(stream) && carry == [] && stripped == old(stripped)
      ensures emitted == old(emitted) + out == Strip(stream)
      ensures stripped == Markers(stream)
    {
      assert stream == stream[..|stream| - |carry|] + carry;
      HeldBytesPass(stream[..|stream| - |carry|], carry);
      out := carry;
      carry := [];
      emitted := emitted + out;
    }
  }

  /** The client's output side: every read goes through the filter, and what is held back is flushed at
      the end. The bytes shown and the markers counted depend only on the bytes received. */
  method Filtered(chunks: seq<seq<byte>>) returns (out: seq<byte>, markers: nat)
    ensures out == Strip(Joined(chunks)) == Uncovered(Joined(chunks), 0)
    ensures markers == Markers(Joined(chunks)) == |Occurrences(Joined(chunks), 0)|
  {
    var filter := new MarkerFilter();
    out, markers := [], 0;
    for r := 0 to |chunks|
      invariant filter.Valid() && fresh(filter)
      invariant filter.stream == Joined(chunks[..r])
      invariant filter.emitted == out && filter.stripped == markers
    {
      var more, n := filter.Feed(chunks[r]);
      assert chunks[..r + 1] == chunks[..r] + [chunks[r]];
      JoinedSnoc(chunks[..r], chunks[r]);
      out, markers := out + more, markers + n;
    }
    assert chunks[..|chunks|] == chunks;
    var rest := filter.Flush();
    out := out + rest;
    StripIsUncovered(Joined(chunks));
  }
}
