/** One direction of the exec protocol's socket: frames on their way through a writer, a bounded buffer and a
    reader that takes them apart again. */
module ExecLink {
  import opened Streams
  import opened Wrappers
  import opened ExecCodec

  /** `left`: bytes the writer still has to put out; `wire`: the socket buffer; `buf`: what the reader has of
      the next frame. The frames that those bytes are, `inFlight`, are bookkeeping: no step looks at them. */
  datatype Link = Link(left: seq<byte>, wire: seq<byte>, buf: seq<byte>, inFlight: seq<Frame>)

  const QUIET := Link([], [], [], [])

  ghost predicate LinkInv(l: Link, cap: nat) {
    && l.buf + (l.wire + l.left) == EncodeAll(l.inFlight) && AllFit(l.inFlight)
    && |l.buf| <= Needed(l.buf) && |l.wire| <= cap
  }

  /** A whole frame has been read. */
  predicate Complete(l: Link) { |l.buf| == Needed(l.buf) }

  /** The frame that has been read. */
  function FrameIn(l: Link): Frame
    requires Complete(l)
  {
    Frame(l.buf[0], l.buf[5..])
  }

  predicate CanWrite(l: Link, n: nat, cap: nat) { 0 < n <= |l.left| && |l.wire| + n <= cap }

  predicate CanReceive(l: Link, n: nat) { 0 < n <= |l.wire| && |l.buf| + n <= Needed(l.buf) }

  function Send(l: Link, f: Frame): Link { l.(left := l.left + Encode(f), inFlight := l.inFlight + [f]) }

  function Write(l: Link, n: nat): Link
    requires n <= |l.left|
  {
    l.(wire := l.wire + l.left[..n], left := l.left[n..])
  }

  function Receive(l: Link, n: nat): Link
    requires n <= |l.wire|
  {
    l.(buf := l.buf + l.wire[..n], wire := l.wire[n..])
  }

  function Drop(l: Link): Link {
    l.(buf := [], inFlight := if l.inFlight == [] then [] else l.inFlight[1..])
  }

  lemma SendKeeps(l: Link, f: Frame, cap: nat)
    requires LinkInv(l, cap) && l.left == [] && Fits(f.data)
    ensures LinkInv(Send(l, f), cap)
  {
    hide Encode, EncodeAll;
    EncodeAllSnoc(l.inFlight, f);
    assert l.buf + (l.wire + ([] + Encode(f))) == l.buf + (l.wire + []) + Encode(f);
  }

  lemma WriteKeeps(l: Link, n: nat, cap: nat)
    requires LinkInv(l, cap) && CanWrite(l, n, cap)
    ensures LinkInv(Write(l, n), cap)
  {
    hide EncodeAll;
    assert l.left == l.left[..n] + l.left[n..];
    assert l.wire + l.left[..n] + l.left[n..] == l.wire + l.left;
  }

  /** More bytes do not lower what is needed, as long as no frame is complete. */
  lemma NeededGrows(s: seq<byte>, t: seq<byte>)
    requires |s| < Needed(s) && |s + t| <= Needed(s)
    ensures |s + t| <= Needed(s + t)
  {
    if |s| >= 5 { assert (s + t)[1..5] == s[1..5]; }
  }

  lemma ReceiveKeeps(l: Link, n: nat, cap: nat)
    requires LinkInv(l, cap) && CanReceive(l, n)
    ensures LinkInv(Receive(l, n), cap)
  {
    hide EncodeAll, Needed;
    NeededGrows(l.buf, l.wire[..n]);
    assert l.wire == l.wire[..n] + l.wire[n..];
    assert l.buf + l.wire[..n] + (l.wire[n..] + l.left) == l.buf + (l.wire + l.left);
  }

  /** Where the first frame in flight ends: a complete buffer is exactly that frame. */
  lemma FirstInFlight(l: Link, cap: nat)
    requires LinkInv(l, cap) && l.inFlight != []
    ensures |l.buf| <= |Encode(l.inFlight[0])|
    ensures Complete(l) <==> l.buf == Encode(l.inFlight[0])
    ensures Complete(l) ==> FrameIn(l) == l.inFlight[0]
    ensures |l.buf| == |Encode(l.inFlight[0])| ==> Complete(l)
  {
    var f, more := l.inFlight[0], EncodeAll(l.inFlight[1..]);
    assert f in l.inFlight;
    var e := Encode(f);
    hide Encode, EncodeAll;
    assert l.buf + (l.wire + l.left) == e + more by { hide *; UnfoldAll(l.inFlight); }
    FrameRoundTrip(f, []);
    assert e + [] == e;
    WholeNeeds(f);
    SameStart(l.buf, l.wire + l.left, e, more);
    if |l.buf| < |e| {
      PartialFrame(f, |l.buf|);
    } else {
      if |l.buf| > |e| { NeededOfPrefix(e, l.buf); }
      assert l.buf == e;
    }
  }

  lemma SameStart(a: seq<byte>, b: seq<byte>, c: seq<byte>, d: seq<byte>)
    requires a + b == c + d
    ensures if |a| <= |c| then a == c[..|a|] else c == a[..|c|]
  {
    if |a| <= |c| {
      assert a == (a + b)[..|a|] == (c + d)[..|a|];
    } else {
      assert c == (c + d)[..|c|] == (a + b)[..|c|];
    }
  }

  lemma UnfoldAll(fs: seq<Frame>)
    requires fs != []
    ensures EncodeAll(fs) == Encode(fs[0]) + EncodeAll(fs[1..])
  {
  }

  lemma WholeNeeds(f: Frame)
    requires Fits(f.data)
    ensures Needed(Encode(f)) == |Encode(f)| && |Encode(f)| == 5 + |f.data|
  {
    hide Le32, FromLe32;
    assert Encode(f) + [] == Encode(f);
    EncodedHeader(f, []);
    Le32Inverts(|f.data|);
  }

  lemma NeededOfPrefix(e: seq<byte>, t: seq<byte>)
    requires |e| >= 5 && e <= t
    ensures Needed(t) == Needed(e)
  {
    assert t[1..5] == e[1..5];
  }

  lemma DropKeeps(l: Link, cap: nat)
    requires LinkInv(l, cap) && l.inFlight != [] && Complete(l)
    ensures LinkInv(Drop(l), cap)
  {
    FirstInFlight(l, cap);
    var e, more := Encode(l.inFlight[0]), EncodeAll(l.inFlight[1..]);
    UnfoldAll(l.inFlight);
    hide Encode, EncodeAll;
    assert e + (l.wire + l.left) == e + more;
    assert l.wire + l.left == (e + (l.wire + l.left))[|e|..] == more;
    assert [] + (l.wire + l.left) == l.wire + l.left;
  }

  /** Nothing in flight means nothing anywhere on the link. */
  lemma NothingInFlight(l: Link, cap: nat)
    requires LinkInv(l, cap) && l.inFlight == []
    ensures l == QUIET && !Complete(l)
  {
  }

  /** While a frame is in flight, it is there in full, or it can be received further, or written further. */
  lemma LinkMoves(l: Link, cap: nat)
    requires LinkInv(l, cap) && cap > 0 && l.inFlight != []
    ensures Complete(l) || CanReceive(l, 1) || CanWrite(l, 1, cap)
  {
    FirstInFlight(l, cap);
    var e := Encode(l.inFlight[0]);
    UnfoldAll(l.inFlight);
    hide Encode, EncodeAll;
    if l.wire == [] && l.left == [] {
      assert l.buf + ([] + []) == l.buf;
      assert |l.buf| >= |e|;
    }
  }

  lemma CompleteMeansInFlight(l: Link, cap: nat)
    requires LinkInv(l, cap) && Complete(l)
    ensures l.inFlight != [] && FrameIn(l) == l.inFlight[0] && |l.buf| == 5 + |l.inFlight[0].data|
  {
    hide EncodeAll, Encode, LinkInv, Needed;
    if l.inFlight == [] { NothingInFlight(l, cap); } else { FirstInFlight(l, cap); FrameSize(l.inFlight[0]); }
  }

  lemma FrameSize(f: Frame)
    ensures |Encode(f)| == 5 + |f.data|
  {
  }

  lemma WriteSizes(l: Link, n: nat)
    requires n <= |l.left|
    ensures var m := Write(l, n); |m.left| == |l.left| - n && |m.wire| == |l.wire| + n && m.buf == l.buf
  {
  }

  lemma ReceiveSizes(l: Link, n: nat)
    requires n <= |l.wire|
    ensures var m := Receive(l, n); m.left == l.left && |m.wire| == |l.wire| - n && |m.buf| == |l.buf| + n
  {
  }

  lemma SendSizes(l: Link, f: Frame)
    ensures var m := Send(l, f); |m.left| == |l.left| + 5 + |f.data| && m.wire == l.wire && m.buf == l.buf
    ensures Send(l, f).inFlight == l.inFlight + [f]
  {
  }
}
