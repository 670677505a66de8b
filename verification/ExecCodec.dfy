/** The framing of the exec protocol: requests and frames, as written and as read at either end. */
module ExecCodec {
  import opened Streams
  import opened Wrappers

  const CH_STDIN: byte := 0
  const CH_STDOUT: byte := 1
  const CH_STDERR: byte := 2
  const CH_EXIT: byte := 3

  const TWO32: nat := 0x1_0000_0000

  datatype Frame = Frame(chan: byte, data: seq<byte>)

  datatype Request = Request(tty: bool, argv: seq<seq<byte>>, env: seq<seq<byte>>)

  // ----- 32-bit little-endian integers; writing truncates to 32 bits

  function Le32(n: nat): (b: seq<byte>)
    ensures |b| == 4
  {
    [n % 256, n / 0x100 % 256, n / 0x1_0000 % 256, n / 0x100_0000 % 256]
  }

  function FromLe32(b: seq<byte>): (n: nat)
    requires |b| >= 4
    ensures n < TWO32
  {
    var b0: int, b1: int, b2: int, b3: int := b[0], b[1], b[2], b[3];
    b0 + 0x100 * b1 + 0x1_0000 * b2 + 0x100_0000 * b3
  }

  lemma Le32Inverts(n: nat)
    ensures FromLe32(Le32(n)) == n % TWO32
  {
    var a, b, c := n / 0x100, n / 0x1_0000, n / 0x100_0000;
    assert b == a / 0x100 && c == b / 0x100;
    var d := c / 0x100;
    assert n == n % 256 + 0x100 * a && a == a % 256 + 0x100 * b && b == b % 256 + 0x100 * c && c == c % 256 + 0x100 * d;
    var low := FromLe32(Le32(n));
    assert n == low + TWO32 * d;
    ModUnique(n, low, d);
  }

  lemma ModUnique(n: nat, low: nat, d: nat)
    requires n == low + TWO32 * d && low < TWO32
    ensures n % TWO32 == low
  {
  }

  /** A signed 32-bit exit code as the unsigned word that travels, and back. */
  function ToU32(code: int): nat
    requires -0x8000_0000 <= code < 0x8000_0000
  {
    if code < 0 then code + TWO32 else code
  }

  function ToI32(word: nat): int
    requires word < TWO32
  {
    if word >= 0x8000_0000 then word - TWO32 else word
  }

  function ExitFrame(code: int): Frame
    requires -0x8000_0000 <= code < 0x8000_0000
  {
    Frame(CH_EXIT, Le32(ToU32(code)))
  }

  lemma ExitCodeSurvives(code: int)
    requires -0x8000_0000 <= code < 0x8000_0000
    ensures ToI32(FromLe32(ExitFrame(code).data)) == code
  {
    hide Le32, FromLe32;
    Le32Inverts(ToU32(code));
  }

  // ----- frames

  function Encode(f: Frame): seq<byte> {
    [f.chan] + (Le32(|f.data|) + f.data)
  }

  predicate Fits(data: seq<byte>) { |data| < TWO32 }

  /** Bytes that a reader needs before it can hand a frame over: the header, then the announced payload. */
  function Needed(s: seq<byte>): nat {
    if |s| < 5 then 5 else 5 + FromLe32(s[1..5])
  }

  /** The frame at the front of `s` and what follows it, if it is there in full. */
  function Decode(s: seq<byte>): Option<(Frame, seq<byte>)> {
    if |s| < 5 || |s| < Needed(s) then None
    else Some((Frame(s[0], s[5..Needed(s)]), s[Needed(s)..]))
  }

  lemma EncodedHeader(f: Frame, tail: seq<byte>)
    ensures var s := Encode(f) + tail;
            |s| == 5 + |f.data| + |tail| && s[0] == f.chan && s[1..5] == Le32(|f.data|) && s[5..] == f.data + tail
  {
  }

  /** The bytes of a frame: the channel, the length with its low byte first, the payload. */
  lemma FrameBytes(f: Frame)
    ensures var n := |f.data|;
            Encode(f) == [f.chan, n % 256, n / 256 % 256, n / 65536 % 256, n / 16777216 % 256] + f.data
  {
  }

  /** Reading undoes writing, whatever follows, exactly when the length fits its 32-bit field. */
  lemma FrameRoundTrip(f: Frame, tail: seq<byte>)
    ensures Decode(Encode(f) + tail) == Some((f, tail)) <==> Fits(f.data)
  {
    hide Encode, Le32, FromLe32;
    var s := Encode(f) + tail;
    EncodedHeader(f, tail);
    Le32Inverts(|f.data|);
    var n := |f.data| % TWO32;
    assert Needed(s) == 5 + n;
    assert s[5..5 + n] == s[5..][..n] == (f.data + tail)[..n];
    if Fits(f.data) {
      assert n == |f.data|;
      assert s[5 + n..] == s[5..][n..] == tail;
    } else {
      assert |Decode(s).value.0.data| == n < |f.data|;
    }
  }

  /** A frame that has not arrived in full is not handed over. */
  lemma PartialFrame(f: Frame, k: nat)
    requires Fits(f.data) && k < |Encode(f)|
    ensures Decode(Encode(f)[..k]) == None && k < Needed(Encode(f)[..k]) <= |Encode(f)|
  {
    hide Encode, Le32, FromLe32;
    var s := Encode(f)[..k];
    assert Encode(f) + [] == Encode(f);
    EncodedHeader(f, []);
    Le32Inverts(|f.data|);
    if k >= 5 { assert s[1..5] == Encode(f)[1..5]; }
  }

  function EncodeAll(fs: seq<Frame>): seq<byte> {
    if fs == [] then [] else Encode(fs[0]) + EncodeAll(fs[1..])
  }

  ghost predicate AllFit(fs: seq<Frame>) { forall f <- fs :: Fits(f.data) }

  lemma {:induction false} EncodeAllSnoc(fs: seq<Frame>, f: Frame)
    ensures EncodeAll(fs + [f]) == EncodeAll(fs) + Encode(f)
    decreases |fs|
  {
    if fs == [] {
      assert [f][1..] == [] && fs + [f] == [f];
      assert Encode(f) + [] == [] + Encode(f);
    } else {
      assert (fs + [f])[1..] == fs[1..] + [f];
      EncodeAllSnoc(fs[1..], f);
    }
  }

  /** Every frame that has arrived in full, and the bytes behind the last one. */
  function DecodeAll(s: seq<byte>): (seq<Frame>, seq<byte>)
    decreases |s|
  {
    if Decode(s).None? then ([], s)
    else
      var (f, tail) := Decode(s).value;
      var (fs, rest) := DecodeAll(tail);
      ([f] + fs, rest)
  }

  /** A run of whole frames followed by part of one decodes to exactly the whole ones. */
  lemma {:induction false} WholeFramesOnly(fs: seq<Frame>, part: seq<byte>)
    requires AllFit(fs) && Decode(part) == None
    ensures DecodeAll(EncodeAll(fs) + part) == (fs, part)
    decreases |fs|
  {
    hide Decode, Encode;
    if fs == [] {
      assert EncodeAll(fs) + part == part;
    } else {
      var tail := EncodeAll(fs[1..]) + part;
      assert EncodeAll(fs) + part == Encode(fs[0]) + tail;
      assert fs[0] in fs;
      FrameRoundTrip(fs[0], tail);
      WholeFramesOnly(fs[1..], part);
      assert fs == [fs[0]] + fs[1..];
    }
  }

  // ----- requests

  function EncodeString(b: seq<byte>): seq<byte> { Le32(|b|) + b }

  function EncodeStrings(bs: seq<seq<byte>>): seq<byte> {
    if bs == [] then [] else EncodeString(bs[0]) + EncodeStrings(bs[1..])
  }

  function EncodeRequest(r: Request): seq<byte> {
    [if r.tty then 1 else 0] + (Le32(|r.argv|) + (EncodeStrings(r.argv) + (Le32(|r.env|) + EncodeStrings(r.env))))
  }

  function DecodeWord(s: seq<byte>): Option<(nat, seq<byte>)> {
    if |s| < 4 then None else Some((FromLe32(s), s[4..]))
  }

  function DecodeString(s: seq<byte>): Option<(seq<byte>, seq<byte>)> {
    match DecodeWord(s)
    case None => None
    case Some((n, rest)) => if |rest| < n then None else Some((rest[..n], rest[n..]))
  }

  function DecodeStrings(s: seq<byte>, n: nat): Option<(seq<seq<byte>>, seq<byte>)> {
    if n == 0 then Some(([], s))
    else match DecodeString(s)
      case None => None
      case Some((b, rest)) =>
        match DecodeStrings(rest, n - 1)
        case None => None
        case Some((bs, end)) => Some(([b] + bs, end))
  }

  function DecodeRequest(s: seq<byte>): Option<(Request, seq<byte>)> {
    if s == [] then None
    else match DecodeWord(s[1..])
      case None => None
      case Some((argc, a)) =>
        match DecodeStrings(a, argc)
        case None => None
        case Some((argv, b)) =>
          match DecodeWord(b)
          case None => None
          case Some((envc, e)) =>
            match DecodeStrings(e, envc)
            case None => None
            case Some((env, rest)) => Some((Request(s[0] != 0, argv, env), rest))
  }

  /** The bytes of a request with one argument and one variable. */
  lemma RequestBytes(tty: bool, arg: seq<byte>, variable: seq<byte>)
    ensures EncodeRequest(Request(tty, [arg], [variable])) ==
            [if tty then 1 else 0] + [1, 0, 0, 0] + Le32(|arg|) + arg + [1, 0, 0, 0] + Le32(|variable|) + variable
    ensures EncodeRequest(Request(tty, [], [])) == [if tty then 1 else 0] + [0, 0, 0, 0] + [0, 0, 0, 0]
  {
    OneString(arg);
    OneString(variable);
    assert Le32(1) == [1, 0, 0, 0] && Le32(0) == [0, 0, 0, 0];
  }

  lemma OneString(b: seq<byte>)
    ensures EncodeStrings([b]) == Le32(|b|) + b
  {
    hide Le32;
    assert [b][1..] == [];
  }

  ghost predicate StringsFit(bs: seq<seq<byte>>) { |bs| < TWO32 && forall b <- bs :: Fits(b) }

  lemma WordRoundTrip(n: nat, tail: seq<byte>)
    requires n < TWO32
    ensures DecodeWord(Le32(n) + tail) == Some((n, tail))
  {
    Le32Inverts(n);
    assert (Le32(n) + tail)[4..] == tail;
  }

  lemma StringRoundTrip(b: seq<byte>, tail: seq<byte>)
    requires Fits(b)
    ensures DecodeString(EncodeString(b) + tail) == Some((b, tail))
  {
    assert EncodeString(b) + tail == Le32(|b|) + (b + tail);
    WordRoundTrip(|b|, b + tail);
  }

  lemma {:induction false} StringsRoundTrip(bs: seq<seq<byte>>, tail: seq<byte>)
    requires forall b <- bs :: Fits(b)
    ensures DecodeStrings(EncodeStrings(bs) + tail, |bs|) == Some((bs, tail))
    decreases |bs|
  {
    if bs == [] {
      assert EncodeStrings(bs) + tail == tail;
    } else {
      var more := EncodeStrings(bs[1..]) + tail;
      assert EncodeStrings(bs) + tail == EncodeString(bs[0]) + more;
      assert bs[0] in bs;
      StringRoundTrip(bs[0], more);
      StringsRoundTrip(bs[1..], tail);
      assert bs == [bs[0]] + bs[1..];
    }
  }

  lemma FittingRequestRoundTrip(r: Request, tail: seq<byte>)
    requires StringsFit(r.argv) && StringsFit(r.env)
    ensures DecodeRequest(EncodeRequest(r) + tail) == Some((r, tail))
  {
    hide EncodeStrings, DecodeStrings, Le32, FromLe32, DecodeWord;
    var e := EncodeStrings(r.env) + tail;
    var b := Le32(|r.env|) + e;
    var a := EncodeStrings(r.argv) + b;
    var s := EncodeRequest(r) + tail;
    assert s[1..] == Le32(|r.argv|) + a;
    WordRoundTrip(|r.argv|, a);
    StringsRoundTrip(r.argv, b);
    WordRoundTrip(|r.env|, e);
    StringsRoundTrip(r.env, tail);
  }

  /** Any byte but 0 in front asks for a terminal. */
  lemma TtyByte(r: Request, b: byte, tail: seq<byte>)
    requires StringsFit(r.argv) && StringsFit(r.env)
    ensures DecodeRequest([b] + EncodeRequest(r)[1..] + tail) == Some((r.(tty := b != 0), tail))
  {
    hide EncodeStrings, DecodeStrings, Le32, FromLe32, DecodeWord;
    FittingRequestRoundTrip(r, tail);
    var s, t := [b] + EncodeRequest(r)[1..] + tail, EncodeRequest(r) + tail;
    assert s[1..] == t[1..] && s[0] == b;
  }

  /** A reader that takes lengths from 32-bit words can only ever have read what such words can count. */
  lemma {:induction false} DecodedStringsFit(s: seq<byte>, n: nat)
    requires DecodeStrings(s, n).Some?
    ensures |DecodeStrings(s, n).value.0| == n && forall b <- DecodeStrings(s, n).value.0 :: Fits(b)
    decreases n
  {
    hide FromLe32;
    if n > 0 { DecodedStringsFit(DecodeString(s).value.1, n - 1); }
  }

  lemma DecodedRequestFits(s: seq<byte>)
    requires DecodeRequest(s).Some?
    ensures StringsFit(DecodeRequest(s).value.0.argv) && StringsFit(DecodeRequest(s).value.0.env)
  {
    hide FromLe32, DecodeStrings;
    var (argc, a) := DecodeWord(s[1..]).value;
    DecodedStringsFit(a, argc);
    var (envc, e) := DecodeWord(DecodeStrings(a, argc).value.1).value;
    DecodedStringsFit(e, envc);
  }

  /** Reading a request undoes writing it, whatever follows, exactly when every count and length fits its field. */
  lemma RequestRoundTrip(r: Request, tail: seq<byte>)
    ensures DecodeRequest(EncodeRequest(r) + tail) == Some((r, tail)) <==> StringsFit(r.argv) && StringsFit(r.env)
  {
    hide EncodeRequest, DecodeRequest;
    var s := EncodeRequest(r) + tail;
    if StringsFit(r.argv) && StringsFit(r.env) {
      FittingRequestRoundTrip(r, tail);
    } else if DecodeRequest(s).Some? {
      DecodedRequestFits(s);
    }
  }

  // ----- decoding consumes a prefix, so a message cut short is no message

  lemma StringStable(s: seq<byte>, t: seq<byte>)
    requires DecodeString(s).Some?
    ensures DecodeString(s + t) == Some((DecodeString(s).value.0, DecodeString(s).value.1 + t))
  {
    assert (s + t)[4..] == s[4..] + t;
    var n := FromLe32(s);
    assert (s[4..] + t)[..n] == s[4..][..n] && (s[4..] + t)[n..] == s[4..][n..] + t;
  }

  lemma {:induction false} StringsStable(s: seq<byte>, n: nat, t: seq<byte>)
    requires DecodeStrings(s, n).Some?
    ensures DecodeStrings(s + t, n) == Some((DecodeStrings(s, n).value.0, DecodeStrings(s, n).value.1 + t))
    decreases n
  {
    if n > 0 {
      StringStable(s, t);
      StringsStable(DecodeString(s).value.1, n - 1, t);
    }
  }

  lemma WordStable(s: seq<byte>, t: seq<byte>)
    requires DecodeWord(s).Some?
    ensures DecodeWord(s + t) == Some((DecodeWord(s).value.0, DecodeWord(s).value.1 + t))
  {
    assert (s + t)[4..] == s[4..] + t;
  }

  lemma RequestStable(s: seq<byte>, t: seq<byte>)
    requires DecodeRequest(s).Some?
    ensures DecodeRequest(s + t) == Some((DecodeRequest(s).value.0, DecodeRequest(s).value.1 + t))
  {
    hide DecodeStrings, DecodeWord;
    assert (s + t)[1..] == s[1..] + t;
    WordStable(s[1..], t);
    var (argc, a) := DecodeWord(s[1..]).value;
    StringsStable(a, argc, t);
    var b := DecodeStrings(a, argc).value.1;
    WordStable(b, t);
    var (envc, e) := DecodeWord(b).value;
    StringsStable(e, envc, t);
  }

  lemma PartialRequest(r: Request, k: nat)
    requires StringsFit(r.argv) && StringsFit(r.env) && k < |EncodeRequest(r)|
    ensures DecodeRequest(EncodeRequest(r)[..k]) == None
  {
    var s := EncodeRequest(r);
    assert s == s[..k] + s[k..] && s + [] == s;
    RequestRoundTrip(r, []);
    if DecodeRequest(s[..k]).Some? { RequestStable(s[..k], s[k..]); }
  }

  // ----- the readers

  ghost function Ahead(bs: seq<seq<byte>>, r: Option<(seq<seq<byte>>, seq<byte>)>): Option<(seq<seq<byte>>, seq<byte>)> {
    if r.None? then None else Some((bs + r.value.0, r.value.1))
  }

  lemma Ahead0(r: Option<(seq<seq<byte>>, seq<byte>)>)
    ensures Ahead([], r) == r
  {
    if r.Some? { assert [] + r.value.0 == r.value.0; }
  }

  lemma AheadOne(bs: seq<seq<byte>>, b: seq<byte>, r: Option<(seq<seq<byte>>, seq<byte>)>)
    ensures Ahead(bs, Ahead([b], r)) == Ahead(bs + [b], r)
  {
    if r.Some? { assert bs + ([b] + r.value.0) == bs + [b] + r.value.0; }
  }

  /** What will still arrive on a connection before it closes. */
  class Connection {
    var rest: seq<byte>

    constructor (bytes: seq<byte>)
      ensures rest == bytes
    {
      rest := bytes;
    }

    /** Exactly `n` bytes, or nothing once the connection ends too early. */
    method ReadExact(n: nat) returns (got: Option<seq<byte>>)
      modifies this
      ensures n <= |old(rest)| ==> got == Some(old(rest)[..n]) && rest == old(rest)[n..]
      ensures n > |old(rest)| ==> got == None && rest == []
    {
      if n > |rest| {
        rest := [];
        return None;
      }
      got := Some(rest[..n]);
      rest := rest[n..];
    }

    method ReadWord() returns (got: Option<nat>)
      modifies this
      ensures match DecodeWord(old(rest)) case None => got == None case Some((n, s)) => got == Some(n) && rest == s
    {
      var b := ReadExact(4);
      got := if b.None? then None else Some(FromLe32(b.value));
    }

    method ReadString() returns (got: Option<seq<byte>>)
      modifies this
      ensures match DecodeString(old(rest)) case None => got == None case Some((b, s)) => got == Some(b) && rest == s
    {
      var n := ReadWord();
      if n.None? { return None; }
      got := ReadExact(n.value);
    }

    method ReadStrings(n: nat) returns (got: Option<seq<seq<byte>>>)
      modifies this
      ensures match DecodeStrings(old(rest), n) case None => got == None case Some((bs, s)) => got == Some(bs) && rest == s
    {
      hide DecodeString;
      var bs := [];
      Ahead0(DecodeStrings(rest, n));
      for i := 0 to n
        invariant DecodeStrings(old(rest), n) == Ahead(bs, DecodeStrings(rest, n - i))
      {
        var b := ReadString();
        if b.None? { return None; }
        AheadOne(bs, b.value, DecodeStrings(rest, n - i - 1));
        bs := bs + [b.value];
      }
      assert bs + [] == bs;
      got := Some(bs);
    }

    /** The guest's reader for the request. */
    method ReadRequest() returns (got: Option<Request>)
      modifies this
      ensures match DecodeRequest(old(rest)) case None => got == None case Some((r, s)) => got == Some(r) && rest == s
    {
      hide DecodeStrings, FromLe32;
      var tty := ReadExact(1);
      if tty.None? { return None; }
      var argc := ReadWord();
      if argc.None? { return None; }
      var argv := ReadStrings(argc.value);
      if argv.None? { return None; }
      var envc := ReadWord();
      if envc.None? { return None; }
      var env := ReadStrings(envc.value);
      if env.None? { return None; }
      got := Some(Request(tty.value[0] != 0, argv.value, env.value));
    }

    /** The host's reader: a five-byte header, then the payload. */
    method ReadFrame() returns (got: Option<Frame>)
      modifies this
      ensures match Decode(old(rest)) case None => got == None case Some((f, s)) => got == Some(f) && rest == s
    {
      ghost var s := rest;
      var hdr := ReadExact(5);
      if hdr.None? { return None; }
      assert hdr.value[1..] == s[1..5];
      ghost var n := FromLe32(s[1..5]);
      assert n <= |s| - 5 ==> s[5..][..n] == s[5..5 + n] && s[5..][n..] == s[5 + n..];
      var data := ReadExact(FromLe32(hdr.value[1..]));
      got := if data.None? then None else Some(Frame(hdr.value[0], data.value));
    }

    /** The guest's reader: the channel byte, then a length-prefixed string. It reads the same frames. */
    method ReadFrameInTwo() returns (got: Option<Frame>)
      modifies this
      ensures match Decode(old(rest)) case None => got == None case Some((f, s)) => got == Some(f) && rest == s
    {
      ghost var s := rest;
      var chan := ReadExact(1);
      if chan.None? { return None; }
      if |s| >= 5 {
        ghost var n := FromLe32(s[1..5]);
        assert FromLe32(s[1..]) == n && s[1..][4..] == s[5..];
        assert n <= |s| - 5 ==> s[5..][..n] == s[5..5 + n] && s[5..][n..] == s[5 + n..];
      }
      var data := ReadString();
      got := if data.None? then None else Some(Frame(chan.value[0], data.value));
    }
  }

  // ----- the payloads of a run of frames

  /** The payloads on one channel, in order. */
  function Payload(fs: seq<Frame>, chan: byte): seq<byte> {
    if fs == [] then []
    else Payload(fs[..|fs| - 1], chan) + if fs[|fs| - 1].chan == chan then fs[|fs| - 1].data else []
  }

  lemma PayloadSnoc(fs: seq<Frame>, f: Frame, chan: byte)
    ensures Payload(fs + [f], chan) == Payload(fs, chan) + if f.chan == chan then f.data else []
  {
    assert (fs + [f])[..|fs|] == fs;
  }

  lemma PayloadOfOne(f: Frame, chan: byte)
    ensures Payload([], chan) == [] && Payload([f], chan) == if f.chan == chan then f.data else []
  {
    assert [f][..0] == [];
  }

  lemma {:induction false} PayloadCons(fs: seq<Frame>, chan: byte)
    requires fs != []
    ensures Payload(fs, chan) == (if fs[0].chan == chan then fs[0].data else []) + Payload(fs[1..], chan)
    decreases |fs|
  {
    hide Payload;
    var front, last := fs[..|fs| - 1], fs[|fs| - 1];
    assert fs == front + [last];
    var head: seq<byte> := if fs[0].chan == chan then fs[0].data else [];
    if front == [] {
      PayloadOfOne(last, chan);
      assert fs[1..] == [] && fs == [last] && head + [] == head;
    } else {
      PayloadCons(front, chan);
      assert fs[1..] == front[1..] + [last];
      PayloadSnoc(front[1..], last, chan);
      PayloadSnoc(front, last, chan);
      Regroup(head, Payload(front[1..], chan), if last.chan == chan then last.data else []);
    }
  }

  ghost predicate NoExit(fs: seq<Frame>) { forall f <- fs :: f.chan == CH_STDOUT || f.chan == CH_STDERR }

  // ----- the host's loop over the frames of one exec

  /** What the host makes of the frames, in order, up to the first exit frame. */
  datatype Outcome = Outcome(out: seq<byte>, stderr: seq<byte>, code: int, sawExit: bool)

  function Take(o: Outcome, f: Frame): Outcome {
    if o.sawExit then o
    else if f.chan == CH_STDOUT then o.(out := o.out + f.data)
    else if f.chan == CH_STDERR then o.(stderr := o.stderr + f.data)
    else if f.chan == CH_EXIT then
      o.(sawExit := true, code := if |f.data| >= 4 then ToI32(FromLe32(f.data)) else o.code)
    else o
  }

  function TakeAll(o: Outcome, fs: seq<Frame>): Outcome
    decreases |fs|
  {
    if fs == [] then o else TakeAll(Take(o, fs[0]), fs[1..])
  }

  const NOTHING := Outcome([], [], 0, false)

  lemma {:induction false} ExitIsFinal(o: Outcome, fs: seq<Frame>)
    requires o.sawExit
    ensures TakeAll(o, fs) == o
    decreases |fs|
  {
    if fs != [] { ExitIsFinal(o, fs[1..]); }
  }

  /** Frames in front of the first exit frame: the payloads of the two outputs, in order, and nothing of the rest. */
  lemma {:induction false} TakesOutputs(fs: seq<Frame>)
    requires forall f <- fs :: f.chan != CH_EXIT
    ensures TakeAll(NOTHING, fs) == Outcome(Payload(fs, 1), Payload(fs, 2), 0, false)
    decreases |fs|
  {
    if fs != [] {
      var front, last := fs[..|fs| - 1], fs[|fs| - 1];
      assert fs == front + [last];
      TakesOutputs(front);
      TakeAllSnoc(NOTHING, front, last);
      assert last in fs;
      var a, b := Payload(front, 1), Payload(front, 2);
      assert a + [] == a && b + [] == b;
    }
  }

  lemma {:induction false} TakeAllSnoc(o: Outcome, fs: seq<Frame>, f: Frame)
    ensures TakeAll(o, fs + [f]) == Take(TakeAll(o, fs), f)
    decreases |fs|
  {
    if fs == [] {
      assert (fs + [f])[1..] == [];
    } else {
      assert (fs + [f])[1..] == fs[1..] + [f];
      TakeAllSnoc(Take(o, fs[0]), fs[1..], f);
    }
  }

  lemma {:induction false} TakeAllAppend(o: Outcome, a: seq<Frame>, b: seq<Frame>)
    ensures TakeAll(o, a + b) == TakeAll(TakeAll(o, a), b)
    decreases |a|
  {
    if a == [] {
      assert a + b == b;
    } else {
      assert (a + b)[1..] == a[1..] + b;
      TakeAllAppend(Take(o, a[0]), a[1..], b);
    }
  }

  /** The outcome of any frames: with the first exit frame at `k` its code is taken, if it has one, and nothing behind
      it counts. */
  lemma OutcomeMeans(fs: seq<Frame>, k: nat)
    requires k < |fs| && fs[k].chan == 3 && forall i :: 0 <= i < k ==> fs[i].chan != 3
    ensures TakeAll(NOTHING, fs) ==
            Outcome(Payload(fs[..k], 1), Payload(fs[..k], 2),
                    if |fs[k].data| >= 4 then ToI32(FromLe32(fs[k].data)) else 0, true)
  {
    hide Take, TakeAll, Payload, ToI32, FromLe32;
    var front, rest := fs[..k], fs[k + 1..];
    forall f <- front ensures f.chan != CH_EXIT {}
    TakesOutputs(front);
    TakeAllSnoc(NOTHING, front, fs[k]);
    assert fs == front + [fs[k]] + rest;
    TakeAllAppend(NOTHING, front + [fs[k]], rest);
    TakesExit(TakeAll(NOTHING, front), fs[k]);
    ExitIsFinal(Take(TakeAll(NOTHING, front), fs[k]), rest);
  }

  lemma TakesExit(o: Outcome, f: Frame)
    requires !o.sawExit && f.chan == CH_EXIT
    ensures Take(o, f) == o.(sawExit := true, code := if |f.data| >= 4 then ToI32(FromLe32(f.data)) else o.code)
  {
  }

  method HostLoop(conn: Connection) returns (o: Outcome)
    modifies conn
    ensures o == TakeAll(NOTHING, DecodeAll(old(conn.rest)).0)
  {
    hide Decode;
    o := NOTHING;
    while !o.sawExit
      invariant TakeAll(NOTHING, DecodeAll(old(conn.rest)).0) == TakeAll(o, DecodeAll(conn.rest).0)
      decreases |conn.rest|, !o.sawExit
    {
      ghost var was := conn.rest;
      var f := conn.ReadFrame();
      if f.None? { return; }
      DecodeShrinks(was);
      assert DecodeAll(was).0[1..] == DecodeAll(conn.rest).0;
      o := Take(o, f.value);
    }
    ExitIsFinal(o, DecodeAll(conn.rest).0);
  }

  lemma DecodeShrinks(s: seq<byte>)
    requires Decode(s).Some?
    ensures |Decode(s).value.1| < |s|
  {
  }
}
