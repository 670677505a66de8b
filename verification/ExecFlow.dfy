/** One whole piped exec with bounded buffers. The host pumps its input in one thread and reads in another; the
    guest feeds the child's standard input and has a task on each of the child's outputs, which share the socket
    behind a lock. The child reads, writes on both outputs, and exits, as and when it likes. */
module ExecFlow {
  import opened Streams
  import opened Wrappers
  import opened ExecCodec
  import opened ExecLink

  const PUMP_READ: nat := 65536
  const PIPE_READ: nat := 8192

  type Code = x: int | -0x8000_0000 <= x < 0x8000_0000

  /** The child's outputs. */
  datatype Pipe = Out | Err

  function ChannelOf(p: Pipe): byte { if p == Out then CH_STDOUT else CH_STDERR }

  /** What the child does next when it is not in the middle of anything. */
  datatype Wish = WantRead | WantWrite(to: Pipe, data: seq<byte>) | WantExit(code: Code)

  /** Running on its own, blocked in a read or in a write, or gone. */
  datatype Child = Running | Reading | Writing(to: Pipe) | Exited(code: Code)

  /** A pump task is between reads, has data and waits for the lock, holds the lock, or is done. */
  datatype Task = Idle | Holding(data: seq<byte>) | Sending | Done

  /** One output of the child: what it has asked to write so far, what of that is still in its hands, the pipe,
      and the task at the other end. */
  datatype Side = Side(said: seq<byte>, left: seq<byte>, pipe: seq<byte>, task: Task)

  /** The way in: the host's input, the frames, a payload on its way to the child, its pipe, what the child has read,
      and whether it has seen the end. */
  datatype Input = Input(src: seq<byte>, eofSent: bool, up: Link, open: bool, feed: seq<byte>, stdin: seq<byte>,
                         got: seq<byte>, sawEnd: bool)

  /** `exitSent`: the exit frame has been made; `closed`: the guest is done with the socket; `broken`: a write of
      the host's pump has failed. */
  datatype State = State(inp: Input, child: Child, out: Side, err: Side, exitSent: bool, down: Link, closed: bool,
                         broken: bool, host: Outcome)
  {
    function SideOf(p: Pipe): Side { if p == Out then out else err }

    function With(p: Pipe, x: Side): State { if p == Out then this.(out := x) else this.(err := x) }

    /** The host is done: it has its exit status, and its pump has ended. */
    predicate Settled() { host.sawExit && (broken || (inp.eofSent && inp.up.left == [])) }
  }

  /** The input, and the capacities of the two socket directions and the three pipes. */
  datatype Setup = Setup(input: seq<byte>, upCap: nat, downCap: nat, inCap: nat, outCap: nat, errCap: nat)
  {
    predicate Valid() { upCap > 0 && downCap > 0 && inCap > 0 && outCap > 0 && errCap > 0 }

    function PipeCap(p: Pipe): nat { if p == Out then outCap else errCap }
  }

  const QUIET_SIDE := Side([], [], [], Idle)

  function Initial(c: Setup): State {
    State(Input(c.input, false, QUIET, true, [], [], [], false), Running, QUIET_SIDE, QUIET_SIDE, false, QUIET, false,
          false, NOTHING)
  }

  // ----- the steps

  datatype Step =
    | PumpRead(n: nat) | PumpEof | PumpWrite(n: nat) | PumpBreaks
    | GuestReceive(n: nat) | GuestFrame | GuestFeed(n: nat) | FeedBreaks
    | Decide(w: Wish) | ChildRead(n: nat) | ChildReadEnd | ChildWrite(n: nat)
    | TakePipe(p: Pipe, n: nat) | EndPipe(p: Pipe) | SendPipe(p: Pipe) | ReleasePipe(p: Pipe)
    | ExitStatus | GuestWrite(n: nat) | GuestClose
    | HostReceive(n: nat) | HostFrame

  predicate LockFree(s: State) { s.out.task != Sending && s.err.task != Sending }

  predicate Enabled(c: Setup, s: State, e: Step) {
    var i := s.inp;
    match e
    case PumpRead(n) => !i.eofSent && !s.broken && i.up.left == [] && 0 < n <= |i.src| && n <= PUMP_READ
    case PumpEof => !i.eofSent && !s.broken && i.up.left == [] && i.src == []
    case PumpWrite(n) => !s.closed && !s.broken && CanWrite(i.up, n, c.upCap)
    case PumpBreaks => s.closed && !s.broken && !(i.eofSent && i.up.left == [])
    case GuestReceive(n) => i.open && i.feed == [] && CanReceive(i.up, n)
    case GuestFrame => i.open && i.feed == [] && Complete(i.up)
    case GuestFeed(n) => !s.child.Exited? && 0 < n <= |i.feed| && |i.stdin| + n <= c.inCap
    case FeedBreaks => s.child.Exited? && i.feed != []
    case Decide(_) => s.child.Running?
    case ChildRead(n) => s.child.Reading? && 0 < n <= |i.stdin|
    case ChildReadEnd => s.child.Reading? && i.stdin == [] && !i.open
    case ChildWrite(n) =>
      s.child.Writing? && 0 < n <= |s.SideOf(s.child.to).left| && |s.SideOf(s.child.to).pipe| + n <= c.PipeCap(s.child.to)
    case TakePipe(p, n) => s.SideOf(p).task == Idle && 0 < n <= |s.SideOf(p).pipe| && n <= PIPE_READ
    case EndPipe(p) => s.SideOf(p).task == Idle && s.SideOf(p).pipe == [] && s.child.Exited?
    case SendPipe(p) => s.SideOf(p).task.Holding? && LockFree(s)
    case ReleasePipe(p) => s.SideOf(p).task == Sending && s.down.left == []
    case ExitStatus => s.child.Exited? && s.out.task == Done && s.err.task == Done && !s.exitSent
    case GuestWrite(n) => CanWrite(s.down, n, c.downCap)
    case GuestClose => s.exitSent && s.down.left == [] && !s.closed
    case HostReceive(n) => !s.host.sawExit && CanReceive(s.down, n)
    case HostFrame => !s.host.sawExit && Complete(s.down)
  }

  /** The guest's reader on a frame: no data closes the child's input, other channels are ignored. */
  function Accept(i: Input): Input
    requires Complete(i.up)
  {
    var f := FrameIn(i.up);
    if f.chan != CH_STDIN then i.(up := Drop(i.up))
    else if f.data == [] then i.(up := Drop(i.up), open := false)
    else i.(up := Drop(i.up), feed := f.data)
  }

  function Grant(s: State, w: Wish): State {
    match w
    case WantRead => s.(child := Reading)
    case WantExit(code) => s.(child := Exited(code))
    case WantWrite(p, data) =>
      var x := s.SideOf(p);
      s.With(p, x.(said := x.said + data, left := data)).(child := if data == [] then Running else Writing(p))
  }

  function WriteOn(s: State, p: Pipe, n: nat): State
    requires n <= |s.SideOf(p).left|
  {
    var x := s.SideOf(p);
    var y := x.(pipe := x.pipe + x.left[..n], left := x.left[n..]);
    s.With(p, y).(child := if y.left == [] then Running else Writing(p))
  }

  function Do(c: Setup, s: State, e: Step): State
    requires Enabled(c, s, e)
  {
    var i := s.inp;
    match e
    case PumpRead(n) => s.(inp := i.(src := i.src[n..], up := Send(i.up, Frame(CH_STDIN, i.src[..n]))))
    case PumpEof => s.(inp := i.(eofSent := true, up := Send(i.up, Frame(CH_STDIN, []))))
    case PumpWrite(n) => s.(inp := i.(up := Write(i.up, n)))
    case PumpBreaks => s.(broken := true)
    case GuestReceive(n) => s.(inp := i.(up := Receive(i.up, n)))
    case GuestFrame => s.(inp := Accept(i))
    case GuestFeed(n) => s.(inp := i.(feed := i.feed[n..], stdin := i.stdin + i.feed[..n]))
    case FeedBreaks => s.(inp := i.(feed := [], open := false))
    case Decide(w) => Grant(s, w)
    case ChildRead(n) => s.(inp := i.(got := i.got + i.stdin[..n], stdin := i.stdin[n..]), child := Running)
    case ChildReadEnd => s.(inp := i.(sawEnd := true), child := Running)
    case ChildWrite(n) => WriteOn(s, s.child.to, n)
    case TakePipe(p, n) =>
      var x := s.SideOf(p);
      s.With(p, x.(pipe := x.pipe[n..], task := Holding(x.pipe[..n])))
    case EndPipe(p) => s.With(p, s.SideOf(p).(task := Done))
    case SendPipe(p) =>
      s.With(p, s.SideOf(p).(task := Sending)).(down := Send(s.down, Frame(ChannelOf(p), s.SideOf(p).task.data)))
    case ReleasePipe(p) => s.With(p, s.SideOf(p).(task := Idle))
    case ExitStatus =>
      s.(exitSent := true, down := Send(s.down, ExitFrame(s.child.code)), inp := i.(open := false, feed := []))
    case GuestWrite(n) => s.(down := Write(s.down, n))
    case GuestClose => s.(closed := true)
    case HostReceive(n) => s.(down := Receive(s.down, n))
    case HostFrame => s.(down := Drop(s.down), host := Take(s.host, FrameIn(s.down)))
  }

  /** The state after some steps; None if one of them was not enabled. */
  function After(c: Setup, steps: seq<Step>): Option<State> {
    if steps == [] then Some(Initial(c))
    else match After(c, steps[..|steps| - 1])
      case None => None
      case Some(s) => if Enabled(c, s, steps[|steps| - 1]) then Some(Do(c, s, steps[|steps| - 1])) else None
  }

  // ----- the invariant, part by part

  ghost predicate AllOn(fs: seq<Frame>, chan: byte) { forall f <- fs :: f.chan == chan }

  ghost predicate AllFull(fs: seq<Frame>) { forall f <- fs :: f.data != [] }

  /** As long as the child lives, every byte of the input is, in order, read, in its pipe, on the way, or unread. */
  ghost predicate InputInv(c: Setup, i: Input, alive: bool) {
    && LinkInv(i.up, c.upCap) && AllOn(i.up.inFlight, CH_STDIN)
    && (if i.eofSent then i.src == [] else AllFull(i.up.inFlight))
    && (i.eofSent && i.open ==> EndsEmpty(i.up.inFlight))
    && i.got <= c.input && (i.sawEnd ==> i.got == c.input) && (i.feed != [] ==> i.open)
    && (alive ==> (i.open || (i.eofSent && i.up.inFlight == []))
                  && i.got + i.stdin + i.feed + Payload(i.up.inFlight, CH_STDIN) + i.src == c.input)
  }

  /** The frame that closes the input is the last one, and the only one without data. */
  ghost predicate EndsEmpty(fs: seq<Frame>) { fs != [] && fs[|fs| - 1].data == [] && AllFull(fs[..|fs| - 1]) }

  function Held(t: Task): seq<byte> { if t.Holding? then t.data else [] }

  /** Every byte that the child has written on a pipe is, in order, with the host, in a frame, with the task, in
      the pipe, or still in the child's hands. */
  ghost predicate SideInv(host: seq<byte>, flight: seq<Frame>, p: Pipe, x: Side, child: Child) {
    && host + Payload(flight, ChannelOf(p)) + Held(x.task) + x.pipe + x.left == x.said
    && (x.task.Holding? ==> 0 < |x.task.data| <= PIPE_READ)
    && (x.left != [] <==> child == Writing(p))
    && (x.task.Done? ==> child.Exited? && x.pipe == [])
  }

  function HostPart(o: Outcome, p: Pipe): seq<byte> { if p == Out then o.out else o.stderr }

  ghost predicate SideOk(s: State, p: Pipe) { SideInv(HostPart(s.host, p), s.down.inFlight, p, s.SideOf(p), s.child) }

  ghost predicate LockInv(out: Task, err: Task, left: seq<byte>, exitSent: bool, closed: bool, exited: bool, open: bool,
                          broken: bool)
  {
    && !(out == Sending && err == Sending)
    && (left != [] ==> out == Sending || err == Sending || exitSent)
    && (exitSent ==> out == Done && err == Done && exited && !open)
    && (closed ==> exitSent && left == []) && (broken ==> closed)
  }

  ghost predicate LockOk(s: State) {
    LockInv(s.out.task, s.err.task, s.down.left, s.exitSent, s.closed, s.child.Exited?, s.inp.open, s.broken)
  }

  ghost predicate DownInv(c: Setup, down: Link, exitSent: bool, child: Child, sawExit: bool, code: int) {
    && LinkInv(down, c.downCap)
    && (!exitSent ==> !sawExit && NoExit(down.inFlight))
    && (exitSent ==> child.Exited?)
    && (exitSent && !sawExit ==>
          down.inFlight != [] && down.inFlight[|down.inFlight| - 1] == ExitFrame(child.code)
          && NoExit(down.inFlight[..|down.inFlight| - 1]))
    && (sawExit ==> exitSent && down.inFlight == [] && code == child.code)
  }

  ghost predicate DownOk(c: Setup, s: State) { DownInv(c, s.down, s.exitSent, s.child, s.host.sawExit, s.host.code) }

  ghost predicate Inv(c: Setup, s: State) {
    InputInv(c, s.inp, !s.child.Exited?) && SideOk(s, Out) && SideOk(s, Err) && LockOk(s) && DownOk(c, s)
  }

  lemma InitialInv(c: Setup)
    ensures Inv(c, Initial(c))
  {
    assert [] + [] + [] + [] + c.input == c.input;
  }

  // ----- the way in

  lemma PumpReadKeeps(c: Setup, i: Input, n: nat, alive: bool)
    requires InputInv(c, i, alive) && !i.eofSent && i.up.left == [] && 0 < n <= |i.src| && n <= PUMP_READ
    ensures InputInv(c, i.(src := i.src[n..], up := Send(i.up, Frame(CH_STDIN, i.src[..n]))), alive)
  {
    hide LinkInv, Payload, Send;
    var f := Frame(CH_STDIN, i.src[..n]);
    SendSizes(i.up, f);
    SendKeeps(i.up, f, c.upCap);
    PayloadSnoc(i.up.inFlight, f, CH_STDIN);
    assert i.src == i.src[..n] + i.src[n..];
    var front, data := i.got + i.stdin + i.feed, Payload(i.up.inFlight, CH_STDIN);
    assert front + (data + f.data) + i.src[n..] == front + data + (f.data + i.src[n..]);
  }

  lemma PumpEofKeeps(c: Setup, i: Input, alive: bool)
    requires InputInv(c, i, alive) && !i.eofSent && i.up.left == [] && i.src == []
    ensures InputInv(c, i.(eofSent := true, up := Send(i.up, Frame(CH_STDIN, []))), alive)
  {
    hide LinkInv, Payload, Send;
    var f := Frame(CH_STDIN, []);
    var fs := i.up.inFlight + [f];
    SendSizes(i.up, f);
    SendKeeps(i.up, f, c.upCap);
    PayloadSnoc(i.up.inFlight, f, CH_STDIN);
    assert fs[..|fs| - 1] == i.up.inFlight;
    assert Payload(i.up.inFlight, CH_STDIN) + [] == Payload(i.up.inFlight, CH_STDIN);
  }

  lemma AcceptKeeps(c: Setup, i: Input, alive: bool)
    requires InputInv(c, i, alive) && i.open && i.feed == [] && Complete(i.up)
    ensures InputInv(c, Accept(i), alive)
  {
    hide LinkInv, Payload, Complete;
    CompleteMeansInFlight(i.up, c.upCap);
    DropKeeps(i.up, c.upCap);
    var fs := i.up.inFlight;
    PayloadCons(fs, CH_STDIN);
    assert fs[0] in fs;
    RestOfFull(fs, i.eofSent);
    if fs[0].data == [] { PayloadOfOne(fs[0], CH_STDIN); }
    var front, rest := i.got + i.stdin, Payload(fs[1..], CH_STDIN);
    assert front + [] + (fs[0].data + rest) == front + fs[0].data + rest;
  }

  /** Behind a frame with data the rest is as before; a frame without data is the last one. */
  lemma RestOfFull(fs: seq<Frame>, eofSent: bool)
    requires fs != [] && if eofSent then EndsEmpty(fs) else AllFull(fs)
    ensures if eofSent then (if fs[0].data == [] then fs[1..] == [] else EndsEmpty(fs[1..])) else AllFull(fs[1..])
    ensures fs[0].data == [] ==> eofSent
  {
    assert fs[0] in fs;
    if |fs| > 1 {
      var front := fs[..|fs| - 1];
      assert front[0] == fs[0] && fs[1..][..|fs| - 2] == front[1..];
      if eofSent { assert front[0] in front; }
    }
  }

  lemma UpKeeps(c: Setup, i: Input, up: Link, alive: bool)
    requires InputInv(c, i, alive) && LinkInv(up, c.upCap) && up.inFlight == i.up.inFlight
    ensures InputInv(c, i.(up := up), alive)
  {
    hide LinkInv, Payload;
  }

  lemma FeedKeeps(c: Setup, i: Input, n: nat)
    requires InputInv(c, i, true) && 0 < n <= |i.feed|
    ensures InputInv(c, i.(feed := i.feed[n..], stdin := i.stdin + i.feed[..n]), true)
  {
    hide LinkInv, Payload;
    assert i.feed == i.feed[..n] + i.feed[n..];
    var rest := Payload(i.up.inFlight, CH_STDIN) + i.src;
    assert i.got + (i.stdin + i.feed[..n]) + i.feed[n..] == i.got + i.stdin + i.feed;
  }

  lemma ReadKeeps(c: Setup, i: Input, n: nat)
    requires InputInv(c, i, true) && 0 < n <= |i.stdin|
    ensures InputInv(c, i.(got := i.got + i.stdin[..n], stdin := i.stdin[n..]), true)
  {
    hide LinkInv, Payload;
    assert i.stdin == i.stdin[..n] + i.stdin[n..];
    var data := Payload(i.up.inFlight, CH_STDIN);
    assert i.got + i.stdin[..n] + i.stdin[n..] == i.got + i.stdin;
    assert c.input == i.got + i.stdin[..n] + (i.stdin[n..] + i.feed + data + i.src);
    if i.sawEnd { NothingMore(i.got, i.stdin, i.feed + data + i.src, c.input); }
  }

  lemma NothingMore(x: seq<byte>, y: seq<byte>, z: seq<byte>, all: seq<byte>)
    requires x + y + z == all && x == all
    ensures y == []
  {
  }

  lemma EndKeeps(c: Setup, i: Input)
    requires InputInv(c, i, true) && i.stdin == [] && !i.open
    ensures InputInv(c, i.(sawEnd := true), true)
  {
    hide LinkInv, Payload;
    PayloadOfOne(Frame(CH_STDIN, []), CH_STDIN);
    assert i.got + [] + [] + [] + [] == i.got;
  }

  lemma ShutKeeps(c: Setup, i: Input)
    requires InputInv(c, i, false)
    ensures InputInv(c, i.(feed := [], open := false), false)
  {
    hide LinkInv, Payload;
  }

  lemma DeathKeeps(c: Setup, i: Input, alive: bool)
    requires InputInv(c, i, alive)
    ensures InputInv(c, i, false)
  {
    hide LinkInv, Payload;
  }

  // ----- the child's outputs

  lemma SayKeeps(host: seq<byte>, flight: seq<Frame>, p: Pipe, x: Side, data: seq<byte>)
    requires SideInv(host, flight, p, x, Running)
    ensures SideInv(host, flight, p, x.(said := x.said + data, left := data), if data == [] then Running else Writing(p))
  {
    hide Payload, Held;
    var front := host + Payload(flight, ChannelOf(p)) + Held(x.task) + x.pipe;
    assert front + [] == front;
  }

  /** A child that does not write, or writes on the other pipe, before and after. */
  lemma ElsewhereKeeps(host: seq<byte>, flight: seq<Frame>, p: Pipe, x: Side, child: Child, child': Child)
    requires SideInv(host, flight, p, x, child) && child != Writing(p) && child' != Writing(p)
    requires child.Exited? ==> child'.Exited?
    ensures SideInv(host, flight, p, x, child')
  {
    hide Payload, Held;
  }

  lemma WriteOnKeeps(host: seq<byte>, flight: seq<Frame>, p: Pipe, x: Side, n: nat)
    requires SideInv(host, flight, p, x, Writing(p)) && 0 < n <= |x.left|
    ensures var y := x.(pipe := x.pipe + x.left[..n], left := x.left[n..]);
            SideInv(host, flight, p, y, if y.left == [] then Running else Writing(p))
  {
    hide Payload, Held;
    assert x.left == x.left[..n] + x.left[n..];
    var front := host + Payload(flight, ChannelOf(p)) + Held(x.task);
    assert front + (x.pipe + x.left[..n]) + x.left[n..] == front + x.pipe + x.left;
  }

  lemma TakeKeeps(host: seq<byte>, flight: seq<Frame>, p: Pipe, x: Side, child: Child, n: nat)
    requires SideInv(host, flight, p, x, child) && x.task == Idle && 0 < n <= |x.pipe| && n <= PIPE_READ
    ensures SideInv(host, flight, p, x.(pipe := x.pipe[n..], task := Holding(x.pipe[..n])), child)
  {
    hide Payload;
    var front := host + Payload(flight, ChannelOf(p));
    assert x.pipe == x.pipe[..n] + x.pipe[n..];
    assert front + [] == front && front + x.pipe[..n] + x.pipe[n..] == front + x.pipe;
  }

  lemma TaskKeeps(host: seq<byte>, flight: seq<Frame>, p: Pipe, x: Side, child: Child, t: Task)
    requires SideInv(host, flight, p, x, child) && Held(x.task) == Held(t) == []
    requires t.Done? ==> child.Exited? && x.pipe == []
    requires !t.Holding?
    ensures SideInv(host, flight, p, x.(task := t), child)
  {
    hide Payload, Held;
  }

  lemma SendSideKeeps(host: seq<byte>, flight: seq<Frame>, p: Pipe, x: Side, child: Child)
    requires SideInv(host, flight, p, x, child) && x.task.Holding?
    ensures SideInv(host, flight + [Frame(ChannelOf(p), x.task.data)], p, x.(task := Sending), child)
  {
    hide Payload;
    var f := Frame(ChannelOf(p), x.task.data);
    PayloadSnoc(flight, f, ChannelOf(p));
    var front := host + Payload(flight, ChannelOf(p));
    assert host + (Payload(flight, ChannelOf(p)) + f.data) == front + f.data;
    assert front + f.data + [] == front + f.data;
  }

  /** A frame for another channel does not matter to this side. */
  lemma OtherFrameKeeps(host: seq<byte>, flight: seq<Frame>, f: Frame, p: Pipe, x: Side, child: Child)
    requires SideInv(host, flight, p, x, child) && f.chan != ChannelOf(p)
    ensures SideInv(host, flight + [f], p, x, child)
  {
    hide Payload, Held;
    PayloadSnoc(flight, f, ChannelOf(p));
    assert Payload(flight, ChannelOf(p)) + [] == Payload(flight, ChannelOf(p));
  }

  lemma DeliverKeeps(o: Outcome, flight: seq<Frame>, p: Pipe, x: Side, child: Child)
    requires SideInv(HostPart(o, p), flight, p, x, child) && flight != [] && !o.sawExit
    ensures SideInv(HostPart(Take(o, flight[0]), p), flight[1..], p, x, child)
  {
    hide Payload, Held, ToI32, FromLe32;
    PayloadCons(flight, ChannelOf(p));
    var h, f, rest := HostPart(o, p), flight[0], Payload(flight[1..], ChannelOf(p));
    assert h + (f.data + rest) == h + f.data + rest && h + ([] + rest) == h + rest;
  }

  // ----- the way out

  lemma SendDownKeeps(c: Setup, s: State, f: Frame)
    requires DownOk(c, s) && !s.exitSent && s.down.left == [] && Fits(f.data) && (f.chan == CH_STDOUT || f.chan == CH_STDERR)
    ensures DownInv(c, Send(s.down, f), false, s.child, s.host.sawExit, s.host.code)
  {
    hide LinkInv, Send, ExitFrame;
    SendSizes(s.down, f);
    SendKeeps(s.down, f, c.downCap);
  }

  lemma SendExitKeeps(c: Setup, s: State)
    requires DownOk(c, s) && !s.exitSent && s.down.left == [] && s.child.Exited?
    ensures DownInv(c, Send(s.down, ExitFrame(s.child.code)), true, s.child, s.host.sawExit, s.host.code)
  {
    hide LinkInv, Send, ExitFrame;
    var f := ExitFrame(s.child.code);
    ExitFrameIs(s.child.code);
    SendSizes(s.down, f);
    SendKeeps(s.down, f, c.downCap);
    assert (s.down.inFlight + [f])[..|s.down.inFlight|] == s.down.inFlight;
  }

  lemma ExitFrameIs(code: Code)
    ensures ExitFrame(code).chan == CH_EXIT && |ExitFrame(code).data| == 4 && Fits(ExitFrame(code).data)
    ensures ToI32(FromLe32(ExitFrame(code).data)) == code
  {
    hide Le32, FromLe32, ToI32;
    ExitCodeSurvives(code);
  }

  lemma DeliverDownKeeps(c: Setup, s: State)
    requires DownOk(c, s) && !s.host.sawExit && Complete(s.down)
    ensures s.down.inFlight != [] && FrameIn(s.down) == s.down.inFlight[0]
    ensures var o := Take(s.host, FrameIn(s.down));
            DownInv(c, Drop(s.down), s.exitSent, s.child, o.sawExit, o.code)
  {
    hide LinkInv, Complete, ExitFrame, ToI32, FromLe32;
    CompleteMeansInFlight(s.down, c.downCap);
    DropKeeps(s.down, c.downCap);
    var fs := s.down.inFlight;
    assert fs[0] in fs;
    if s.exitSent {
      ExitFrameIs(s.child.code);
      if |fs| > 1 {
        var front := fs[..|fs| - 1];
        assert front[0] in front && front[0] == fs[0] && fs[1..][..|fs| - 2] == front[1..];
      }
    }
  }

  // ----- every step keeps the invariant

  lemma InputStepKeeps(c: Setup, s: State, e: Step)
    requires Inv(c, s) && Enabled(c, s, e)
    requires e.PumpRead? || e.PumpEof? || e.PumpWrite? || e.PumpBreaks? || e.GuestReceive? || e.GuestFrame?
    ensures Inv(c, Do(c, s, e))
  {
    hide InputInv, SideInv, LockInv, DownInv, Send, Complete, Write, Receive;
    var i, alive := s.inp, !s.child.Exited?;
    LinkOfInput(c, i, alive);
    match e
    case PumpRead(n) => PumpReadKeeps(c, i, n, alive);
    case PumpEof => PumpEofKeeps(c, i, alive);
    case PumpWrite(n) =>
      WriteKeeps(i.up, n, c.upCap);
      SameFrames(i.up, n);
      UpKeeps(c, i, Write(i.up, n), alive);
    case PumpBreaks => BreakKeeps(s);
    case GuestReceive(n) =>
      ReceiveKeeps(i.up, n, c.upCap);
      SameFramesIn(i.up, n);
      UpKeeps(c, i, Receive(i.up, n), alive);
    case GuestFrame =>
      AcceptKeeps(c, i, alive);
      OpenOnlyFalls(c, s);
  }

  lemma LinkOfInput(c: Setup, i: Input, alive: bool)
    requires InputInv(c, i, alive)
    ensures LinkInv(i.up, c.upCap)
  {
    hide LinkInv, Payload;
  }

  lemma SameFrames(l: Link, n: nat)
    requires n <= |l.left|
    ensures Write(l, n).inFlight == l.inFlight
  {
  }

  lemma SameFramesIn(l: Link, n: nat)
    requires n <= |l.wire|
    ensures Receive(l, n).inFlight == l.inFlight
  {
  }

  lemma BreakKeeps(s: State)
    requires LockOk(s) && s.closed
    ensures LockOk(s.(broken := true))
  {
  }

  lemma OpenOnlyFalls(c: Setup, s: State)
    requires LockOk(s) && Complete(s.inp.up) && s.inp.open
    ensures LockOk(s.(inp := Accept(s.inp)))
  {
    hide Complete;
  }

  lemma ChildStepKeeps(c: Setup, s: State, e: Step)
    requires Inv(c, s) && Enabled(c, s, e)
    requires e.GuestFeed? || e.FeedBreaks? || e.ChildRead? || e.ChildReadEnd?
    ensures Inv(c, Do(c, s, e))
  {
    hide InputInv, SideInv, DownInv;
    match e
    case GuestFeed(n) => FeedKeeps(c, s.inp, n);
    case FeedBreaks => ShutKeeps(c, s.inp);
    case ChildRead(n) =>
      ReadKeeps(c, s.inp, n);
      NowRuns(c, s);
    case ChildReadEnd =>
      EndKeeps(c, s.inp);
      NowRuns(c, s);
  }

  /** A read that returns changes nothing but the child's business. */
  lemma NowRuns(c: Setup, s: State)
    requires s.child.Reading? && SideOk(s, Out) && SideOk(s, Err) && DownOk(c, s)
    ensures var t := s.(child := Running); SideOk(t, Out) && SideOk(t, Err) && DownOk(c, t)
  {
    hide SideInv, LinkInv;
    ElsewhereKeeps(HostPart(s.host, Out), s.down.inFlight, Out, s.out, s.child, Running);
    ElsewhereKeeps(HostPart(s.host, Err), s.down.inFlight, Err, s.err, s.child, Running);
  }

  lemma DecideKeeps(c: Setup, s: State, w: Wish)
    requires Inv(c, s) && s.child.Running?
    ensures Inv(c, Grant(s, w))
  {
    hide SideInv, LinkInv, InputInv;
    var t := Grant(s, w);
    DeathKeeps(c, s.inp, true);
    forall p | p == Out || p == Err ensures SideOk(t, p) {
      if w.WantWrite? && w.to == p {
        SayKeeps(HostPart(s.host, p), s.down.inFlight, p, s.SideOf(p), w.data);
      } else {
        ElsewhereKeeps(HostPart(s.host, p), s.down.inFlight, p, s.SideOf(p), s.child, t.child);
      }
    }
  }

  lemma ChildWriteKeeps(c: Setup, s: State, n: nat)
    requires Inv(c, s) && Enabled(c, s, ChildWrite(n))
    ensures Inv(c, Do(c, s, ChildWrite(n)))
  {
    hide SideInv, LinkInv, InputInv;
    var q, t := s.child.to, Do(c, s, ChildWrite(n));
    forall p | p == Out || p == Err ensures SideOk(t, p) {
      if p == q {
        WriteOnKeeps(HostPart(s.host, p), s.down.inFlight, p, s.SideOf(p), n);
      } else {
        ElsewhereKeeps(HostPart(s.host, p), s.down.inFlight, p, s.SideOf(p), s.child, t.child);
      }
    }
  }

  lemma TaskStepKeeps(c: Setup, s: State, e: Step)
    requires Inv(c, s) && Enabled(c, s, e) && (e.TakePipe? || e.EndPipe? || e.ReleasePipe?)
    ensures Inv(c, Do(c, s, e))
  {
    hide SideInv, DownInv, InputInv;
    var h, fs, x := HostPart(s.host, e.p), s.down.inFlight, s.SideOf(e.p);
    match e
    case TakePipe(p, n) => TakeKeeps(h, fs, p, x, s.child, n);
    case EndPipe(p) => TaskKeeps(h, fs, p, x, s.child, Done);
    case ReleasePipe(p) => TaskKeeps(h, fs, p, x, s.child, Idle);
  }

  lemma SendPipeKeeps(c: Setup, s: State, p: Pipe)
    requires Inv(c, s) && Enabled(c, s, SendPipe(p))
    ensures Inv(c, Do(c, s, SendPipe(p)))
  {
    hide SideInv, DownInv, InputInv, Send;
    var q, x := if p == Out then Err else Out, s.SideOf(p);
    var f := Frame(ChannelOf(p), x.task.data);
    HoldingIsShort(s, p);
    SendSizes(s.down, f);
    SendDownKeeps(c, s, f);
    SendSideKeeps(HostPart(s.host, p), s.down.inFlight, p, x, s.child);
    OtherFrameKeeps(HostPart(s.host, q), s.down.inFlight, f, q, s.SideOf(q), s.child);
  }

  lemma HoldingIsShort(s: State, p: Pipe)
    requires SideOk(s, p) && s.SideOf(p).task.Holding?
    ensures 0 < |s.SideOf(p).task.data| <= PIPE_READ && Fits(s.SideOf(p).task.data)
  {
    hide Payload;
  }

  lemma ExitStatusKeeps(c: Setup, s: State)
    requires Inv(c, s) && Enabled(c, s, ExitStatus)
    ensures Inv(c, Do(c, s, ExitStatus))
  {
    hide SideInv, DownInv, InputInv, Send, ExitFrame;
    var f := ExitFrame(s.child.code);
    ExitFrameIs(s.child.code);
    SendSizes(s.down, f);
    SendExitKeeps(c, s);
    ShutKeeps(c, s.inp);
    OtherFrameKeeps(HostPart(s.host, Out), s.down.inFlight, f, Out, s.out, s.child);
    OtherFrameKeeps(HostPart(s.host, Err), s.down.inFlight, f, Err, s.err, s.child);
  }

  lemma DownStepKeeps(c: Setup, s: State, e: Step)
    requires Inv(c, s) && Enabled(c, s, e) && (e.GuestWrite? || e.GuestClose? || e.HostReceive?)
    ensures Inv(c, Do(c, s, e))
  {
    hide SideInv, InputInv, LinkInv;
    match e
    case GuestWrite(n) => WriteKeeps(s.down, n, c.downCap);
    case GuestClose =>
    case HostReceive(n) => ReceiveKeeps(s.down, n, c.downCap);
  }

  lemma HostFrameKeeps(c: Setup, s: State)
    requires Inv(c, s) && Enabled(c, s, HostFrame)
    ensures Inv(c, Do(c, s, HostFrame))
  {
    hide SideInv, InputInv, DownInv, Complete, Take;
    DeliverDownKeeps(c, s);
    DeliverKeeps(s.host, s.down.inFlight, Out, s.out, s.child);
    DeliverKeeps(s.host, s.down.inFlight, Err, s.err, s.child);
  }

  lemma StepKeeps(c: Setup, s: State, e: Step)
    requires Inv(c, s) && Enabled(c, s, e)
    ensures Inv(c, Do(c, s, e))
  {
    hide Inv, Enabled;
    if e.Decide? { DecideIsGrant(c, s, e.w); }
    else if e.ChildWrite? { ChildWriteKeeps(c, s, e.n); }
    else if e.SendPipe? { SendPipeKeeps(c, s, e.p); }
    else if e.ExitStatus? { ExitStatusKeeps(c, s); }
    else if e.HostFrame? { HostFrameKeeps(c, s); }
    else if e.TakePipe? || e.EndPipe? || e.ReleasePipe? { TaskStepKeeps(c, s, e); }
    else if e.GuestWrite? || e.GuestClose? || e.HostReceive? { DownStepKeeps(c, s, e); }
    else if e.GuestFeed? || e.FeedBreaks? || e.ChildRead? || e.ChildReadEnd? { ChildStepKeeps(c, s, e); }
    else { InputStepKeeps(c, s, e); }
  }

  lemma DecideIsGrant(c: Setup, s: State, w: Wish)
    requires Inv(c, s) && Enabled(c, s, Decide(w))
    ensures Inv(c, Do(c, s, Decide(w)))
  {
    hide Inv, Grant;
    DecideKeeps(c, s, w);
  }

  lemma {:induction false} ReachableInv(c: Setup, steps: seq<Step>)
    requires After(c, steps).Some?
    ensures Inv(c, After(c, steps).value)
    decreases |steps|
  {
    hide Inv, Do, Enabled;
    if steps == [] {
      InitialInv(c);
    } else {
      ReachableInv(c, steps[..|steps| - 1]);
      StepKeeps(c, After(c, steps[..|steps| - 1]).value, steps[|steps| - 1]);
    }
  }

  // ----- there is always a step

  /** What of the way down can move. */
  lemma DownMoves(c: Setup, s: State) returns (e: Step)
    requires c.Valid() && Inv(c, s) && s.down.inFlight != []
    ensures Enabled(c, s, e) && !e.Decide?
  {
    hide LinkInv, Complete, CanWrite, CanReceive, InputInv, SideInv, LockInv;
    LinkMoves(s.down, c.downCap);
    e := if Complete(s.down) then HostFrame else if CanReceive(s.down, 1) then HostReceive(1) else GuestWrite(1);
  }

  /** With nothing on the way down, a side whose task is not done can move, unless it waits for the child. */
  lemma SideMoves(c: Setup, s: State, p: Pipe) returns (e: Step)
    requires c.Valid() && Inv(c, s) && s.down.left == [] && s.SideOf(p).task != Done
    requires s.SideOf(p).task.Holding? ==> LockFree(s)
    requires s.SideOf(p).task == Idle ==> s.SideOf(p).pipe != [] || s.child.Exited?
    ensures Enabled(c, s, e) && !e.Decide?
  {
    hide InputInv, SideInv, LockInv, DownInv;
    var x := s.SideOf(p);
    e := match x.task
         case Holding(_) => SendPipe(p)
         case Sending => ReleasePipe(p)
         case Idle => if x.pipe != [] then TakePipe(p, 1) else EndPipe(p);
  }

  /** A blocked read comes to an end, or something on the way in moves. */
  lemma ReadMoves(c: Setup, s: State) returns (e: Step)
    requires c.Valid() && Inv(c, s) && s.child.Reading?
    ensures Enabled(c, s, e) && !e.Decide?
  {
    hide LinkInv, Complete, CanWrite, CanReceive, Payload, SideInv;
    var i := s.inp;
    if i.stdin != [] {
      e := ChildRead(1);
    } else if !i.open {
      e := ChildReadEnd;
    } else if i.feed != [] {
      e := GuestFeed(1);
    } else if i.up.inFlight != [] {
      LinkMoves(i.up, c.upCap);
      PumpIsUp(c, s);
      e := if Complete(i.up) then GuestFrame else if CanReceive(i.up, 1) then GuestReceive(1) else PumpWrite(1);
    } else {
      NothingInFlight(i.up, c.upCap);
      PumpIsUp(c, s);
      e := if i.src == [] then PumpEof else PumpRead(1);
    }
  }

  /** The socket is not closed, and the pump has not failed, while the child lives. */
  lemma PumpIsUp(c: Setup, s: State)
    requires Inv(c, s) && !s.child.Exited?
    ensures !s.closed && !s.exitSent && (s.broken ==> s.closed)
  {
    hide InputInv, SideInv, DownInv;
  }

  /** A blocked write has room, or the pipe it waits for can be taken from. */
  lemma SomeStep(c: Setup, s: State) returns (e: Step)
    requires c.Valid() && Inv(c, s) && !s.child.Running? && !s.Settled()
    ensures Enabled(c, s, e) && !e.Decide?
  {
    hide InputInv, LinkInv, Payload;
    if s.down.inFlight != [] {
      e := DownMoves(c, s);
    } else {
      NothingInFlight(s.down, c.downCap);
      if s.host.sawExit {
        e := if s.closed then PumpBreaks else GuestClose;
      } else {
        e := ChildMoves(c, s);
      }
    }
  }

  lemma ChildMoves(c: Setup, s: State) returns (e: Step)
    requires c.Valid() && Inv(c, s) && !s.child.Running? && !s.exitSent && s.down == QUIET
    ensures Enabled(c, s, e) && !e.Decide?
  {
    hide InputInv, LinkInv, Payload;
    if s.out.task == Sending {
      e := SideMoves(c, s, Out);
    } else if s.err.task == Sending || s.err.task.Holding? {
      e := SideMoves(c, s, Err);
    } else if s.out.task.Holding? {
      e := SideMoves(c, s, Out);
    } else if s.child.Reading? {
      e := ReadMoves(c, s);
    } else if s.child.Writing? {
      var x := s.SideOf(s.child.to);
      e := if x.pipe == [] then ChildWrite(1) else TakePipe(s.child.to, 1);
    } else if s.out.task == Idle {
      e := SideMoves(c, s, Out);
    } else if s.err.task == Idle {
      e := SideMoves(c, s, Err);
    } else {
      e := ExitStatus;
    }
  }

  // ----- and there are not many

  function TaskWeight(t: Task): nat {
    match t case Idle => 1 case Holding(data) => 21 * |data| case Sending => 2 case Done => 0
  }

  function SideWeight(x: Side): nat { 22 * |x.left| + 21 * |x.pipe| + TaskWeight(x.task) }

  function ChildWeight(child: Child): nat { if child.Exited? then 0 else if child.Reading? then 2 else 1 }

  function InputWeight(i: Input): nat {
    31 * |i.src| + (if i.eofSent then 0 else 26) + 5 * |i.up.left| + 4 * |i.up.wire| + 3 * |i.up.buf|
    + 2 * |i.feed| + |i.stdin|
  }

  function DownWeight(l: Link): nat { 3 * |l.left| + 2 * |l.wire| + |l.buf| }

  /** Every byte weighs more the further it has to go; a byte about to be framed outweighs its frame. */
  function Measure(s: State): nat {
    InputWeight(s.inp) + ChildWeight(s.child) + SideWeight(s.out) + SideWeight(s.err) + DownWeight(s.down)
    + (if s.exitSent then 0 else 28) + (if s.closed then 0 else 1) + (if s.broken then 0 else 1)
  }

  /** What a wish of the child adds to the work. */
  function Cost(w: Wish): nat {
    match w case WantRead => 1 case WantWrite(_, data) => 22 * |data| case WantExit(_) => 0
  }

  lemma InputStepShrinks(c: Setup, s: State, e: Step)
    requires Enabled(c, s, e)
    requires e.PumpRead? || e.PumpEof? || e.PumpWrite? || e.GuestReceive? || e.GuestFeed?
    ensures InputWeight(Do(c, s, e).inp) < InputWeight(s.inp) && Do(c, s, e) == s.(inp := Do(c, s, e).inp)
  {
    hide Needed, Send, Write, Receive;
    var i := s.inp;
    match e
    case PumpRead(n) => SendSizes(i.up, Frame(CH_STDIN, i.src[..n]));
    case PumpEof => SendSizes(i.up, Frame(CH_STDIN, []));
    case PumpWrite(n) => WriteSizes(i.up, n);
    case GuestReceive(n) => ReceiveSizes(i.up, n);
    case GuestFeed(_) =>
  }

  lemma AcceptShrinks(i: Input)
    requires Complete(i.up) && i.feed == []
    ensures InputWeight(Accept(i)) < InputWeight(i)
  {
  }

  lemma TaskStepShrinks(c: Setup, s: State, e: Step)
    requires Enabled(c, s, e) && (e.TakePipe? || e.EndPipe? || e.ReleasePipe?)
    ensures var x := Do(c, s, e).SideOf(e.p); SideWeight(x) < SideWeight(s.SideOf(e.p)) && Do(c, s, e) == s.With(e.p, x)
  {
    hide Needed;
  }

  lemma WriteOnShrinks(x: Side, n: nat)
    requires 0 < n <= |x.left|
    ensures SideWeight(x.(pipe := x.pipe + x.left[..n], left := x.left[n..])) < SideWeight(x)
  {
  }

  lemma OneSideShrinks(s: State, p: Pipe, x: Side)
    requires SideWeight(x) < SideWeight(s.SideOf(p))
    ensures Measure(s.With(p, x)) < Measure(s)
  {
    hide SideWeight, InputWeight, DownWeight, ChildWeight;
  }

  lemma SendPipeShrinks(c: Setup, s: State, p: Pipe)
    requires Enabled(c, s, SendPipe(p)) && 0 < |s.SideOf(p).task.data|
    ensures Measure(Do(c, s, SendPipe(p))) < Measure(s)
  {
    hide InputWeight, ChildWeight, Send;
    SendSizes(s.down, Frame(ChannelOf(p), s.SideOf(p).task.data));
  }

  lemma DownStepShrinks(c: Setup, s: State, e: Step)
    requires Enabled(c, s, e) && (e.GuestWrite? || e.HostReceive? || e.HostFrame?)
    ensures DownWeight(Do(c, s, e).down) < DownWeight(s.down)
    ensures Do(c, s, e) == s.(down := Do(c, s, e).down, host := Do(c, s, e).host)
  {
    hide Write, Receive, Take;
    match e
    case GuestWrite(n) => WriteSizes(s.down, n);
    case HostReceive(n) => ReceiveSizes(s.down, n);
    case HostFrame =>
  }

  lemma ExitShrinks(c: Setup, s: State)
    requires Enabled(c, s, ExitStatus)
    ensures Measure(Do(c, s, ExitStatus)) < Measure(s)
  {
    hide ChildWeight, SideWeight, Send, ExitFrame;
    ExitFrameIs(s.child.code);
    SendSizes(s.down, ExitFrame(s.child.code));
  }

  lemma ChildStepShrinks(c: Setup, s: State, e: Step)
    requires Enabled(c, s, e)
    requires e.ChildRead? || e.ChildReadEnd? || e.FeedBreaks? || e.PumpBreaks? || e.GuestClose?
    ensures Measure(Do(c, s, e)) < Measure(s)
  {
    hide SideWeight, DownWeight, Needed;
  }

  lemma ChildWriteShrinks(c: Setup, s: State, n: nat)
    requires Enabled(c, s, ChildWrite(n))
    ensures Measure(Do(c, s, ChildWrite(n))) < Measure(s)
  {
    hide SideWeight, DownWeight, InputWeight;
    var p := s.child.to;
    WriteOnShrinks(s.SideOf(p), n);
  }

  /** Every step but the child's own decisions makes the rest of the work less, and those add what they ask for. */
  lemma StepShrinks(c: Setup, s: State, e: Step)
    requires Inv(c, s) && Enabled(c, s, e)
    ensures e.Decide? ==> Measure(Do(c, s, e)) <= Measure(s) + Cost(e.w)
    ensures !e.Decide? ==> Measure(Do(c, s, e)) < Measure(s)
  {
    hide Enabled, Do, Measure, InputInv, SideInv, LockInv, DownInv;
    if e.Decide? {
      DecideCosts(c, s, e.w);
    } else if e.GuestFrame? {
      GuestFrameShrinks(c, s);
    } else if e.ExitStatus? {
      ExitShrinks(c, s);
    } else if e.ChildWrite? {
      ChildWriteShrinks(c, s, e.n);
    } else if e.SendPipe? {
      SendIsOfHolding(c, s, e.p);
      HoldingIsShort(s, e.p);
      SendPipeShrinks(c, s, e.p);
    } else if e.TakePipe? || e.EndPipe? || e.ReleasePipe? {
      TaskStepShrinks(c, s, e);
      OneSideShrinks(s, e.p, Do(c, s, e).SideOf(e.p));
    } else if e.GuestWrite? || e.HostReceive? || e.HostFrame? {
      DownStepShrinks(c, s, e);
      LessDown(s, Do(c, s, e).down, Do(c, s, e).host);
    } else if e.ChildRead? || e.ChildReadEnd? || e.FeedBreaks? || e.PumpBreaks? || e.GuestClose? {
      ChildStepShrinks(c, s, e);
    } else {
      InputStepShrinks(c, s, e);
      LessInput(s, Do(c, s, e).inp);
    }
  }

  lemma SendIsOfHolding(c: Setup, s: State, p: Pipe)
    requires Enabled(c, s, SendPipe(p))
    ensures s.SideOf(p).task.Holding?
  {
  }

  lemma LessDown(s: State, l: Link, o: Outcome)
    requires DownWeight(l) < DownWeight(s.down)
    ensures Measure(s.(down := l, host := o)) < Measure(s)
  {
    hide SideWeight, InputWeight, DownWeight, ChildWeight;
  }

  lemma LessInput(s: State, i: Input)
    requires InputWeight(i) < InputWeight(s.inp)
    ensures Measure(s.(inp := i)) < Measure(s)
  {
    hide SideWeight, InputWeight, DownWeight, ChildWeight;
  }

  lemma GuestFrameShrinks(c: Setup, s: State)
    requires Enabled(c, s, GuestFrame)
    ensures Measure(Do(c, s, GuestFrame)) < Measure(s)
  {
    hide Accept, Measure;
    AcceptShrinks(s.inp);
    LessInput(s, Accept(s.inp));
  }

  lemma DecideCosts(c: Setup, s: State, w: Wish)
    requires Inv(c, s) && Enabled(c, s, Decide(w))
    ensures Measure(Do(c, s, Decide(w))) <= Measure(s) + Cost(w)
  {
    hide InputInv, LockInv, DownInv, SideInv, InputWeight, DownWeight, TaskWeight;
    LeftIsNothing(s, Out);
    LeftIsNothing(s, Err);
  }

  lemma LeftIsNothing(s: State, p: Pipe)
    requires SideOk(s, p) && s.child.Running?
    ensures s.SideOf(p).left == []
  {
    hide Payload;
  }

  // ----- whole runs

  /** What the child's decisions in a run amount to. */
  function Spent(steps: seq<Step>): nat {
    if steps == [] then 0
    else
      var last := steps[|steps| - 1];
      Spent(steps[..|steps| - 1]) + if last.Decide? then Cost(last.w) + 1 else 0
  }

  lemma {:induction false} RunIsShort(c: Setup, steps: seq<Step>)
    requires After(c, steps).Some?
    ensures |steps| + Measure(After(c, steps).value) <= 31 * |c.input| + 59 + Spent(steps)
    decreases |steps|
  {
    hide Inv, Do, Enabled, Measure, Cost;
    if steps == [] {
      FirstMeasure(c);
    } else {
      var before := steps[..|steps| - 1];
      RunIsShort(c, before);
      ReachableInv(c, before);
      StepShrinks(c, After(c, before).value, steps[|steps| - 1]);
    }
  }

  lemma FirstMeasure(c: Setup)
    ensures Measure(Initial(c)) == 31 * |c.input| + 59
  {
  }

  /** When the host is done, it has all that the child wrote on either pipe, and its exit code. */
  lemma SettledMeans(c: Setup, s: State)
    requires Inv(c, s) && s.host.sawExit
    ensures s.child.Exited? && s.host == Outcome(s.out.said, s.err.said, s.child.code, true) && s.inp.got <= c.input
  {
    hide LinkInv, Payload;
    NothingInFlight(s.down, c.downCap);
    PayloadOfOne(Frame(CH_STDOUT, []), CH_STDOUT);
    PayloadOfOne(Frame(CH_STDERR, []), CH_STDERR);
    var a, b := s.host.out, s.host.stderr;
    assert a + [] + [] + [] + [] == a && b + [] + [] + [] + [] == b;
  }

  lemma AfterNext(c: Setup, steps: seq<Step>, s: State, e: Step)
    requires After(c, steps) == Some(s) && Enabled(c, s, e)
    ensures After(c, steps + [e]) == Some(Do(c, s, e))
  {
    hide Enabled, Do;
    assert (steps + [e])[..|steps|] == steps;
  }

  /** Whatever the child does: no run is longer than the input and the child's decisions account for; no run gets
      stuck short of the end, but waits for the child only while that is running on its own; and at the end the
      host has all that the child wrote on either pipe, and its exit code. */
  lemma NeverDeadlocks(c: Setup, steps: seq<Step>)
    requires c.Valid() && After(c, steps).Some?
    ensures |steps| <= 31 * |c.input| + 59 + Spent(steps)
    ensures var s := After(c, steps).value;
            && s.inp.got <= c.input
            && (s.host.sawExit ==> s.child.Exited? && s.host == Outcome(s.out.said, s.err.said, s.child.code, true))
            && (s.Settled() || s.child.Running? || exists e: Step :: !e.Decide? && After(c, steps + [e]).Some?)
  {
    hide Do, Enabled, Measure, SideInv, LockInv, DownInv, LinkInv, Payload;
    ReachableInv(c, steps);
    RunIsShort(c, steps);
    var s := After(c, steps).value;
    if s.host.sawExit { SettledMeans(c, s); }
    if !s.Settled() && !s.child.Running? {
      var e := SomeStep(c, s);
      AfterNext(c, steps, s, e);
      assert !e.Decide? && After(c, steps + [e]).Some?;
    }
  }

  // ----- a child that copies its input to its output

  /** What a copying child wants next: to write what it has read, or to read on, or, at the end, to exit. */
  function CopierWants(s: State, code: Code): Wish
  {
    if |s.out.said| < |s.inp.got| then WantWrite(Out, s.inp.got[|s.out.said|..])
    else if s.inp.sawEnd then WantExit(code)
    else WantRead
  }

  /** All the child's decisions in the run are a copier's. */
  ghost predicate CopierRun(c: Setup, steps: seq<Step>, code: Code)
    requires After(c, steps).Some?
  {
    steps != [] ==>
      var before, last := steps[..|steps| - 1], steps[|steps| - 1];
      CopierRun(c, before, code) && (last.Decide? ==> last.w == CopierWants(After(c, before).value, code))
  }

  ghost predicate CopierInv(c: Setup, s: State, code: Code) {
    && s.err.said == [] && s.out.said <= s.inp.got <= c.input && (s.inp.sawEnd ==> s.inp.got == c.input)
    && match s.child
       case Running => true
       case Reading => s.out.said == s.inp.got && !s.inp.sawEnd
       case Writing(p) => p == Out && s.out.said == s.inp.got
       case Exited(x) => x == code && s.inp.sawEnd && s.out.said == s.inp.got
  }

  /** What is still to come, copying included. */
  function CopyMeasure(c: Setup, s: State): int {
    Measure(s) + 23 * (|c.input| - |s.out.said|) + 4 * (|c.input| - |s.inp.got|)
    + if s.child.Reading? || s.child.Exited? || s.inp.sawEnd then 0 else 2
  }

  lemma CopierDecides(c: Setup, s: State, code: Code)
    requires Inv(c, s) && CopierInv(c, s, code) && s.child.Running?
    ensures var w := CopierWants(s, code);
            CopierInv(c, Grant(s, w), code) && CopyMeasure(c, Grant(s, w)) < CopyMeasure(c, s)
  {
    hide InputInv, LockInv, DownInv, InputWeight, DownWeight, Payload, SideInv;
    LeftIsNothing(s, Out);
    var w := CopierWants(s, code);
    if w.WantWrite? { assert s.out.said + s.inp.got[|s.out.said|..] == s.inp.got; }
  }

  /** What the other steps leave alone, as far as the copier is concerned. */
  ghost predicate SameForCopier(s: State, t: State) {
    && t.out.said == s.out.said && t.err.said == s.err.said && t.inp.got == s.inp.got && t.inp.sawEnd == s.inp.sawEnd
    && (t.child == s.child || (s.child.Writing? && t.child.Running?) || (s.child.Writing? && t.child == Writing(s.child.to)))
  }

  lemma CopierUntouched(c: Setup, s: State, e: Step)
    requires Enabled(c, s, e) && !e.Decide? && !e.ChildRead? && !e.ChildReadEnd? && !e.GuestFrame? && !e.ChildWrite?
    ensures SameForCopier(s, Do(c, s, e))
  {
    hide Send, Write, Receive, Take, Complete, LockFree, CanWrite, CanReceive;
  }

  lemma CopierUntouchedByWrite(c: Setup, s: State, n: nat)
    requires Enabled(c, s, ChildWrite(n))
    ensures SameForCopier(s, Do(c, s, ChildWrite(n)))
  {
  }

  lemma CopierUntouchedByFrame(c: Setup, s: State)
    requires Enabled(c, s, GuestFrame)
    ensures SameForCopier(s, Do(c, s, GuestFrame))
  {
    hide Complete;
  }

  lemma SameKeepsCopier(c: Setup, s: State, t: State, code: Code)
    requires CopierInv(c, s, code) && SameForCopier(s, t) && Measure(t) < Measure(s)
    ensures CopierInv(c, t, code) && CopyMeasure(c, t) < CopyMeasure(c, s)
  {
    hide Measure;
  }

  lemma CopierStep(c: Setup, s: State, e: Step, code: Code)
    requires Inv(c, s) && Enabled(c, s, e) && Inv(c, Do(c, s, e)) && CopierInv(c, s, code)
    requires e.Decide? ==> e.w == CopierWants(s, code)
    ensures CopierInv(c, Do(c, s, e), code) && CopyMeasure(c, Do(c, s, e)) < CopyMeasure(c, s)
  {
    hide InputInv, SideInv, LockInv, DownInv, Measure, CopierInv, CopierWants, Do, Enabled, CopyMeasure, SameForCopier;
    if e.Decide? {
      CopierIsGranted(c, s, e.w, code);
    } else {
      StepShrinks(c, s, e);
      if e.ChildRead? || e.ChildReadEnd? {
        CopierReads(c, s, e, code);
      } else {
        if e.GuestFrame? { CopierUntouchedByFrame(c, s); }
        else if e.ChildWrite? { CopierUntouchedByWrite(c, s, e.n); }
        else { CopierUntouched(c, s, e); }
        SameKeepsCopier(c, s, Do(c, s, e), code);
      }
    }
  }

  lemma CopierIsGranted(c: Setup, s: State, w: Wish, code: Code)
    requires Inv(c, s) && Enabled(c, s, Decide(w)) && CopierInv(c, s, code) && w == CopierWants(s, code)
    ensures CopierInv(c, Do(c, s, Decide(w)), code) && CopyMeasure(c, Do(c, s, Decide(w))) < CopyMeasure(c, s)
  {
    hide Inv, CopierInv, CopyMeasure, CopierWants, Grant;
    CopierDecides(c, s, code);
  }

  lemma CopierReads(c: Setup, s: State, e: Step, code: Code)
    requires Inv(c, s) && Enabled(c, s, e) && Inv(c, Do(c, s, e)) && CopierInv(c, s, code) && (e.ChildRead? || e.ChildReadEnd?)
    requires Measure(Do(c, s, e)) < Measure(s)
    ensures CopierInv(c, Do(c, s, e), code) && CopyMeasure(c, Do(c, s, e)) < CopyMeasure(c, s)
  {
    hide LinkInv, Payload, SideInv, LockInv, DownInv, Measure;
  }

  lemma {:induction false} CopierRunKeeps(c: Setup, steps: seq<Step>, code: Code)
    requires After(c, steps).Some? && CopierRun(c, steps, code)
    ensures CopierInv(c, After(c, steps).value, code)
    ensures |steps| + CopyMeasure(c, After(c, steps).value) <= 58 * |c.input| + 61
    decreases |steps|
  {
    hide Inv, Do, Enabled, CopierInv, CopyMeasure, CopierWants;
    if steps == [] {
      CopierStarts(c, code);
    } else {
      var before := steps[..|steps| - 1];
      CopierRunKeeps(c, before, code);
      ReachableInv(c, before);
      ReachableInv(c, steps);
      CopierStep(c, After(c, before).value, steps[|steps| - 1], code);
    }
  }

  lemma CopierStarts(c: Setup, code: Code)
    ensures CopierInv(c, Initial(c), code) && CopyMeasure(c, Initial(c)) == 58 * |c.input| + 61
  {
  }

  lemma CopyMeasureIsNat(c: Setup, s: State, code: Code)
    requires CopierInv(c, s, code)
    ensures CopyMeasure(c, s) >= 0
  {
    hide Measure;
  }

  /** A copying child: every run ends within a bound linear in the input, none gets stuck, and at the end the host's
      output is its input, with nothing on standard error, and the child's exit code. */
  lemma CopierNeverDeadlocks(c: Setup, steps: seq<Step>, code: Code)
    requires c.Valid() && After(c, steps).Some? && CopierRun(c, steps, code)
    ensures |steps| <= 58 * |c.input| + 61
    ensures var s := After(c, steps).value;
            if s.Settled() then s.host == Outcome(c.input, [], code, true)
            else exists e: Step :: After(c, steps + [e]).Some? && CopierRun(c, steps + [e], code)
  {
    hide Inv, Do, Enabled, CopyMeasure, CopierWants;
    ReachableInv(c, steps);
    CopierRunKeeps(c, steps, code);
    var s := After(c, steps).value;
    CopyMeasureIsNat(c, s, code);
    if s.Settled() {
      SettledMeans(c, s);
    } else {
      var e: Step;
      if s.child.Running? {
        e := Decide(CopierWants(s, code));
        MayDecide(c, s, e.w);
      } else {
        e := SomeStep(c, s);
      }
      AfterNext(c, steps, s, e);
      assert (steps + [e])[..|steps|] == steps;
      assert After(c, steps + [e]).Some? && CopierRun(c, steps + [e], code);
    }
  }

  lemma MayDecide(c: Setup, s: State, w: Wish)
    requires s.child.Running?
    ensures Enabled(c, s, Decide(w))
  {
  }
}
