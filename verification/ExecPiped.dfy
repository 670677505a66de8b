/** The guest's side of a piped exec: two pump tasks and the final exit send share one socket behind a
    lock. The steps may interleave in any order, and a locked writer may put its bytes out in any pieces. */
module ExecPiped {
  import opened Streams
  import opened Wrappers
  import opened ExecCodec

  const PIPE_READ: nat := 8192

  /** Whose turn it is to write: the stdout task, the stderr task, or the exit send. */
  datatype Who = Out | Err | Exit

  /** A task is between reads, has a frame and waits for the lock, holds the lock with bytes left to
      write, or is done. */
  datatype Task = Idle | Waiting(frame: Frame) | Writing(frame: Frame, left: seq<byte>) | Done

  /** `outLeft` and `errLeft` are what the child has written, or will write, and is not read yet; `sent` are
      the frames that are on the wire in full. */
  datatype State = State(
    outLeft: seq<byte>, errLeft: seq<byte>,
    out: Task, err: Task, exit: Task,
    lock: Option<Who>, wire: seq<byte>, sent: seq<Frame>)
  {
    function TaskOf(w: Who): Task { match w case Out => out case Err => err case Exit => exit }

    function Unread(w: Who): seq<byte> { match w case Out => outLeft case Err => errLeft case Exit => [] }

    /** The state after a step of `w`. */
    function With(w: Who, unread: seq<byte>, t: Task, lock: Option<Who>, wire: seq<byte>, sent: seq<Frame>): State {
      match w
      case Out => State(unread, errLeft, t, err, exit, lock, wire, sent)
      case Err => State(outLeft, unread, out, t, exit, lock, wire, sent)
      case Exit => State(outLeft, errLeft, out, err, t, lock, wire, sent)
    }
  }

  /** What one run is about: all that the child writes on each pipe, and its exit code. */
  datatype Run = Run(out: seq<byte>, err: seq<byte>, code: int)
  {
    predicate Valid() { -0x8000_0000 <= code < 0x8000_0000 }

    function Written(w: Who): seq<byte> { match w case Out => out case Err => err case Exit => [] }
  }

  function ChannelOf(w: Who): byte {
    match w case Out => CH_STDOUT case Err => CH_STDERR case Exit => CH_EXIT
  }

  function Initial(r: Run): State { State(r.out, r.err, Idle, Idle, Idle, None, [], []) }

  // ----- the steps

  datatype Step =
    | ReadPipe(w: Who, n: nat)   // a pump task reads some bytes from its pipe
    | EndPipe(w: Who)            // a pump task sees the end of its pipe
    | BeginExit                  // both pump tasks have been joined: the exit status goes out
    | Acquire(w: Who)
    | WriteSome(w: Who, n: nat)
    | Release(w: Who)

  /** Whose step it is. */
  function Actor(e: Step): Who { if e.BeginExit? then Exit else e.w }

  predicate Enabled(s: State, e: Step) {
    var t := s.TaskOf(Actor(e));
    match e
    case ReadPipe(w, n) => w != Exit && t == Idle && 0 < n <= |s.Unread(w)| && n <= PIPE_READ
    case EndPipe(w) => w != Exit && t == Idle && s.Unread(w) == []
    case BeginExit => t == Idle && s.TaskOf(Out) == Done && s.TaskOf(Err) == Done
    case Acquire(w) => t.Waiting? && s.lock == None
    case WriteSome(w, n) => t.Writing? && 0 < n <= |t.left|
    case Release(w) => t.Writing? && t.left == []
  }

  function Do(r: Run, s: State, e: Step): State
    requires r.Valid() && Enabled(s, e)
  {
    var w, t := Actor(e), s.TaskOf(Actor(e));
    var unread := s.Unread(w);
    match e
    case ReadPipe(_, n) => s.With(w, unread[n..], Waiting(Frame(ChannelOf(w), unread[..n])), s.lock, s.wire, s.sent)
    case EndPipe(_) => s.With(w, unread, Done, s.lock, s.wire, s.sent)
    case BeginExit => s.With(w, unread, Waiting(ExitFrame(r.code)), s.lock, s.wire, s.sent)
    case Acquire(_) => s.With(w, unread, Writing(t.frame, Encode(t.frame)), Some(w), s.wire, s.sent)
    case WriteSome(_, n) =>
      s.With(w, unread, Writing(t.frame, t.left[n..]), s.lock, s.wire + t.left[..n],
             if n == |t.left| then s.sent + [t.frame] else s.sent)
    case Release(_) => s.With(w, unread, if w == Exit then Done else Idle, None, s.wire, s.sent)
  }

  lemma WithIs(s: State, w: Who, unread: seq<byte>, t: Task, lock: Option<Who>, wire: seq<byte>, sent: seq<Frame>)
    ensures var u := s.With(w, unread, t, lock, wire, sent);
            && u.TaskOf(w) == t && (w != Exit ==> u.Unread(w) == unread)
            && (forall v :: v != w ==> u.TaskOf(v) == s.TaskOf(v) && u.Unread(v) == s.Unread(v))
            && u.lock == lock && u.wire == wire && u.sent == sent && u.Unread(Exit) == []
  {
  }

  /** The state after some steps; None if one of them was not enabled. */
  function After(r: Run, steps: seq<Step>): Option<State>
    requires r.Valid()
  {
    if steps == [] then Some(Initial(r))
    else match After(r, steps[..|steps| - 1])
      case None => None
      case Some(s) => if Enabled(s, steps[|steps| - 1]) then Some(Do(r, s, steps[|steps| - 1])) else None
  }

  // ----- the invariant

  /** The frame of a task that is not on the wire in full. */
  function Pending(t: Task): Option<Frame> {
    if t.Waiting? then Some(t.frame) else if t.Writing? && t.left != [] then Some(t.frame) else None
  }

  function Held(t: Task): seq<byte> { if Pending(t).Some? then Pending(t).value.data else [] }

  /** The bytes of an unfinished frame that are on the wire. */
  function Partial(t: Task): seq<byte> {
    if t.Writing? && 0 < |t.left| <= |Encode(t.frame)| then Encode(t.frame)[..|Encode(t.frame)| - |t.left|] else []
  }

  ghost predicate TaskFine(r: Run, s: State, w: Who)
    requires r.Valid()
  {
    var t := s.TaskOf(w);
    && (t.Writing? <==> s.lock == Some(w))
    && (t.Writing? ==> |t.left| <= |Encode(t.frame)| && t.left == Encode(t.frame)[|Encode(t.frame)| - |t.left|..])
    && (Pending(t).Some? ==>
          var f := Pending(t).value;
          f.chan == ChannelOf(w) && Fits(f.data) && (w == Exit ==> f == ExitFrame(r.code)))
    && (w != Exit && t == Done ==> s.Unread(w) == [])
  }

  /** Every byte the child writes on a pipe is in a frame on the wire, in the task, or still unread. */
  ghost predicate Conserved(r: Run, s: State, w: Who) {
    Payload(s.sent, ChannelOf(w)) + Held(s.TaskOf(w)) + s.Unread(w) == r.Written(w)
  }

  predicate Begun(s: State) { s.TaskOf(Exit) != Idle }

  /** The exit frame has been sent. */
  predicate Told(s: State) { var t := s.TaskOf(Exit); t == Done || (t.Writing? && t.left == []) }

  ghost predicate ExitLast(r: Run, s: State)
    requires r.Valid()
  {
    && (Begun(s) ==> s.TaskOf(Out) == Done && s.TaskOf(Err) == Done)
    && (!Told(s) ==> NoExit(s.sent))
    && (Told(s) ==> s.sent != [] && s.sent[|s.sent| - 1] == ExitFrame(r.code) && NoExit(s.sent[..|s.sent| - 1]))
  }

  function Unfinished(s: State): seq<byte> {
    if s.lock.None? then [] else Partial(s.TaskOf(s.lock.value))
  }

  ghost predicate Inv(r: Run, s: State)
    requires r.Valid()
  {
    && TaskFine(r, s, Out) && TaskFine(r, s, Err) && TaskFine(r, s, Exit)
    && AllFit(s.sent) && s.wire == EncodeAll(s.sent) + Unfinished(s)
    && Conserved(r, s, Out) && Conserved(r, s, Err)
    && ExitLast(r, s)
  }

  lemma InitialInv(r: Run)
    requires r.Valid()
    ensures Inv(r, Initial(r))
  {
    assert [] + [] + r.out == r.out && [] + [] + r.err == r.err;
  }

  /** A step of `w` keeps the other tasks fine, as long as it does not take their lock. */
  lemma OthersFine(r: Run, s: State, t: State, w: Who)
    requires r.Valid() && TaskFine(r, s, Out) && TaskFine(r, s, Err) && TaskFine(r, s, Exit) && TaskFine(r, t, w)
    requires t.lock == s.lock || (s.lock == None && t.lock == Some(w)) || (s.lock == Some(w) && t.lock == None)
    requires forall v :: v != w ==> t.Unread(v) == s.Unread(v) && t.TaskOf(v) == s.TaskOf(v)
    ensures TaskFine(r, t, Out) && TaskFine(r, t, Err) && TaskFine(r, t, Exit)
  {
    hide State.TaskOf, State.Unread, Encode, ExitFrame, Fits;
    assert TaskFine(r, s, w);
    forall v ensures TaskFine(r, t, v) {
      if v != w { assert TaskFine(r, s, v); }
    }
  }

  /** A step that sends nothing and moves bytes only between `w`'s pipe and `w`'s task. */
  lemma StillConserved(r: Run, s: State, t: State, w: Who)
    requires Conserved(r, s, Out) && Conserved(r, s, Err) && t.sent == s.sent
    requires Held(t.TaskOf(w)) + t.Unread(w) == Held(s.TaskOf(w)) + s.Unread(w)
    requires forall v :: v != w ==> t.Unread(v) == s.Unread(v) && t.TaskOf(v) == s.TaskOf(v)
    ensures Conserved(r, t, Out) && Conserved(r, t, Err)
  {
    hide State.TaskOf, State.Unread, Payload, Held;
    forall v | v == Out || v == Err ensures Conserved(r, t, v) {
      var p := Payload(s.sent, ChannelOf(v));
      assert Conserved(r, s, v);
      if v == w {
        assert p + Held(t.TaskOf(w)) + t.Unread(w) == p + (Held(t.TaskOf(w)) + t.Unread(w));
        assert p + Held(s.TaskOf(w)) + s.Unread(w) == p + (Held(s.TaskOf(w)) + s.Unread(w));
      }
    }
  }

  /** A step of a pump task that sends nothing leaves the exit send, and what has been told, alone. */
  lemma ExitUnmoved(r: Run, s: State, t: State, w: Who)
    requires r.Valid() && ExitLast(r, s) && w != Exit && s.TaskOf(w) != Done && t.sent == s.sent
    requires forall v :: v != w ==> t.TaskOf(v) == s.TaskOf(v)
    ensures ExitLast(r, t)
  {
    hide State.TaskOf, ExitFrame, NoExit;
  }

  /** Nor does it matter to the wire what a task does that does not hold the lock. */
  lemma WireUnmoved(r: Run, s: State, t: State, w: Who)
    requires r.Valid() && TaskFine(r, s, w) && !s.TaskOf(w).Writing? && t.lock == s.lock
    requires forall v :: v != w ==> t.TaskOf(v) == s.TaskOf(v)
    ensures Unfinished(t) == Unfinished(s)
  {
    hide State.TaskOf, ExitFrame, Partial, Encode;
  }

  lemma ReadPipeKeeps(r: Run, s: State, w: Who, n: nat)
    requires r.Valid() && Inv(r, s) && Enabled(s, ReadPipe(w, n))
    ensures Inv(r, Do(r, s, ReadPipe(w, n)))
  {
    hide State.TaskOf, State.Unread, State.With, Encode, EncodeAll, Payload, ExitFrame, Conserved, ExitLast, Unfinished;
    var unread := s.Unread(w);
    WithIs(s, w, unread[n..], Waiting(Frame(ChannelOf(w), unread[..n])), s.lock, s.wire, s.sent);
    var t := Do(r, s, ReadPipe(w, n));
    assert TaskFine(r, s, w);
    OthersFine(r, s, t, w);
    ExitUnmoved(r, s, t, w);
    WireUnmoved(r, s, t, w);
    assert unread[..n] + unread[n..] == [] + unread;
    StillConserved(r, s, t, w);
  }

  lemma EndPipeKeeps(r: Run, s: State, w: Who)
    requires r.Valid() && Inv(r, s) && Enabled(s, EndPipe(w))
    ensures Inv(r, Do(r, s, EndPipe(w)))
  {
    hide State.TaskOf, State.Unread, State.With, Encode, EncodeAll, Payload, ExitFrame, Conserved, ExitLast, Unfinished;
    WithIs(s, w, s.Unread(w), Done, s.lock, s.wire, s.sent);
    var t := Do(r, s, EndPipe(w));
    assert TaskFine(r, s, w);
    OthersFine(r, s, t, w);
    ExitUnmoved(r, s, t, w);
    WireUnmoved(r, s, t, w);
    StillConserved(r, s, t, w);
  }

  lemma BeginExitKeeps(r: Run, s: State)
    requires r.Valid() && Inv(r, s) && Enabled(s, BeginExit)
    ensures Inv(r, Do(r, s, BeginExit))
  {
    hide State.TaskOf, State.Unread, State.With, Encode, EncodeAll, Payload, ExitFrame, Conserved;
    ExitFrameFits(r.code);
    WithIs(s, Exit, s.Unread(Exit), Waiting(ExitFrame(r.code)), s.lock, s.wire, s.sent);
    var t := Do(r, s, BeginExit);
    OthersFine(r, s, t, Exit);
    ExitMoves(r, s, t);
  }

  lemma ExitFrameFits(code: int)
    requires -0x8000_0000 <= code < 0x8000_0000
    ensures Fits(ExitFrame(code).data) && ExitFrame(code).chan == CH_EXIT
  {
  }

  /** What the exit send does to its own task is no matter of the pipes. */
  lemma ExitMoves(r: Run, s: State, t: State)
    requires Conserved(r, s, Out) && Conserved(r, s, Err) && t.sent == s.sent
    requires forall v :: v != Exit ==> t.Unread(v) == s.Unread(v) && t.TaskOf(v) == s.TaskOf(v)
    ensures Conserved(r, t, Out) && Conserved(r, t, Err)
  {
  }

  lemma AcquireKeeps(r: Run, s: State, w: Who)
    requires r.Valid() && Inv(r, s) && Enabled(s, Acquire(w))
    ensures Inv(r, Do(r, s, Acquire(w)))
  {
    hide State.TaskOf, State.Unread, State.With, Encode, EncodeAll, Payload, ExitFrame, Conserved;
    var f := s.TaskOf(w).frame;
    WholeLeft(f);
    WithIs(s, w, s.Unread(w), Writing(f, Encode(f)), Some(w), s.wire, s.sent);
    var t := Do(r, s, Acquire(w));
    assert TaskFine(r, s, w);
    OthersFine(r, s, t, w);
    if w == Exit { ExitMoves(r, s, t); } else { StillConserved(r, s, t, w); }
  }

  lemma WholeLeft(f: Frame)
    ensures |Encode(f)| >= 5 && Encode(f)[..0] == [] && Encode(f)[0..] == Encode(f)
  {
  }

  lemma ReleaseKeeps(r: Run, s: State, w: Who)
    requires r.Valid() && Inv(r, s) && Enabled(s, Release(w))
    ensures Inv(r, Do(r, s, Release(w)))
  {
    hide State.TaskOf, State.Unread, State.With, Encode, EncodeAll, Payload, ExitFrame, Conserved;
    WithIs(s, w, s.Unread(w), if w == Exit then Done else Idle, None, s.wire, s.sent);
    var t := Do(r, s, Release(w));
    assert TaskFine(r, s, w);
    OthersFine(r, s, t, w);
    if w == Exit { ExitMoves(r, s, t); } else { StillConserved(r, s, t, w); }
  }

  /** What is left of a frame after `n` more bytes. */
  lemma FurtherOnWire(e: seq<byte>, left: seq<byte>, n: nat)
    requires |left| <= |e| && left == e[|e| - |left|..] && n <= |left|
    ensures left[n..] == e[|e| - |left[n..]|..]
    ensures e[..|e| - |left|] + left[..n] == e[..|e| - |left[n..]|]
  {
  }

  lemma PartialGrows(f: Frame, left: seq<byte>, n: nat)
    requires 0 < n <= |left| <= |Encode(f)| && left == Encode(f)[|Encode(f)| - |left|..]
    ensures Partial(Writing(f, left)) + left[..n]
         == if n == |left| then Encode(f) else Partial(Writing(f, left[n..]))
  {
    hide Encode;
    FurtherOnWire(Encode(f), left, n);
  }

  lemma WireGrows(s: State, t: State, w: Who, f: Frame, left: seq<byte>, n: nat)
    requires 0 < n <= |left| <= |Encode(f)| && left == Encode(f)[|Encode(f)| - |left|..]
    requires s.lock == t.lock == Some(w) && s.TaskOf(w) == Writing(f, left) && t.TaskOf(w) == Writing(f, left[n..])
    requires s.wire == EncodeAll(s.sent) + Unfinished(s) && t.wire == s.wire + left[..n]
    requires t.sent == if n == |left| then s.sent + [f] else s.sent
    ensures t.wire == EncodeAll(t.sent) + Unfinished(t)
  {
    hide State.TaskOf, Encode, EncodeAll, Partial;
    PartialGrows(f, left, n);
    assert s.wire + left[..n] == EncodeAll(s.sent) + (Unfinished(s) + left[..n]);
    if n == |left| {
      EncodeAllSnoc(s.sent, f);
      NothingPartial(f);
      assert left[n..] == [];
      assert EncodeAll(t.sent) + [] == EncodeAll(t.sent);
    }
  }

  lemma NothingPartial(f: Frame)
    ensures Partial(Writing(f, [])) == []
  {
  }

  /** Writing more of a frame keeps the writer's own part of the invariant. */
  lemma WriterFine(r: Run, s: State, t: State, w: Who, n: nat)
    requires r.Valid() && TaskFine(r, s, w) && s.TaskOf(w).Writing? && 0 < n <= |s.TaskOf(w).left|
    requires t.TaskOf(w) == Writing(s.TaskOf(w).frame, s.TaskOf(w).left[n..]) && t.lock == s.lock
    ensures TaskFine(r, t, w)
  {
    hide State.TaskOf, State.Unread, Encode, ExitFrame, Fits;
    FurtherOnWire(Encode(s.TaskOf(w).frame), s.TaskOf(w).left, n);
  }

  /** While a frame is unfinished, nothing changes in what has been told. */
  lemma PartTellsNothing(r: Run, s: State, t: State, w: Who)
    requires r.Valid() && ExitLast(r, s) && t.sent == s.sent
    requires s.TaskOf(w).Writing? && s.TaskOf(w).left != [] && t.TaskOf(w).Writing? && t.TaskOf(w).left != []
    requires forall v :: v != w ==> t.TaskOf(v) == s.TaskOf(v)
    ensures ExitLast(r, t)
  {
    hide State.TaskOf, ExitFrame, NoExit;
  }

  lemma WritePartKeeps(r: Run, s: State, w: Who, n: nat)
    requires r.Valid() && Inv(r, s) && Enabled(s, WriteSome(w, n)) && n < |s.TaskOf(w).left|
    ensures Inv(r, Do(r, s, WriteSome(w, n)))
  {
    hide State.TaskOf, State.Unread, State.With, Encode, EncodeAll, Payload, ExitFrame;
    hide Conserved, Unfinished, Partial, ExitLast;
    var f, left := s.TaskOf(w).frame, s.TaskOf(w).left;
    WithIs(s, w, s.Unread(w), Writing(f, left[n..]), s.lock, s.wire + left[..n], s.sent);
    var t := Do(r, s, WriteSome(w, n));
    assert TaskFine(r, s, w);
    WriterFine(r, s, t, w, n);
    OthersFine(r, s, t, w);
    PartTellsNothing(r, s, t, w);
    if w == Exit { ExitMoves(r, s, t); } else { StillConserved(r, s, t, w); }
    WireGrows(s, t, w, f, left, n);
  }

  /** A frame that is out in full is an exit frame exactly if the exit send wrote it. */
  lemma LastTells(r: Run, s: State, t: State, w: Who, f: Frame)
    requires r.Valid() && ExitLast(r, s) && t.sent == s.sent + [f]
    requires s.TaskOf(w).Writing? && s.TaskOf(w).left != [] && t.TaskOf(w) == Writing(f, [])
    requires f.chan == ChannelOf(w) && (w == Exit ==> f == ExitFrame(r.code))
    requires forall v :: v != w ==> t.TaskOf(v) == s.TaskOf(v)
    ensures ExitLast(r, t)
  {
    hide State.TaskOf, ExitFrame;
    assert t.sent[..|s.sent|] == s.sent;
  }

  lemma WriteLastKeeps(r: Run, s: State, w: Who, n: nat)
    requires r.Valid() && Inv(r, s) && Enabled(s, WriteSome(w, n)) && n == |s.TaskOf(w).left|
    ensures Inv(r, Do(r, s, WriteSome(w, n)))
  {
    hide State.TaskOf, State.Unread, State.With, Encode, EncodeAll, Payload, ExitFrame;
    hide Conserved, Unfinished, Partial, ExitLast;
    var f, left := s.TaskOf(w).frame, s.TaskOf(w).left;
    WithIs(s, w, s.Unread(w), Writing(f, left[n..]), s.lock, s.wire + left[..n], s.sent + [f]);
    var t := Do(r, s, WriteSome(w, n));
    assert TaskFine(r, s, w) && left[n..] == [];
    WriterFine(r, s, t, w, n);
    OthersFine(r, s, t, w);
    SentGrows(r, s, t, w, f);
    LastTells(r, s, t, w, f);
    WireGrows(s, t, w, f, left, n);
  }

  lemma SentGrows(r: Run, s: State, t: State, w: Who, f: Frame)
    requires Conserved(r, s, Out) && Conserved(r, s, Err)
    requires Pending(s.TaskOf(w)) == Some(f) && f.chan == ChannelOf(w) && t.sent == s.sent + [f]
    requires Pending(t.TaskOf(w)) == None && (w != Exit ==> t.Unread(w) == s.Unread(w))
    requires forall v :: v != w ==> t.Unread(v) == s.Unread(v) && t.TaskOf(v) == s.TaskOf(v)
    ensures Conserved(r, t, Out) && Conserved(r, t, Err)
  {
    hide Payload, State.TaskOf, State.Unread;
    forall v | v == Out || v == Err ensures Conserved(r, t, v) {
      PayloadSnoc(s.sent, f, ChannelOf(v));
      assert Conserved(r, s, v);
      var p := Payload(s.sent, ChannelOf(v));
      assert p + [] == p && p + f.data + [] == p + f.data;
    }
  }

  lemma StepKeeps(r: Run, s: State, e: Step)
    requires r.Valid() && Inv(r, s) && Enabled(s, e)
    ensures Inv(r, Do(r, s, e))
  {
    hide Inv, Do;
    match e
    case ReadPipe(w, n) => ReadPipeKeeps(r, s, w, n);
    case Acquire(w) => AcquireKeeps(r, s, w);
    case WriteSome(w, n) =>
      if n < |s.TaskOf(w).left| { WritePartKeeps(r, s, w, n); } else { WriteLastKeeps(r, s, w, n); }
    case EndPipe(w) => EndPipeKeeps(r, s, w);
    case BeginExit => BeginExitKeeps(r, s);
    case Release(w) => ReleaseKeeps(r, s, w);
  }

  lemma {:induction false} ReachableInv(r: Run, steps: seq<Step>)
    requires r.Valid() && After(r, steps).Some?
    ensures Inv(r, After(r, steps).value)
    decreases |steps|
  {
    hide Inv, Do, Enabled;
    if steps == [] {
      InitialInv(r);
    } else {
      ReachableInv(r, steps[..|steps| - 1]);
      StepKeeps(r, After(r, steps[..|steps| - 1]).value, steps[|steps| - 1]);
    }
  }

  // ----- what the host sees

  lemma UnfinishedIsNoFrame(r: Run, s: State)
    requires r.Valid() && Inv(r, s)
    ensures Decode(Unfinished(s)) == None
  {
    hide Encode, EncodeAll, Payload, Decode;
    assert Decode([]) == None by { NothingDecodes(); }
    if s.lock.Some? {
      var t := s.TaskOf(s.lock.value);
      if t.left != [] { PartialFrame(t.frame, |Encode(t.frame)| - |t.left|); }
    }
  }

  lemma NothingDecodes()
    ensures Decode([]) == None
  {
  }

  /** At any moment of any run the host decodes exactly the frames sent in full; what it has on each channel
      is a prefix of what the child wrote there; and nothing follows an exit frame. */
  lemma WireIsFramed(r: Run, steps: seq<Step>)
    requires r.Valid() && After(r, steps).Some?
    ensures var s := After(r, steps).value;
            && DecodeAll(s.wire) == (s.sent, Unfinished(s))
            && Payload(s.sent, CH_STDOUT) <= r.out && Payload(s.sent, CH_STDERR) <= r.err
            && forall i :: 0 <= i < |s.sent| && s.sent[i].chan == CH_EXIT ==>
                 i == |s.sent| - 1 && s.sent[i] == ExitFrame(r.code)
  {
    hide Encode, EncodeAll, Payload, Decode;
    ReachableInv(r, steps);
    var s := After(r, steps).value;
    UnfinishedIsNoFrame(r, s);
    WholeFramesOnly(s.sent, Unfinished(s));
    var front := if Told(s) then s.sent[..|s.sent| - 1] else s.sent;
    forall i | 0 <= i < |front| ensures s.sent[i].chan != CH_EXIT { assert front[i] in front; }
  }

  /** Once the exit status is out, however the steps interleaved, the host's loop over the socket yields all
      of the child's output, all of its errors, and its exit code. */
  lemma HostGetsEverything(r: Run, steps: seq<Step>)
    requires r.Valid() && After(r, steps).Some? && Told(After(r, steps).value)
    ensures TakeAll(NOTHING, DecodeAll(After(r, steps).value.wire).0) == Outcome(r.out, r.err, r.code, true)
  {
    WireIsFramed(r, steps);
    ReachableInv(r, steps);
    ToldMeansAll(r, After(r, steps).value);
  }

  lemma ToldMeansAll(r: Run, s: State)
    requires r.Valid() && Inv(r, s) && Told(s)
    ensures TakeAll(NOTHING, s.sent) == Outcome(r.out, r.err, r.code, true)
  {
    hide Encode, EncodeAll, Payload, TakeAll, Le32, FromLe32;
    var front, last := s.sent[..|s.sent| - 1], ExitFrame(r.code);
    assert s.sent == front + [last];
    TakeAllSnoc(NOTHING, front, last);
    TakesOutputs(front);
    ExitCodeSurvives(r.code);
    PayloadSnoc(front, last, CH_STDOUT);
    PayloadSnoc(front, last, CH_STDERR);
    var a, b := Payload(front, CH_STDOUT), Payload(front, CH_STDERR);
    assert a + [] + [] + [] == a && b + [] + [] + [] == b;
  }

  // ----- every run comes to its end

  /** A frame is worth more in the pipe than with its task, and more there than on its way out. */
  function TaskWeight(t: Task): nat {
    match t
    case Idle => 1
    case Waiting(f) => 8 + |f.data|
    case Writing(_, left) => 2 + |left|
    case Done => 0
  }

  function Measure(s: State): nat {
    20 * |s.outLeft| + 20 * |s.errLeft| + TaskWeight(s.out) + TaskWeight(s.err)
    + (if s.exit == Idle then 20 else TaskWeight(s.exit))
  }

  lemma StepShrinks(r: Run, s: State, e: Step)
    requires r.Valid() && Enabled(s, e)
    ensures Measure(Do(r, s, e)) < Measure(s)
  {
    hide Le32;
    if e.Acquire? {
      WholeLeft(s.TaskOf(e.w).frame);
      EncodedSize(s.TaskOf(e.w).frame);
    }
    match Actor(e) case Out => case Err => case Exit =>
  }

  lemma EncodedSize(f: Frame)
    ensures |Encode(f)| == 5 + |f.data|
  {
  }

  /** Until the exit send is done, some step is enabled. */
  lemma SomeStep(r: Run, s: State) returns (e: Step)
    requires r.Valid() && Inv(r, s) && s.exit != Done
    ensures Enabled(s, e)
  {
    hide Encode, EncodeAll, Payload, ExitFrame, Fits, Conserved, Unfinished, NoExit;
    if s.lock.Some? {
      var w := s.lock.value;
      assert s.TaskOf(w).Writing?;
      e := if s.TaskOf(w).left == [] then Release(w) else WriteSome(w, 1);
    } else if s.out.Waiting? {
      e := Acquire(Out);
    } else if s.err.Waiting? {
      e := Acquire(Err);
    } else if s.exit.Waiting? {
      e := Acquire(Exit);
    } else if s.out == Idle {
      e := if s.outLeft == [] then EndPipe(Out) else ReadPipe(Out, 1);
    } else if s.err == Idle {
      e := if s.errLeft == [] then EndPipe(Err) else ReadPipe(Err, 1);
    } else {
      e := BeginExit;
    }
  }

  lemma {:induction false} RunIsShort(r: Run, steps: seq<Step>)
    requires r.Valid() && After(r, steps).Some?
    ensures |steps| + Measure(After(r, steps).value) <= Measure(Initial(r))
    decreases |steps|
  {
    hide Do, Enabled, Measure;
    if steps != [] {
      var front, e := steps[..|steps| - 1], steps[|steps| - 1];
      RunIsShort(r, front);
      StepShrinks(r, After(r, front).value, e);
    }
  }

  lemma AfterOne(r: Run, steps: seq<Step>, s: State, e: Step)
    requires r.Valid() && After(r, steps) == Some(s) && Enabled(s, e)
    ensures After(r, steps + [e]) == Some(Do(r, s, e))
  {
    hide Do, Enabled;
    assert (steps + [e])[..|steps|] == steps;
  }

  /** Every run ends, after a number of steps linear in what the child writes; and it is never stuck before the exit
      status is out. */
  lemma EveryRunTells(r: Run, steps: seq<Step>)
    requires r.Valid() && After(r, steps).Some?
    ensures |steps| <= 20 * |r.out| + 20 * |r.err| + 22
    ensures Told(After(r, steps).value) || exists e :: After(r, steps + [e]).Some?
  {
    hide Do, Enabled, Inv;
    RunIsShort(r, steps);
    ReachableInv(r, steps);
    var s := After(r, steps).value;
    if s.exit != Done {
      var e := SomeStep(r, s);
      AfterOne(r, steps, s, e);
    }
  }

  // ----- which wires there are

  /** A frame as a pump task makes it. */
  predicate IsOutput(f: Frame) { (f.chan == CH_STDOUT || f.chan == CH_STDERR) && 0 < |f.data| <= PIPE_READ }

  ghost predicate Sized(s: State) {
    && (forall f <- s.sent :: IsOutput(f) || f.chan == CH_EXIT)
    && (Pending(s.out).Some? ==> IsOutput(Pending(s.out).value))
    && (Pending(s.err).Some? ==> IsOutput(Pending(s.err).value))
    && (Pending(s.exit).Some? ==> Pending(s.exit).value.chan == CH_EXIT)
  }

  lemma StepKeepsSized(r: Run, s: State, e: Step)
    requires r.Valid() && Sized(s) && Enabled(s, e)
    ensures Sized(Do(r, s, e))
  {
    hide Encode, Le32;
    if e.Acquire? { WholeLeft(s.TaskOf(e.w).frame); }
    match Actor(e) case Out => case Err => case Exit =>
  }

  lemma {:induction false} ReachableSized(r: Run, steps: seq<Step>)
    requires r.Valid() && After(r, steps).Some?
    ensures Sized(After(r, steps).value)
    decreases |steps|
  {
    hide Do, Enabled, Sized;
    if steps == [] {
      InitialSized(r);
    } else {
      ReachableSized(r, steps[..|steps| - 1]);
      StepKeepsSized(r, After(r, steps[..|steps| - 1]).value, steps[|steps| - 1]);
    }
  }

  lemma InitialSized(r: Run)
    requires r.Valid()
    ensures Sized(Initial(r))
  {
  }

  /** The state with the frames `fs` sent and nothing going on. */
  ghost function Rested(r: Run, fs: seq<Frame>): State
    requires |Payload(fs, CH_STDOUT)| <= |r.out| && |Payload(fs, CH_STDERR)| <= |r.err|
  {
    State(r.out[|Payload(fs, CH_STDOUT)|..], r.err[|Payload(fs, CH_STDERR)|..], Idle, Idle, Idle, None, EncodeAll(fs), fs)
  }

  function SenderOf(f: Frame): Who { if f.chan == CH_STDOUT then Out else Err }

  /** One frame more: read, lock, write, unlock. */
  lemma OneFrameMore(r: Run, steps: seq<Step>, fs: seq<Frame>, f: Frame) returns (more: seq<Step>)
    requires r.Valid() && IsOutput(f)
    requires Payload(fs + [f], CH_STDOUT) <= r.out && Payload(fs + [f], CH_STDERR) <= r.err
    requires |Payload(fs, CH_STDOUT)| <= |r.out| && |Payload(fs, CH_STDERR)| <= |r.err|
    requires After(r, steps) == Some(Rested(r, fs))
    ensures After(r, more) == Some(Rested(r, fs + [f]))
  {
    hide After, Payload, Encode, EncodeAll;
    var w, s0, n := SenderOf(f), Rested(r, fs), |f.data|;
    FrameIsNext(r, fs, f);
    var left := s0.Unread(w)[n..];
    EncodeAllSnoc(fs, f);
    WholeLeft(f);
    var e := Encode(f);
    assert e[..|e|] == e && e[|e|..] == [];
    var s1 := s0.With(w, left, Waiting(f), None, s0.wire, fs);
    var s2 := s0.With(w, left, Writing(f, e), Some(w), s0.wire, fs);
    var s3 := s0.With(w, left, Writing(f, []), Some(w), s0.wire + e, fs + [f]);
    AfterOne(r, steps, s0, ReadPipe(w, n));
    AfterOne(r, steps + [ReadPipe(w, n)], s1, Acquire(w));
    AfterOne(r, steps + [ReadPipe(w, n)] + [Acquire(w)], s2, WriteSome(w, |e|));
    AfterOne(r, steps + [ReadPipe(w, n)] + [Acquire(w)] + [WriteSome(w, |e|)], s3, Release(w));
    more := steps + [ReadPipe(w, n)] + [Acquire(w)] + [WriteSome(w, |e|)] + [Release(w)];
    var t := Rested(r, fs + [f]);
    assert t.outLeft == t.Unread(Out) && t.errLeft == t.Unread(Err);
  }

  /** The payload of the next frame is what the sender reads next. */
  lemma FrameIsNext(r: Run, fs: seq<Frame>, f: Frame)
    requires IsOutput(f)
    requires Payload(fs + [f], CH_STDOUT) <= r.out && Payload(fs + [f], CH_STDERR) <= r.err
    requires |Payload(fs, CH_STDOUT)| <= |r.out| && |Payload(fs, CH_STDERR)| <= |r.err|
    ensures var w, n := SenderOf(f), |f.data|; var unread := Rested(r, fs).Unread(w);
            && n <= |unread| && unread[..n] == f.data && ChannelOf(w) == f.chan
            && Rested(r, fs + [f]).Unread(w) == unread[n..]
            && forall v :: v != w ==> Rested(r, fs + [f]).Unread(v) == Rested(r, fs).Unread(v)
  {
    hide Payload, EncodeAll;
    PayloadSnoc(fs, f, CH_STDOUT);
    PayloadSnoc(fs, f, CH_STDERR);
    var all := if f.chan == CH_STDOUT then r.out else r.err;
    NextPart(Payload(fs, f.chan), f.data, all);
  }

  lemma NextPart(front: seq<byte>, data: seq<byte>, all: seq<byte>)
    requires front + data <= all
    ensures |front| + |data| <= |all| && all[|front|..][..|data|] == data
    ensures all[|front|..][|data|..] == all[|front + data|..]
  {
    assert all[..|front + data|] == front + data;
  }

  lemma PayloadOfFront(fs: seq<Frame>, chan: byte)
    requires fs != []
    ensures Payload(fs[..|fs| - 1], chan) <= Payload(fs, chan)
  {
  }

  lemma {:induction false} SomeRun(r: Run, fs: seq<Frame>) returns (steps: seq<Step>)
    requires r.Valid() && (forall f <- fs :: IsOutput(f))
    requires Payload(fs, CH_STDOUT) <= r.out && Payload(fs, CH_STDERR) <= r.err
    ensures After(r, steps) == Some(Rested(r, fs))
    decreases |fs|
  {
    hide After, Payload, IsOutput;
    if fs == [] {
      steps := [];
      NothingSent(r);
    } else {
      var front, last := fs[..|fs| - 1], fs[|fs| - 1];
      assert fs == front + [last] && last in fs;
      PayloadOfFront(fs, CH_STDOUT);
      PayloadOfFront(fs, CH_STDERR);
      var before := SomeRun(r, front);
      steps := OneFrameMore(r, before, front, last);
    }
  }

  lemma NothingSent(r: Run)
    requires r.Valid()
    ensures Payload([], CH_STDOUT) == [] && Payload([], CH_STDERR) == [] && After(r, []) == Some(Rested(r, []))
  {
  }

  /** With everything sent, the pipes end and the exit status goes out. */
  lemma TellsAtLast(r: Run, steps: seq<Step>, fs: seq<Frame>) returns (more: seq<Step>)
    requires r.Valid() && Payload(fs, CH_STDOUT) == r.out && Payload(fs, CH_STDERR) == r.err
    requires After(r, steps) == Some(Rested(r, fs))
    ensures After(r, more).Some? && Told(After(r, more).value) && After(r, more).value.sent == fs + [ExitFrame(r.code)]
  {
    hide After, Payload, Encode, EncodeAll, ExitFrame;
    var s0, f := Rested(r, fs), ExitFrame(r.code);
    WholeLeft(f);
    var e := Encode(f);
    assert e[..|e|] == e && e[|e|..] == [];
    var s1 := s0.(out := Done);
    var s2 := s1.(err := Done);
    var s3 := s2.(exit := Waiting(f));
    var s4 := s2.(exit := Writing(f, e), lock := Some(Exit));
    AfterOne(r, steps, s0, EndPipe(Out));
    AfterOne(r, steps + [EndPipe(Out)], s1, EndPipe(Err));
    AfterOne(r, steps + [EndPipe(Out)] + [EndPipe(Err)], s2, BeginExit);
    AfterOne(r, steps + [EndPipe(Out)] + [EndPipe(Err)] + [BeginExit], s3, Acquire(Exit));
    AfterOne(r, steps + [EndPipe(Out)] + [EndPipe(Err)] + [BeginExit] + [Acquire(Exit)], s4, WriteSome(Exit, |e|));
    more := steps + [EndPipe(Out)] + [EndPipe(Err)] + [BeginExit] + [Acquire(Exit)] + [WriteSome(Exit, |e|)];
  }

  /** `fs` are the child's two outputs, each cut into frames and then put in one row, with the exit status behind. */
  ghost predicate IsInterleaving(r: Run, fs: seq<Frame>)
    requires r.Valid()
  {
    && fs != [] && fs[|fs| - 1] == ExitFrame(r.code)
    && var front := fs[..|fs| - 1];
       && (forall f <- front :: IsOutput(f))
       && Payload(front, CH_STDOUT) == r.out && Payload(front, CH_STDERR) == r.err
  }

  /** The wires of whole runs are exactly these: nothing else can come out, and every one of them can. */
  lemma WiresAreInterleavings(r: Run, fs: seq<Frame>)
    requires r.Valid()
    ensures IsInterleaving(r, fs) <==>
              exists steps :: After(r, steps).Some? && Told(After(r, steps).value) && After(r, steps).value.sent == fs
  {
    hide After, Payload, ExitFrame, IsOutput;
    if IsInterleaving(r, fs) {
      var front := fs[..|fs| - 1];
      assert fs == front + [ExitFrame(r.code)];
      var steps := SomeRun(r, front);
      var more := TellsAtLast(r, steps, front);
      assert After(r, more).value.sent == fs;
    }
    if steps :| After(r, steps).Some? && Told(After(r, steps).value) && After(r, steps).value.sent == fs {
      ToldIsInterleaving(r, steps);
    }
  }

  lemma ToldIsInterleaving(r: Run, steps: seq<Step>)
    requires r.Valid() && After(r, steps).Some? && Told(After(r, steps).value)
    ensures IsInterleaving(r, After(r, steps).value.sent)
  {
    hide After, Payload, ExitFrame, Encode, EncodeAll, Unfinished;
    var s := After(r, steps).value;
    ReachableInv(r, steps);
    ReachableSized(r, steps);
    var front := s.sent[..|s.sent| - 1];
    forall f <- front ensures IsOutput(f) { assert f in s.sent; }
    assert s.sent == front + [ExitFrame(r.code)];
    ExitFrameFits(r.code);
    PayloadSnoc(front, ExitFrame(r.code), CH_STDOUT);
    PayloadSnoc(front, ExitFrame(r.code), CH_STDERR);
    var a, b := Payload(front, CH_STDOUT), Payload(front, CH_STDERR);
    assert a + [] + [] + [] == a && b + [] + [] + [] == b;
  }
}
