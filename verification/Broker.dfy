/** The console broker's path from the guest to the log: a poll loop over the terminal and the
    liveness pipe, with every read going through the paint filter. */
module Broker {
  import opened Streams
  import opened Wrappers
  import opened PaintFilter

  const READ_SIZE: nat := 4096

  datatype ReadResult = Data(bytes: seq<byte>) | WouldBlock | Eof | Failed

  /** What may be wrong with the terminal when it is read. */
  datatype Fault = NoFault | AtEnd | Broken

  /** The guest's side of the terminal: what it wrote and the broker has not read yet. */
  class Terminal {
    ghost var written: seq<byte>
    var pending: seq<byte>

    ghost predicate Valid()
      reads this
    {
      |pending| <= |written| && pending == written[|written| - |pending|..]
    }

    ghost function Consumed(): seq<byte>
      requires Valid()
      reads this
    {
      written[..|written| - |pending|]
    }

    constructor ()
      ensures Valid() && written == []
    {
      written, pending := [], [];
    }

    method Write(data: seq<byte>)
      requires Valid()
      modifies this
      ensures Valid() && written == old(written) + data && Consumed() == old(Consumed())
      ensures pending == old(pending) + data
    {
      written, pending := written + data, pending + data;
    }

    /** A non-blocking read: any non-empty front of the pending bytes that fits the buffer; it would block when
        there are none, and delivers nothing when something is wrong. */
    method Read(fault: Fault) returns (r: ReadResult)
      requires Valid()
      modifies this
      ensures Valid() && written == old(written)
      ensures fault == AtEnd ==> r == Eof && pending == old(pending)
      ensures fault == Broken ==> r == Failed && pending == old(pending)
      ensures fault == NoFault && old(pending) == [] ==> r == WouldBlock && pending == []
      ensures fault == NoFault && old(pending) != [] ==>
                && r.Data? && 0 < |r.bytes| <= READ_SIZE
                && old(pending) == r.bytes + pending
                && Consumed() == old(Consumed()) + r.bytes
    {
      if fault == AtEnd { return Eof; }
      if fault == Broken { return Failed; }
      if pending == [] { return WouldBlock; }
      var k: int :| 0 < k <= READ_SIZE && k <= |pending|;
      r := Data(pending[..k]);
      pending := pending[k..];
    }
  }

  /** What happens up to and at one wake-up of the poll: what the guest wrote before it, which descriptors
      are reported, what is wrong with the terminal at the read, and after how many reads of a drain something
      is, if it is at all. */
  datatype Wakeup =
    | Interrupted(wrote: seq<byte>)
    | PollError(wrote: seq<byte>)
    | Ready(wrote: seq<byte>, guest: bool, fault: Fault, vmGone: bool, cutAfter: Option<nat>)

  datatype Exit = Running | Closed | Drained

  /** How a wake-up ends the loop, if it does; a read that ends or fails comes before the check of the pipe. */
  function ExitOf(w: Wakeup): Exit {
    match w
    case Interrupted(_) => Running
    case PollError(_) => Closed
    case Ready(_, guest, fault, vmGone, _) =>
      if guest && fault != NoFault then Closed else if vmGone then Drained else Running
  }

  /** The wake-up finds something to read, if anything is there. */
  predicate Reads(w: Wakeup) { w.Ready? && w.guest && w.fault == NoFault }

  /** The most that can be unread after these wake-ups if `unread` bytes were at first: every wake-up that reads takes
      a byte at least. */
  function Backlog(unread: nat, ws: seq<Wakeup>): nat {
    if ws == [] then unread
    else
      var w := ws[|ws| - 1];
      var n := Backlog(unread, ws[..|ws| - 1]) + |w.wrote|;
      if Reads(w) && n > 0 then n - 1 else n
  }

  lemma BacklogSnoc(unread: nat, ws: seq<Wakeup>, i: nat)
    requires i < |ws|
    ensures Backlog(unread, ws[..i + 1])
         == var n := Backlog(unread, ws[..i]) + |ws[i].wrote|; if Reads(ws[i]) && n > 0 then n - 1 else n
  {
    assert ws[..i + 1][..i] == ws[..i];
  }

  function ReadCount(ws: seq<Wakeup>): nat {
    if ws == [] then 0 else ReadCount(ws[..|ws| - 1]) + if Reads(ws[|ws| - 1]) then 1 else 0
  }

  /** A guest that has stopped writing is read dry after as many wake-ups as there can be bytes. */
  lemma {:induction false} BacklogClears(unread: nat, past: seq<Wakeup>, ws: seq<Wakeup>)
    requires forall w <- ws :: w.wrote == []
    ensures var n, k := Backlog(unread, past), ReadCount(ws); Backlog(unread, past + ws) == if k < n then n - k else 0
    decreases |ws|
  {
    if ws == [] {
      assert past + ws == past;
    } else {
      var front := ws[..|ws| - 1];
      assert (past + ws)[..|past + ws| - 1] == past + front;
      assert ws[|ws| - 1] in ws;
      BacklogClears(unread, past, front);
    }
  }

  /** What the guest wrote up to the last of these wake-ups. */
  ghost function Wrote(ws: seq<Wakeup>): seq<byte> {
    if ws == [] then [] else Wrote(ws[..|ws| - 1]) + ws[|ws| - 1].wrote
  }

  lemma WroteNone(ws: seq<Wakeup>)
    ensures Wrote(ws[..0]) == []
  {
  }

  lemma WroteNext(ws: seq<Wakeup>, i: nat)
    requires i < |ws|
    ensures Wrote(ws[..i + 1]) == Wrote(ws[..i]) + ws[i].wrote
  {
    assert ws[..i + 1][..i] == ws[..i];
  }

  /** Everything read has been fed, and everything put out is in the log. */
  ghost predicate InStep(guest: Terminal, paint: FirmwarePaintFilter, console: seq<byte>, log: seq<byte>)
    requires guest.Valid()
    reads guest, paint
  {
    guest.Consumed() == Joined(paint.chunks) && log == console + paint.emitted
  }

  /** Each read delivered something, and no more than fits the buffer. */
  ghost predicate Sized(chunks: seq<seq<byte>>) { forall c <- chunks :: 0 < |c| <= READ_SIZE }

  lemma SizedSnoc(chunks: seq<seq<byte>>, data: seq<byte>)
    requires Sized(chunks) && 0 < |data| <= READ_SIZE
    ensures Sized(chunks + [data])
  {
  }

  method Append(guest: Terminal, paint: FirmwarePaintFilter, console: seq<byte>, log: seq<byte>, data: seq<byte>)
    returns (log': seq<byte>)
    requires guest.Valid() && paint.Valid()
    requires guest.Consumed() == Joined(paint.chunks) + data && log == console + paint.emitted
    modifies paint
    ensures guest.Valid() && paint.Valid() && InStep(guest, paint, console, log')
    ensures paint.chunks == old(paint.chunks) + [data]
  {
    hide Joined, Listening, Stripping, Retired, GaveUp;
    JoinedSnoc(paint.chunks, data);
    var out := paint.Feed(data);
    log' := log + out;
  }

  /** Reads the terminal until it is dry, or until a read finds something wrong with it, and not before. */
  method Drain(guest: Terminal, paint: FirmwarePaintFilter, console: seq<byte>, log: seq<byte>, cutAfter: Option<nat>)
    returns (log': seq<byte>)
    requires guest.Valid() && paint.Valid() && InStep(guest, paint, console, log) && Sized(paint.chunks)
    modifies guest, paint
    ensures guest.Valid() && paint.Valid() && InStep(guest, paint, console, log') && Sized(paint.chunks)
    ensures guest.written == old(guest.written) && old(paint.chunks) <= paint.chunks
    ensures var more := |paint.chunks| - old(|paint.chunks|);
            && (cutAfter.None? ==> guest.pending == [])
            && (cutAfter.Some? ==> more <= cutAfter.value && (more < cutAfter.value ==> guest.pending == []))
    ensures |guest.pending| <= |old(guest.pending)|
  {
    hide Joined, Listening, Stripping, Retired, GaveUp;
    log' := log;
    var count := 0;
    while true
      invariant guest.Valid() && paint.Valid() && guest.written == old(guest.written)
      invariant InStep(guest, paint, console, log') && Sized(paint.chunks)
      invariant old(paint.chunks) <= paint.chunks && |paint.chunks| == |old(paint.chunks)| + count
      invariant cutAfter.Some? ==> count <= cutAfter.value
      invariant |guest.pending| <= |old(guest.pending)|
      decreases |guest.pending|
    {
      var r := guest.Read(if cutAfter == Some(count) then Broken else NoFault);
      if !r.Data? { break; }
      log' := Append(guest, paint, console, log', r.bytes);
      count := count + 1;
    }
  }

  method Finish(paint: FirmwarePaintFilter, console: seq<byte>, log: seq<byte>) returns (log': seq<byte>)
    requires paint.Valid() && log == console + paint.emitted
    modifies paint
    ensures paint.chunks == old(paint.chunks)
    ensures console <= log' && Outcome(paint.chunks, log'[|console|..])
  {
    hide Joined, Listening, Stripping, Retired, GaveUp, Outcome, Arms, RetiresAfter, Delivered;
    var rest := paint.Flush();
    log' := log + rest;
    assert log'[|console|..] == paint.emitted;
  }

  /** One round of the loop, after the poll. A wake-up that reports the terminal reads it once; it is left alone
      otherwise, until the VM is gone. */
  method OnWakeup(guest: Terminal, paint: FirmwarePaintFilter, console: seq<byte>, log: seq<byte>, w: Wakeup)
    returns (log': seq<byte>, exit: Exit)
    requires guest.Valid() && paint.Valid() && InStep(guest, paint, console, log) && Sized(paint.chunks)
    modifies guest, paint
    ensures guest.Valid() && guest.written == old(guest.written)
    ensures guest.Consumed() == Joined(paint.chunks) && Sized(paint.chunks) && old(paint.chunks) <= paint.chunks
    ensures exit == ExitOf(w)
    ensures exit == Closed <==> w.PollError? || (w.Ready? && w.guest && w.fault != NoFault)
    ensures exit == Drained <==> w.Ready? && w.vmGone && (w.guest ==> w.fault == NoFault)
    ensures exit == Running ==> paint.Valid() && InStep(guest, paint, console, log')
    ensures exit != Running ==> console <= log' && Outcome(paint.chunks, log'[|console|..])
    ensures var more := |paint.chunks| - old(|paint.chunks|);
            && (exit == Closed ==> more == 0)
            && (exit == Running ==> more == if w.Ready? && w.guest && old(guest.pending) != [] then 1 else 0)
            && (exit == Drained && w.cutAfter.None? ==> guest.pending == [])
            && (exit == Drained && w.cutAfter.Some? ==>
                  && more <= w.cutAfter.value + (if w.guest then 1 else 0)
                  && (more < w.cutAfter.value ==> guest.pending == []))
    ensures |guest.pending| <= |old(guest.pending)|
    ensures Reads(w) && old(guest.pending) != [] ==> |guest.pending| < |old(guest.pending)|
  {
    hide Joined, Outcome, Sized, Listening, Stripping, Retired, GaveUp;
    log', exit := log, Running;
    match w
    case Interrupted(_) =>
    case PollError(_) =>
      log' := Finish(paint, console, log);
      exit := Closed;
    case Ready(_, ready, fault, vmGone, cutAfter) =>
      if ready {
        var r := guest.Read(fault);
        match r {
          case Data(bytes) =>
            SizedSnoc(paint.chunks, bytes);
            log' := Append(guest, paint, console, log, bytes);
          case WouldBlock =>
          case _ =>
            log' := Finish(paint, console, log);
            exit := Closed;
            return;
        }
      }
      if vmGone {
        log' := Drain(guest, paint, console, log', cutAfter);
        log' := Finish(paint, console, log');
        exit := Drained;
      }
  }

  lemma InStepAtFirst(guest: Terminal, paint: FirmwarePaintFilter, console: seq<byte>)
    requires guest.Valid() && guest.Consumed() == [] && paint.chunks == [] && paint.emitted == []
    ensures InStep(guest, paint, console, console) && Sized(paint.chunks)
  {
  }

  lemma DryIsAll(guest: Terminal)
    requires guest.Valid() && guest.pending == []
    ensures guest.Consumed() == guest.written
  {
  }

  lemma RunningIsUnderway(guest: Terminal, paint: FirmwarePaintFilter, console: seq<byte>, log: seq<byte>)
    requires guest.Valid() && paint.Valid() && InStep(guest, paint, console, log)
    ensures console <= log && Underway(paint.chunks, log[|console|..]) && guest.Consumed() == Joined(paint.chunks)
  {
    hide Joined, Underway;
    FilterIsUnderway(paint);
    assert log[|console|..] == paint.emitted;
  }

  /** The log grows by the filter's output, read by read, and nothing stays unread for longer than there are bytes.
      However the guest's writes, the wake-ups and the read sizes interleave: when the VM is gone and the terminal
      can be read dry, every byte the guest ever wrote has gone through the filter and the log holds its whole
      outcome. On the other ways out, that is so for the bytes read; and as long as the loop runs, the log lacks
      nothing of the bytes read but an unfinished sequence. */
  method BrokerLoop(guest: Terminal, wakeups: seq<Wakeup>, console: seq<byte>)
    returns (log: seq<byte>, exit: Exit, ghost chunks: seq<seq<byte>>, ghost took: nat)
    requires guest.Valid() && guest.Consumed() == []
    modifies guest
    ensures guest.Valid() && guest.Consumed() == Joined(chunks) && Sized(chunks)
    ensures console <= log
    ensures exit == Running ==> Underway(chunks, log[|console|..])
    ensures exit != Running ==> Outcome(chunks, log[|console|..])
    ensures took <= |wakeups| && guest.written == old(guest.written) + Wrote(wakeups[..took])
    ensures |guest.pending| <= Backlog(|old(guest.pending)|, wakeups[..took])
    ensures exit == Running ==> took == |wakeups|
    ensures exit != Running ==> 0 < took && exit == ExitOf(wakeups[took - 1])
    ensures exit == Drained && wakeups[took - 1].cutAfter.None? ==>
              guest.pending == [] && Joined(chunks) == guest.written
    ensures forall i :: 0 <= i < took && ExitOf(wakeups[i]) != Running ==> exit != Running && i == took - 1
  {
    hide Joined, Wrote, Outcome, Underway, Backlog, Reads, Sized, ExitOf;
    hide Terminal.Consumed, Terminal.Valid, FirmwarePaintFilter.Valid;
    WroteNone(wakeups);
    NoBacklog(|guest.pending|, wakeups);
    var paint := new FirmwarePaintFilter();
    InStepAtFirst(guest, paint, console);
    log := console;
    for i := 0 to |wakeups|
      invariant guest.Valid() && paint.Valid() && fresh(paint)
      invariant InStep(guest, paint, console, log) && Sized(paint.chunks)
      invariant forall j :: 0 <= j < i ==> ExitOf(wakeups[j]) == Running
      invariant guest.written == old(guest.written) + Wrote(wakeups[..i])
      invariant |guest.pending| <= Backlog(|old(guest.pending)|, wakeups[..i])
    {
      WroteNext(wakeups, i);
      BacklogSnoc(|old(guest.pending)|, wakeups, i);
      Regroup(old(guest.written), Wrote(wakeups[..i]), wakeups[i].wrote);
      guest.Write(wakeups[i].wrote);
      log, exit := OnWakeup(guest, paint, console, log, wakeups[i]);
      if exit != Running {
        if guest.pending == [] { DryIsAll(guest); }
        return log, exit, paint.chunks, i + 1;
      }
    }
    assert wakeups[..|wakeups|] == wakeups;
    RunningIsUnderway(guest, paint, console, log);
    return log, Running, paint.chunks, |wakeups|;
  }

  lemma NoBacklog(unread: nat, ws: seq<Wakeup>)
    ensures Backlog(unread, ws[..0]) == unread
  {
  }
}
