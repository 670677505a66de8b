/** The raw log stream: a reader that follows a growing file hands out whole lines, while a writer
    appends to it and, at the end, a status says that nothing more will come. */
module TailFollow {
  import opened Streams
  import opened Wrappers
  import opened Lines

  const CHUNK: nat := 32768

  // ----- the line reader

  class LineReader {
    var buf: seq<byte>
    var pos: nat                       // how much of the file has been read
    ghost var handed: seq<seq<byte>>   // the lines handed out so far

    /** Lines handed out, with their newlines, and then the buffer, are the bytes read. */
    ghost predicate Valid(file: seq<byte>)
      reads this
    {
      pos <= |file| && AreLines(handed) && Unsplit(handed) + buf == file[..pos]
    }

    constructor ()
      ensures buf == [] && pos == 0 && handed == []
    {
      buf, pos, handed := [], 0, [];
    }

    /** The next whole line of the file as it stands, however it is read; None when there is none. */
    method Next(file: seq<byte>) returns (line: Option<seq<byte>>)
      requires Valid(file)
      modifies this
      ensures Valid(file)
      ensures line.None? ==> handed == old(handed) && pos == |file| && NL !in buf && handed == Complete(file)
      ensures line.Some? ==> handed == old(handed) + [line.value] && handed <= Complete(file)
    {
      hide LineEnd, Complete, Rest;
      while true
        invariant Valid(file) && handed == old(handed)
        decreases |file| - pos
      {
        var i := FindNewline(buf);
        if i < |buf| {
          var l := buf[..i];
          HandOut(handed, buf, i);
          HandedAreComplete(handed + [l], buf[i + 1..], file, pos);
          handed, buf := handed + [l], buf[i + 1..];
          return Some(l);
        }
        if pos == |file| {
          HandedAreComplete(handed, buf, file, pos);
          assert buf[..|buf|] == buf;
          SplitIsUnique(handed, buf);
          assert file[..pos] == file;
          return None;
        }
        var n: int :| 0 < n <= CHUNK && n <= |file| - pos;
        assert file[..pos + n] == file[..pos] + file[pos..pos + n];
        buf := buf + file[pos..pos + n];
        pos := pos + n;
      }
    }
  }

  method FindNewline(buf: seq<byte>) returns (i: nat)
    ensures i <= |buf| && NL !in buf[..i] && (i < |buf| ==> buf[i] == NL)
  {
    i := 0;
    while i < |buf|
      invariant i <= |buf| && NL !in buf[..i]
    {
      if buf[i] == NL { return; }
      i := i + 1;
    }
  }

  lemma {:induction false} UnsplitSnoc(lines: seq<seq<byte>>, l: seq<byte>)
    ensures Unsplit(lines + [l]) == Unsplit(lines) + (l + [NL])
    decreases |lines|
  {
    if lines == [] {
      assert (lines + [l])[1..] == [];
    } else {
      assert (lines + [l])[1..] == lines[1..] + [l];
      UnsplitSnoc(lines[1..], l);
    }
  }

  lemma HandOut(handed: seq<seq<byte>>, buf: seq<byte>, i: nat)
    requires i < |buf| && buf[i] == NL && NL !in buf[..i] && AreLines(handed)
    ensures AreLines(handed + [buf[..i]])
    ensures Unsplit(handed + [buf[..i]]) + buf[i + 1..] == Unsplit(handed) + buf
  {
    UnsplitSnoc(handed, buf[..i]);
    assert buf == buf[..i] + [NL] + buf[i + 1..];
  }

  /** Whatever has been handed out is a prefix of the lines of the file, however far it is read. */
  lemma HandedAreComplete(handed: seq<seq<byte>>, buf: seq<byte>, file: seq<byte>, pos: nat)
    requires pos <= |file| && AreLines(handed) && Unsplit(handed) + buf == file[..pos]
    ensures handed <= Complete(file)
  {
    hide LineEnd, Complete, Rest;
    var tail := buf + file[pos..];
    assert file == Unsplit(handed) + tail;
    SplitIsUnique(handed, []);
    assert Unsplit(handed) + [] == Unsplit(handed);
    SplitResumes(Unsplit(handed), tail);
  }

  // ----- the follow loop and its writer, step by step

  /** Where the loop stands: in a call of the reader, the usual one or the extra one after a finished status
      was seen; about to ask for the status; or past its normal end. */
  datatype At = Scanning(last: bool) | Asking | Closed

  datatype State = State(
    file: seq<byte>, finished: bool,             // the writer's side
    pos: nat, buf: seq<byte>, at: At, sent: seq<seq<byte>>)

  const START := State([], false, 0, [], Scanning(false), [])

  datatype Step = Append(data: seq<byte>) | Finish | ReadChunk(n: nat) | HandOver | EndOfFile | Ask

  /** The log as a writer of whole lines leaves it. */
  predicate EndsClean(file: seq<byte>) { file == [] || file[|file| - 1] == NL }

  predicate Enabled(s: State, e: Step) {
    match e
    case Append(_) => !s.finished
    case Finish => !s.finished
    case ReadChunk(n) => s.at.Scanning? && NL !in s.buf && 0 < n <= CHUNK && s.pos + n <= |s.file|
    case HandOver => s.at.Scanning? && NL in s.buf
    case EndOfFile => s.at.Scanning? && NL !in s.buf && s.pos == |s.file|
    case Ask => s.at == Asking
  }

  function Do(s: State, e: Step): State
    requires Enabled(s, e)
  {
    match e
    case Append(data) => s.(file := s.file + data)
    case Finish => s.(finished := true)
    case ReadChunk(n) => s.(buf := s.buf + s.file[s.pos..s.pos + n], pos := s.pos + n)
    case HandOver =>
      var i := LineEnd(s.buf);
      NewlineInside(s.buf);
      s.(sent := s.sent + [s.buf[..i]], buf := s.buf[i + 1..], at := Scanning(false))
    case EndOfFile => s.(at := if s.at.last then Closed else Asking)
    case Ask => s.(at := Scanning(s.finished))
  }

  lemma NewlineInside(s: seq<byte>)
    requires NL in s
    ensures LineEnd(s) < |s|
  {
    assert s[..|s|] == s;
  }

  ghost predicate Inv(s: State) {
    && s.pos <= |s.file| && AreLines(s.sent) && Unsplit(s.sent) + s.buf == s.file[..s.pos]
    && (s.at == Scanning(true) ==> s.finished)
    && (s.at == Closed ==> s.finished && s.pos == |s.file| && NL !in s.buf)
  }

  lemma StepKeeps(s: State, e: Step)
    requires Inv(s) && Enabled(s, e)
    ensures Inv(Do(s, e))
    ensures s.sent <= Do(s, e).sent
  {
    hide LineEnd;
    match e
    case Append(data) => assert (s.file + data)[..s.pos] == s.file[..s.pos];
    case ReadChunk(n) => assert s.file[..s.pos + n] == s.file[..s.pos] + s.file[s.pos..s.pos + n];
    case HandOver =>
      NewlineInside(s.buf);
      LineEndMeans(s.buf);
      HandOut(s.sent, s.buf, LineEnd(s.buf));
    case _ =>
  }

  lemma LineEndMeans(s: seq<byte>)
    requires NL in s
    ensures var i := LineEnd(s); i < |s| && NL !in s[..i] && s[i] == NL
  {
    NewlineInside(s);
  }

  function After(steps: seq<Step>): Option<State> {
    if steps == [] then Some(START)
    else match After(steps[..|steps| - 1])
      case None => None
      case Some(s) => if Enabled(s, steps[|steps| - 1]) then Some(Do(s, steps[|steps| - 1])) else None
  }

  lemma {:induction false} ReachableInv(steps: seq<Step>)
    requires After(steps).Some?
    ensures Inv(After(steps).value)
    decreases |steps|
  {
    hide Enabled, Do;
    if steps != [] {
      ReachableInv(steps[..|steps| - 1]);
      StepKeeps(After(steps[..|steps| - 1]).value, steps[|steps| - 1]);
    }
  }

  /** In every interleaving of the writer, the status change and the loop: at any time what was sent is a
      prefix of the log's whole lines, so never part of a line; and once the stream is closed normally, every
      whole line has been sent, once and in order, which is the whole log exactly if that ends with a newline. */
  lemma EveryLineOnce(steps: seq<Step>)
    requires After(steps).Some?
    ensures var s := After(steps).value;
            && s.sent <= Complete(s.file)
            && (s.at == Closed ==> s.sent == Complete(s.file) && (Unsplit(s.sent) == s.file <==> EndsClean(s.file)))
  {
    hide LineEnd, Complete, Rest;
    ReachableInv(steps);
    var s := After(steps).value;
    HandedAreComplete(s.sent, s.buf, s.file, s.pos);
    if s.at == Closed {
      assert s.file[..s.pos] == s.file;
      SplitIsUnique(s.sent, s.buf);
      AllSentIffClean(s.sent, s.buf, s.file);
    }
  }

  lemma CleanMeansNoRest(lines: seq<seq<byte>>, rest: seq<byte>, file: seq<byte>)
    requires Unsplit(lines) + rest == file && NL !in rest && EndsClean(file)
    ensures rest == [] && Unsplit(lines) == file
  {
    if rest == [] {
      assert Unsplit(lines) + [] == Unsplit(lines);
    } else {
      LastIsInRest(Unsplit(lines), rest);
    }
  }

  lemma LastIsInRest(front: seq<byte>, rest: seq<byte>)
    requires rest != []
    ensures front + rest != [] && (front + rest)[|front + rest| - 1] in rest
  {
    assert (front + rest)[|front + rest| - 1] == rest[|rest| - 1];
  }

  lemma AllSentIffClean(sent: seq<seq<byte>>, buf: seq<byte>, file: seq<byte>)
    requires AreLines(sent) && NL !in buf && Unsplit(sent) + buf == file
    ensures Unsplit(sent) == file <==> EndsClean(file)
  {
    if EndsClean(file) {
      CleanMeansNoRest(sent, buf, file);
    } else {
      UnsplitEndsClean(sent);
    }
  }

  lemma {:induction false} UnsplitEndsClean(lines: seq<seq<byte>>)
    ensures EndsClean(Unsplit(lines))
    decreases |lines|
  {
    if lines != [] {
      UnsplitEndsClean(lines[1..]);
      var s := Unsplit(lines);
      assert s == lines[0] + [NL] + Unsplit(lines[1..]);
    }
  }

  /** A log without its last newline: the stream closes with nothing sent. */
  lemma UnterminatedLineIsNeverSent(b: byte)
    requires b != NL
    ensures After([Append([b]), Finish, ReadChunk(1), EndOfFile, Ask, EndOfFile])
         == Some(State([b], true, 1, [b], Closed, []))
  {
    hide After, LineEnd;
    AfterNone();
    var r := [Append([b])];
    assert [] + r == r && [] + [b] == [b] && [b][0..1] == [b];
    AfterOne([], START, Append([b]));
    AfterOne(r, State([b], false, 0, [], Scanning(false), []), Finish);
    AfterOne(r + [Finish], State([b], true, 0, [], Scanning(false), []), ReadChunk(1));
    r := r + [Finish] + [ReadChunk(1)];
    AfterOne(r, State([b], true, 1, [b], Scanning(false), []), EndOfFile);
    AfterOne(r + [EndOfFile], State([b], true, 1, [b], Asking, []), Ask);
    AfterOne(r + [EndOfFile] + [Ask], State([b], true, 1, [b], Scanning(true), []), EndOfFile);
    assert r + [EndOfFile] + [Ask] + [EndOfFile] == [Append([b]), Finish, ReadChunk(1), EndOfFile, Ask, EndOfFile];
  }

  lemma AfterNone()
    ensures After([]) == Some(START)
  {
  }

  lemma AfterOne(steps: seq<Step>, s: State, e: Step)
    ensures After(steps) == Some(s) && Enabled(s, e) ==> After(steps + [e]) == Some(Do(s, e))
  {
    assert (steps + [e])[..|steps|] == steps;
  }

  /** How much the loop has still to do once nothing is appended any more. */
  function Distance(s: State): nat {
    (if s.pos <= |s.file| then |s.file| - s.pos else 0) * 8 + |s.buf| * 4
    + match s.at case Scanning(last) => (if last then 1 else 3) case Asking => 2 case Closed => 0
  }

  lemma LoopMoves(s: State) returns (e: Step)
    requires Inv(s) && s.finished && s.at != Closed
    ensures Enabled(s, e)
    ensures forall f :: Enabled(s, f) ==> Distance(Do(s, f)) < Distance(s) && Do(s, f).finished
  {
    e := if s.at == Asking then Ask
         else if NL in s.buf then HandOver
         else if s.pos == |s.file| then EndOfFile
         else ReadChunk(1);
  }

  lemma {:induction false} FinishedRun(steps: seq<Step>, more: seq<Step>)
    requires After(steps).Some? && After(steps).value.finished && After(steps + more).Some?
    ensures var s, t := After(steps).value, After(steps + more).value;
            t.finished && t.file == s.file && |more| + Distance(t) <= Distance(s)
    decreases |more|
  {
    hide Enabled, Do, Distance;
    if more == [] {
      assert steps + more == steps;
    } else {
      var front, e := more[..|more| - 1], more[|more| - 1];
      assert steps + more == (steps + front) + [e];
      assert (steps + more)[..|steps + more| - 1] == steps + front;
      FinishedRun(steps, front);
      FinishedStep(After(steps + front).value, e, steps + front);
    }
  }

  lemma FinishedStep(s: State, e: Step, steps: seq<Step>)
    requires After(steps) == Some(s) && s.finished && Enabled(s, e)
    ensures Do(s, e).finished && Do(s, e).file == s.file && Distance(Do(s, e)) < Distance(s)
  {
    ReachableInv(steps);
    if s.at != Closed { var _ := LoopMoves(s); }
  }

  /** Whatever ran before the status was set: from then on the loop takes a bounded number of steps over a log
      that no longer changes, and it is never stuck short of its normal close. */
  lemma FollowEnds(steps: seq<Step>, more: seq<Step>)
    requires After(steps).Some? && After(steps).value.finished && After(steps + more).Some?
    ensures var s, t := After(steps).value, After(steps + more).value;
            && t.file == s.file && |more| <= 8 * |s.file| + 4 * |s.buf| + 3
            && (t.at == Closed || exists e :: After(steps + more + [e]).Some?)
  {
    hide Enabled, Do;
    FinishedRun(steps, more);
    ReachableInv(steps + more);
    var t := After(steps + more).value;
    if t.at != Closed {
      var e := LoopMoves(t);
      AfterOne(steps + more, t, e);
    }
  }
}
