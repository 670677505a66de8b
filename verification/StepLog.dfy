/** The writers that cut a step's output into lines, mask each line, and put it out: as a record, or indented
    for a person to read. */
module StepLog {
  import opened Streams
  import opened Lines
  import opened Masking
  import opened Encoding
  import opened Secrets

  const SPACE: byte := 32

  /** What a writer puts in front of a line, and whether it leaves empty lines out. */
  datatype Style = Style(prefix: seq<byte>, dropEmpty: bool)

  const RECORD: Style := Style([], true)
  const INDENTED: Style := Style([32, 32, 32, 32], false)

  /** One complete line of the output, as it is put out. */
  function Shown(keys: seq<seq<byte>>, line: seq<byte>, style: Style): seq<seq<byte>> {
    var l := TrimRight(line, CR);
    if style.dropEmpty && l == [] then [] else [style.prefix + Mask(keys, l)]
  }

  function Records(keys: seq<seq<byte>>, lines: seq<seq<byte>>, style: Style): seq<seq<byte>> {
    if lines == [] then []
    else Records(keys, lines[..|lines| - 1], style) + Shown(keys, lines[|lines| - 1], style)
  }

  /** Without any secrets there is no masker, and a line passes as it is. */
  method MaskLine(keys: seq<seq<byte>>, line: seq<byte>) returns (masked: seq<byte>)
    ensures masked == Mask(keys, line)
  {
    if keys == [] {
      NothingToHide(line);
      return line;
    }
    masked := Mask(keys, line);
  }

  class LineWriter {
    const keys: seq<seq<byte>>
    const style: Style
    var partial: seq<byte>
    ghost var stream: seq<byte>        // every byte written so far
    var records: seq<seq<byte>>        // every record emitted so far

    ghost predicate Valid()
      reads this
    {
      partial == Rest(stream) && records == Records(keys, Complete(stream), style)
    }

    constructor (keys: seq<seq<byte>>, style: Style)
      ensures Valid() && stream == [] && this.keys == keys && this.style == style
    {
      this.keys, this.style := keys, style;
      partial, stream, records := [], [], [];
      new;
      assert LineEnd([]) == 0;
    }

    method Write(b: seq<byte>) returns (n: nat)
      requires Valid()
      modifies this
      ensures Valid() && stream == old(stream) + b && n == |b|
    {
      hide LineEnd, Complete, Rest, Records;
      ghost var old', lines := stream, Complete(stream);
      SplitResumes(stream, b);
      partial := partial + b;
      ghost var whole := partial;
      assert [] + Complete(whole) == Complete(whole);
      ghost var done := [];
      assert lines + done == lines;
      while true
        invariant records == Records(keys, lines + done, style)
        invariant done + Complete(partial) == Complete(whole) && Rest(partial) == Rest(whole)
        invariant stream == old'
        decreases |partial|
      {
        var i := IndexNewline(partial);
        CutLine(partial, i);
        if i == |partial| { break; }
        var line := TrimRight(partial[..i], CR);
        ghost var l := partial[..i];
        RecordsSnoc(keys, lines + done, l, style);
        assert lines + (done + [l]) == lines + done + [l];
        assert done + ([l] + Complete(partial[i + 1..])) == done + [l] + Complete(partial[i + 1..]);
        done := done + [l];
        partial := partial[i + 1..];
        if !(style.dropEmpty && line == []) {
          var masked := MaskLine(keys, line);
          records := records + [style.prefix + masked];
        }
      }
      assert done + [] == done;
      stream := stream + b;
      n := |b|;
    }
  }

  method IndexNewline(s: seq<byte>) returns (i: nat)
    ensures i == LineEnd(s)
  {
    i := 0;
    while i < |s| && s[i] != NL
      invariant i <= |s| && NL !in s[..i]
    {
      i := i + 1;
    }
    LineEndIs(s, i);
  }

  lemma CutLine(s: seq<byte>, i: nat)
    requires i == LineEnd(s)
    ensures i <= |s|
    ensures i == |s| ==> Complete(s) == [] && Rest(s) == s
    ensures i < |s| ==> Complete(s) == [s[..i]] + Complete(s[i + 1..]) && Rest(s) == Rest(s[i + 1..])
  {
    hide LineEnd;
  }

  lemma RecordsSnoc(keys: seq<seq<byte>>, lines: seq<seq<byte>>, l: seq<byte>, style: Style)
    ensures Records(keys, lines + [l], style) == Records(keys, lines, style) + Shown(keys, l, style)
  {
    assert (lines + [l])[..|lines|] == lines;
  }

  lemma {:induction false} RecordsAppend(keys: seq<seq<byte>>, a: seq<seq<byte>>, b: seq<seq<byte>>, style: Style)
    ensures Records(keys, a + b, style) == Records(keys, a, style) + Records(keys, b, style)
    decreases |b|
  {
    hide Shown;
    if b == [] {
      assert a + b == a;
    } else {
      var front, last := b[..|b| - 1], b[|b| - 1];
      assert a + b == a + front + [last];
      RecordsAppend(keys, a, front, style);
      RecordsSnoc(keys, a + front, last, style);
    }
  }

  lemma {:induction false} TrimTakes(t: seq<byte>, ends: nat, line: seq<byte>)
    requires (t == [] || t[|t| - 1] != CR) && line == t + Repeat(CR, ends)
    ensures TrimRight(line, CR) == t
    decreases ends
  {
    if ends == 0 {
      assert line == t;
    } else {
      assert line[..|line| - 1] == t + Repeat(CR, ends - 1);
      TrimTakes(t, ends - 1, line[..|line| - 1]);
    }
  }

  /** The lines are put out one by one, each without the carriage returns at its end and behind the prefix; only an
      empty one may be left out, and only by the writer of records. */
  lemma EachLineIsShown(keys: seq<seq<byte>>, before: seq<seq<byte>>, t: seq<byte>, ends: nat, style: Style)
    requires t == [] || t[|t| - 1] != CR
    ensures Records(keys, before + [t + Repeat(CR, ends)], style)
         == Records(keys, before, style) + (if t == [] && style.dropEmpty then [] else [style.prefix + Mask(keys, t)])
    ensures Records(keys, [], style) == [] && RECORD == Style([], true) && INDENTED == Style([32, 32, 32, 32], false)
  {
    hide Mask;
    RecordsSnoc(keys, before, t + Repeat(CR, ends), style);
    TrimTakes(t, ends, t + Repeat(CR, ends));
  }

  /** However a step's output is cut into writes, what is put out depends only on the whole of it. */
  method Emitted(keys: seq<seq<byte>>, style: Style, chunks: seq<seq<byte>>) returns (records: seq<seq<byte>>)
    ensures records == Records(keys, Complete(Joined(chunks)), style)
  {
    var w := new LineWriter(keys, style);
    for i := 0 to |chunks|
      invariant fresh(w) && w.Valid() && w.keys == keys && w.style == style
      invariant w.stream == Joined(chunks[..i])
    {
      var _ := w.Write(chunks[i]);
      assert chunks[..i + 1] == chunks[..i] + [chunks[i]];
      JoinedSnoc(chunks[..i], chunks[i]);
    }
    assert chunks[..|chunks|] == chunks;
    records := w.records;
  }

  /** Every record is a masked line free of newlines, behind the prefix. */
  lemma {:induction false} RecordsAreMasked(keys: seq<seq<byte>>, lines: seq<seq<byte>>, style: Style, i: nat)
    returns (line: seq<byte>)
    requires i < |Records(keys, lines, style)| && AreLines(lines)
    ensures Records(keys, lines, style)[i] == style.prefix + Mask(keys, line) && NL !in line
    decreases |lines|
  {
    hide Mask, TrimRight;
    var front, last := lines[..|lines| - 1], lines[|lines| - 1];
    if i < |Records(keys, front, style)| {
      line := RecordsAreMasked(keys, front, style, i);
    } else {
      assert last in lines;
      line := TrimRight(last, CR);
      assert line == last[..|line|];
    }
  }

  lemma {:induction false} MaskAddsNoNewline(keys: seq<seq<byte>>, s: seq<byte>)
    requires NL !in s
    ensures NL !in Mask(keys, s)
    decreases |s|
  {
    hide Matching;
    if s != [] {
      match Matching(keys, s)
      case Some(k) => MaskAddsNoNewline(keys, s[|k|..]);
      case None => MaskAddsNoNewline(keys, s[1..]);
    }
  }

  // ----- what stays hidden

  /** `v` is in no record of any output, whatever other secrets there are. */
  ghost predicate HiddenIn(style: Style, v: seq<byte>) {
    forall secrets: seq<seq<byte>>, keys: seq<seq<byte>>, output: seq<byte> ::
      v in secrets && MaskerFor(keys, secrets) ==> NowhereIn(Records(keys, Complete(output), style), v)
  }

  ghost predicate NowhereIn(records: seq<seq<byte>>, v: seq<byte>) {
    forall i :: 0 <= i < |records| ==> !Occurs(records[i], v)
  }

  lemma SpacesInFront(prefix: seq<byte>, s: seq<byte>, v: seq<byte>)
    requires forall i :: 0 <= i < |prefix| ==> prefix[i] == SPACE
    requires v != [] && v[0] != SPACE && !Occurs(s, v)
    ensures !Occurs(prefix + s, v)
    decreases |prefix|
  {
    if prefix == [] {
      assert prefix + s == s;
    } else {
      SpacesInFront(prefix[1..], s, v);
      assert (prefix + s)[1..] == prefix[1..] + s;
    }
  }

  lemma OccursNeeds(s: seq<byte>, v: seq<byte>, b: byte)
    requires b in v && b !in s
    ensures !Occurs(s, v)
  {
    hide Occurs;
    OccursMeans(s, v);
    if i :| OccursAt(s, v, i) { ByteOfOccurrence(s, v, i, b); }
  }

  lemma ByteOfOccurrence(s: seq<byte>, v: seq<byte>, i: int, b: byte)
    requires OccursAt(s, v, i) && b in v
    ensures b in s
  {
    var k :| 0 <= k < |v| && v[k] == b;
    assert s[i + k] == s[i..i + |v|][k];
  }

  /** The two styles: a prefix of spaces at most. */
  ghost predicate Plain(style: Style) { forall i :: 0 <= i < |style.prefix| ==> style.prefix[i] == SPACE }

  /** Safe and not begun by the prefix, or spanning lines. */
  ghost predicate StaysOut(style: Style, v: seq<byte>)
    requires v != []
  {
    (Safe(v) && (style.prefix == [] || v[0] != SPACE)) || NL in v
  }

  /** No record of any output, however it was cut, holds the base64 of a secret, padded or not; nor a safe secret
      that the prefix cannot begin; nor one that spans lines. */
  lemma RecordsHideSecrets(secrets: seq<seq<byte>>, keys: seq<seq<byte>>, v: seq<byte>, output: seq<byte>, style: Style)
    requires v in secrets && v != [] && MaskerFor(keys, secrets) && Plain(style)
    ensures var rs := Records(keys, Complete(output), style);
            && NowhereIn(rs, Base64(v)) && NowhereIn(rs, Unpadded(v))
            && (StaysOut(style, v) ==> NowhereIn(rs, v))
  {
    hide Base64, TrimRight, Mask, Occurs, Safe, Records, Complete, LineEnd, MaskerFor;
    var rs := Records(keys, Complete(output), style);
    SplitIntoLines(output);
    FormsAreText(v);
    forall i | 0 <= i < |rs|
      ensures !Occurs(rs[i], Base64(v)) && !Occurs(rs[i], Unpadded(v))
      ensures StaysOut(style, v) ==> !Occurs(rs[i], v)
    {
      var line := RecordsAreMasked(keys, Complete(output), style, i);
      LineHidesSecret(secrets, keys, v, line, style);
    }
  }

  lemma LineHidesSecret(secrets: seq<seq<byte>>, keys: seq<seq<byte>>, v: seq<byte>, line: seq<byte>, style: Style)
    requires v in secrets && v != [] && MaskerFor(keys, secrets) && Plain(style) && NL !in line
    ensures var r := style.prefix + Mask(keys, line);
            && !Occurs(r, Base64(v)) && !Occurs(r, Unpadded(v))
            && (StaysOut(style, v) ==> !Occurs(r, v))
  {
    hide Base64, TrimRight, Mask, Occurs, Safe, MaskerFor;
    var m := Mask(keys, line);
    SecretsAreHidden(secrets, keys, v, line);
    FormsAreText(v);
    TextStartsWithNoSpace(Base64(v));
    TextStartsWithNoSpace(Unpadded(v));
    SpacesInFront(style.prefix, m, Base64(v));
    SpacesInFront(style.prefix, m, Unpadded(v));
    MaskAddsNoNewline(keys, line);
    if NL in v {
      OccursNeeds(style.prefix + m, v, NL);
    } else if Safe(v) && v[0] != SPACE {
      SpacesInFront(style.prefix, m, v);
    } else if style.prefix == [] {
      assert [] + m == m;
    }
  }

  lemma TextStartsWithNoSpace(s: seq<byte>)
    requires s != [] && forall b <- s :: IsDigit(b) || b == PAD
    ensures s[0] != SPACE
  {
    assert s[0] in s;
  }

  // ----- and what does not

  lemma OneLine(line: seq<byte>)
    requires NL !in line
    ensures Complete(line + [NL]) == [line]
  {
    hide LineEnd, Complete, Rest;
    assert AreLines([line]) && NL !in [];
    SplitIsUnique([line], []);
    UnsplitCons(line, []);
    assert Unsplit([line]) + [] == line + [NL];
  }

  lemma RecordOf(keys: seq<seq<byte>>, line: seq<byte>, style: Style)
    requires NL !in line && line != [] && line[|line| - 1] != CR
    ensures Records(keys, Complete(line + [NL]), style) == [style.prefix + Mask(keys, line)]
  {
    hide Mask, Complete, LineEnd;
    OneLine(line);
    assert [line][..0] == [];
  }

  lemma LeaksWith(style: Style, v: seq<byte>, secrets: seq<seq<byte>>, line: seq<byte>)
    requires v in secrets && NL !in line && line != [] && line[|line| - 1] != CR
    requires Occurs(style.prefix + Mask(Keys(secrets), line), v)
    ensures !HiddenIn(style, v)
  {
    hide Mask, Keys, Occurs, Records, Complete;
    RecordOf(Keys(secrets), line, style);
    assert MaskerFor(Keys(secrets), secrets);
    var rs := Records(Keys(secrets), Complete(line + [NL]), style);
    assert Occurs(rs[0], v);
    assert !NowhereIn(rs, v);
  }

  lemma UnsafeRecordLeaks(style: Style, v: seq<byte>, z: byte)
    requires v != [] && !Safe(v) && NL !in v && Foreign(z) && z !in v
    ensures !HiddenIn(style, v)
  {
    hide Mask, Keys, Occurs, HiddenIn, Safe;
    var w, line := UnsafeSecretLeaks(v, z);
    var m := Mask(Keys([v, w]), line);
    OccursBehind(style.prefix, m, v);
    assert [v, w][0] == v;
    LeaksWith(style, v, [v, w], line);
  }

  lemma {:induction false} OccursBehind(front: seq<byte>, s: seq<byte>, v: seq<byte>)
    requires Occurs(s, v)
    ensures Occurs(front + s, v)
    decreases |front|
  {
    if front == [] {
      assert front + s == s;
    } else {
      OccursBehind(front[1..], s, v);
      assert (front + s)[1..] == front[1..] + s;
    }
  }

  /** A secret that starts with a space is completed by the indentation. */
  lemma SpacedSecretLeaks(v: seq<byte>, z: byte)
    requires v != [] && v[0] == SPACE && NL !in v && Foreign(z) && z !in v
    ensures !HiddenIn(INDENTED, v)
  {
    hide Mask, Keys, Occurs, HiddenIn, LongBut;
    var keys, rest := Keys([v]), v[1..];
    OneSecretIsLong(v, z);
    LastPasses(keys, z, |v|, rest);
    var three: seq<byte> := [32, 32, 32];
    assert INDENTED.prefix + (rest + [z]) == three + v + [z];
    OccursInside(three, v, [z]);
    assert [v][0] == v;
    LeaksWith(INDENTED, v, [v], rest + [z]);
  }

  /** Exactly the secrets that are safe, or span lines, stay out of every record. */
  lemma RecordHidesIff(v: seq<byte>, z: byte)
    requires v != [] && Foreign(z) && z !in v
    ensures HiddenIn(RECORD, v) <==> Safe(v) || NL in v
  {
    hide Safe, HiddenIn;
    if Safe(v) || NL in v { RecordsHide(RECORD, v); } else { UnsafeRecordLeaks(RECORD, v, z); }
  }

  /** Behind the indentation, a secret must besides not start with a space. */
  lemma IndentedHidesIff(v: seq<byte>, z: byte)
    requires v != [] && Foreign(z) && z !in v
    ensures HiddenIn(INDENTED, v) <==> (Safe(v) && v[0] != SPACE) || NL in v
  {
    hide Safe, HiddenIn;
    if (Safe(v) && v[0] != SPACE) || NL in v {
      RecordsHide(INDENTED, v);
    } else if v[0] == SPACE {
      SpacedSecretLeaks(v, z);
    } else {
      UnsafeRecordLeaks(INDENTED, v, z);
    }
  }

  lemma RecordsHide(style: Style, v: seq<byte>)
    requires v != [] && Plain(style) && StaysOut(style, v)
    ensures HiddenIn(style, v)
  {
    hide Safe, Records, Complete, NowhereIn, MaskerFor;
    forall secrets: seq<seq<byte>>, keys: seq<seq<byte>>, output: seq<byte> | v in secrets && MaskerFor(keys, secrets)
      ensures NowhereIn(Records(keys, Complete(output), style), v)
    {
      RecordsHideSecrets(secrets, keys, v, output, style);
    }
  }

  /** The secret ` a` and the output `a`: the indented line reads it, although it is safe. */
  lemma IndentationLeaks(v: seq<byte>, line: seq<byte>)
    requires v == [SPACE, 97] && line == [97]
    ensures Safe(v) && Records(Keys([v]), Complete(line + [NL]), INDENTED) == [INDENTED.prefix + line]
    ensures Occurs(INDENTED.prefix + line, v)
  {
    hide Keys, Mask, Complete, Occurs, Records, LongBut, Safe;
    StarFreeIsSafe(v);
    OneSecretIsLong(v, 0);
    ShorterPasses(Keys([v]), 0, 2, line);
    RecordOf(Keys([v]), line, INDENTED);
    var three: seq<byte> := [32, 32, 32];
    assert INDENTED.prefix + line == three + v + [];
    OccursInside(three, v, []);
  }

  lemma ShorterPasses(keys: seq<seq<byte>>, z: byte, n: nat, line: seq<byte>)
    requires LongBut(keys, z, n) && |line| == 1 < n
    ensures Mask(keys, line) == line
  {
    hide Matching;
    var m := Matching(keys, line);
    assert line == [line[0]] + [] && line[1..] == [];
  }
}
