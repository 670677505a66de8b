/** Whole lines of a byte stream that arrives in pieces. */
module Lines {
  import opened Streams

  /** Offset of the first newline, or the length if there is none. */
  function LineEnd(s: seq<byte>): (i: nat)
    ensures i <= |s|
    ensures NL !in s[..i]
    ensures i < |s| ==> s[i] == NL
  {
    if s == [] || s[0] == NL then 0
    else
      assert s[..1 + LineEnd(s[1..])] == [s[0]] + s[1..][..LineEnd(s[1..])];
      1 + LineEnd(s[1..])
  }

  /** The lines of `s` that are complete, without their newlines, and what follows the last newline. */
  function Complete(s: seq<byte>): seq<seq<byte>>
    decreases |s|
  {
    if LineEnd(s) == |s| then [] else [s[..LineEnd(s)]] + Complete(s[LineEnd(s) + 1..])
  }

  function Rest(s: seq<byte>): (r: seq<byte>)
    ensures |r| <= |s|
    decreases |s|
  {
    if LineEnd(s) == |s| then s else Rest(s[LineEnd(s) + 1..])
  }

  function Unsplit(lines: seq<seq<byte>>): seq<byte> {
    if lines == [] then [] else lines[0] + [NL] + Unsplit(lines[1..])
  }

  ghost predicate AreLines(lines: seq<seq<byte>>) { forall l <- lines :: NL !in l }

  lemma {:induction false} LineEndIs(s: seq<byte>, i: nat)
    requires i <= |s| && NL !in s[..i] && (i < |s| ==> s[i] == NL)
    ensures LineEnd(s) == i
    decreases |s|
  {
    if s != [] {
      assert i > 0 ==> s[..i][0] == s[0] && s[1..][..i - 1] == s[..i][1..];
      if s[0] != NL { LineEndIs(s[1..], i - 1); }
    }
  }

  /** The split loses nothing. */
  lemma {:induction false} SplitJoins(s: seq<byte>)
    ensures Unsplit(Complete(s)) + Rest(s) == s
    decreases |s|
  {
    var i := LineEnd(s);
    if i == |s| {
      assert [] + s == s;
    } else {
      hide LineEnd, Complete, Rest, Unsplit;
      var l, more := s[..i], s[i + 1..];
      SplitJoins(more);
      SplitStep(s);
      UnsplitCons(l, Complete(more));
      CutAtNewline(s, i);
      Regroup(l + [NL], Unsplit(Complete(more)), Rest(more));
    }
  }

  lemma CutAtNewline(s: seq<byte>, i: nat)
    requires i < |s| && s[i] == NL
    ensures s == s[..i] + [NL] + s[i + 1..]
  {
  }

  lemma {:induction false} SplitIntoLines(s: seq<byte>)
    ensures AreLines(Complete(s)) && NL !in Rest(s)
    decreases |s|
  {
    hide LineEnd;
    var i := LineEnd(s);
    if i == |s| {
      assert s[..i] == s;
    } else {
      hide Complete, Rest;
      SplitStep(s);
      SplitIntoLines(s[i + 1..]);
    }
  }

  lemma SplitStep(s: seq<byte>)
    requires LineEnd(s) < |s|
    ensures var i := LineEnd(s);
            && NL !in s[..i] && s[i] == NL
            && Complete(s) == [s[..i]] + Complete(s[i + 1..]) && Rest(s) == Rest(s[i + 1..])
  {
    hide LineEnd;
  }

  lemma UnsplitCons(l: seq<byte>, lines: seq<seq<byte>>)
    ensures Unsplit([l] + lines) == l + [NL] + Unsplit(lines)
  {
    assert ([l] + lines)[1..] == lines;
  }

  /** And there is only one way to split. */
  lemma {:induction false} SplitIsUnique(lines: seq<seq<byte>>, rest: seq<byte>)
    requires AreLines(lines) && NL !in rest
    ensures Complete(Unsplit(lines) + rest) == lines && Rest(Unsplit(lines) + rest) == rest
    decreases |lines|
  {
    hide LineEnd;
    var s := Unsplit(lines) + rest;
    if lines == [] {
      assert s == rest && s[..|s|] == s;
      LineEndIs(s, |s|);
    } else {
      var l, more := lines[0], Unsplit(lines[1..]) + rest;
      assert s == l + [NL] + more;
      assert s[..|l|] == l && s[|l| + 1..] == more;
      assert l in lines;
      LineEndIs(s, |l|);
      SplitIsUnique(lines[1..], rest);
      assert lines == [l] + lines[1..];
    }
  }

  /** Splitting may stop anywhere and resume with the bytes behind the last newline. */
  lemma {:induction false} SplitResumes(x: seq<byte>, y: seq<byte>)
    ensures Complete(x + y) == Complete(x) + Complete(Rest(x) + y)
    ensures Rest(x + y) == Rest(Rest(x) + y)
    decreases |x|
  {
    hide LineEnd;
    var i := LineEnd(x);
    if i < |x| {
      assert (x + y)[..i] == x[..i] && (x + y)[i + 1..] == x[i + 1..] + y;
      LineEndIs(x + y, i);
      SplitResumes(x[i + 1..], y);
    } else {
      assert [] + Complete(x + y) == Complete(x + y);
    }
  }
}
