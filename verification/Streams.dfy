/** Byte streams that arrive in read-sized pieces, and occurrences of one byte string in another. */
module Streams {

  type byte = x: int | 0 <= x < 256

  const NL: byte := 10
  const CR: byte := 13
  const ESC: byte := 27

  /** The bytes of ASCII text. */
  function Chars(text: string): (b: seq<byte>)
    requires forall c <- text :: c as int < 128
    ensures |b| == |text| && forall i :: 0 <= i < |text| ==> b[i] as char == text[i]
  {
    seq<byte>(|text|, i requires 0 <= i < |text| => assert text[i] in text; text[i] as byte)
  }

  lemma Regroup(x: seq<byte>, y: seq<byte>, z: seq<byte>)
    ensures x + y + z == x + (y + z)
  {
  }

  /** Everything that a list of reads delivered, in order. */
  ghost function Joined(chunks: seq<seq<byte>>): seq<byte> {
    if chunks == [] then [] else Joined(chunks[..|chunks| - 1]) + chunks[|chunks| - 1]
  }

  lemma JoinedSnoc(chunks: seq<seq<byte>>, data: seq<byte>)
    ensures Joined(chunks + [data]) == Joined(chunks) + data
  {
    assert (chunks + [data])[..|chunks|] == chunks;
  }

  lemma {:induction false} JoinedAppend(a: seq<seq<byte>>, b: seq<seq<byte>>)
    ensures Joined(a + b) == Joined(a) + Joined(b)
    decreases |b|
  {
    if b == [] {
      assert a + b == a;
    } else {
      var front, last := b[..|b| - 1], b[|b| - 1];
      assert a + b == (a + front) + [last];
      JoinedAppend(a, front);
      JoinedSnoc(a + front, last);
    }
  }

  lemma JoinedPrefix(chunks: seq<seq<byte>>, n: nat)
    requires n <= |chunks|
    ensures Joined(chunks[..n]) <= Joined(chunks)
  {
    assert chunks == chunks[..n] + chunks[n..];
    JoinedAppend(chunks[..n], chunks[n..]);
  }

  /** `m` occurs in `s` starting at offset `i`. */
  predicate OccursAt(s: seq<byte>, m: seq<byte>, i: int) {
    0 <= i && i + |m| <= |s| && s[i..i + |m|] == m
  }

  ghost predicate Occurs(s: seq<byte>, m: seq<byte>) {
    m <= s || (s != [] && Occurs(s[1..], m))
  }

  /** `e` is the offset just past the first occurrence of `m` in `s`: one ends there, and none before. */
  ghost predicate FirstEnd(s: seq<byte>, m: seq<byte>, e: int)
    requires m != []
  {
    |m| <= e <= |s| && s[e - |m|..e] == m && !Occurs(s[..e - 1], m)
  }

  lemma OccursAtExtends(s: seq<byte>, t: seq<byte>, m: seq<byte>, i: int)
    requires OccursAt(s, m, i)
    ensures OccursAt(s + t, m, i)
  {
    assert (s + t)[i..i + |m|] == s[i..i + |m|];
  }

  lemma OccursAtRestricts(s: seq<byte>, t: seq<byte>, m: seq<byte>, i: int)
    requires OccursAt(s + t, m, i) && i + |m| <= |s|
    ensures OccursAt(s, m, i)
  {
    assert (s + t)[i..i + |m|] == s[i..i + |m|];
  }

  lemma OccursAtInside(s: seq<byte>, m: seq<byte>, i: int)
    requires OccursAt(s, m, i)
    ensures 0 <= i <= |s| - |m|
  {
  }

  /** Dropping or adding bytes in front only shifts an occurrence. */
  lemma OccursAtShifts(p: seq<byte>, s: seq<byte>, m: seq<byte>, i: int)
    requires 0 <= i
    ensures OccursAt(p + s, m, |p| + i) <==> OccursAt(s, m, i)
  {
    if |p| + i + |m| <= |p + s| {
      assert (p + s)[|p| + i..|p| + i + |m|] == s[i..i + |m|];
    }
  }

  lemma OccursAtParts(s: seq<byte>, a: seq<byte>, b: seq<byte>, i: int)
    requires OccursAt(s, a + b, i)
    ensures OccursAt(s, a, i) && OccursAt(s, b, i + |a|)
  {
    var t := s[i..i + |a + b|];
    assert t[..|a|] == a && t[|a|..] == b;
    assert s[i..i + |a|] == t[..|a|] && s[i + |a|..i + |a| + |b|] == t[|a|..];
  }

  lemma {:induction false} OccursMeans(s: seq<byte>, m: seq<byte>)
    ensures Occurs(s, m) <==> exists i :: OccursAt(s, m, i)
  {
    if m <= s {
      assert OccursAt(s, m, 0);
    } else if s != [] {
      OccursMeans(s[1..], m);
      assert s == [s[0]] + s[1..];
      if Occurs(s[1..], m) {
        var i :| OccursAt(s[1..], m, i);
        OccursAtShifts([s[0]], s[1..], m, i);
        assert OccursAt(s, m, 1 + i);
      }
      if i :| OccursAt(s, m, i) {
        assert i != 0;
        OccursAtShifts([s[0]], s[1..], m, i - 1);
      }
    }
  }

  lemma FirstEndMeans(s: seq<byte>, m: seq<byte>, e: int)
    requires m != []
    ensures FirstEnd(s, m, e) <==> OccursAt(s, m, e - |m|) && forall i :: OccursAt(s, m, i) ==> e - |m| <= i
  {
    if OccursAt(s, m, e - |m|) {
      var t := s[..e - 1];
      OccursMeans(t, m);
      assert t + s[e - 1..] == s;
      forall i ensures OccursAt(t, m, i) <==> OccursAt(s, m, i) && i < e - |m| {
        if OccursAt(t, m, i) { OccursAtExtends(t, s[e - 1..], m, i); }
        if OccursAt(s, m, i) && i < e - |m| { OccursAtRestricts(t, s[e - 1..], m, i); }
      }
    }
  }

  lemma OccursStays(s: seq<byte>, t: seq<byte>, m: seq<byte>)
    requires Occurs(s, m)
    ensures Occurs(s + t, m)
  {
    OccursMeans(s, m);
    OccursMeans(s + t, m);
    var i :| OccursAt(s, m, i);
    OccursAtExtends(s, t, m, i);
  }

  lemma FirstEndOccurs(s: seq<byte>, m: seq<byte>, e: int)
    requires m != [] && FirstEnd(s, m, e)
    ensures Occurs(s, m)
  {
    OccursMeans(s, m);
    assert OccursAt(s, m, e - |m|);
  }

  lemma FirstEndUnique(s: seq<byte>, m: seq<byte>, e: int, f: int)
    requires m != [] && FirstEnd(s, m, e) && FirstEnd(s, m, f)
    ensures e == f
  {
    FirstEndMeans(s, m, e);
    FirstEndMeans(s, m, f);
  }
}
