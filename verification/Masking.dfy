/** The replacer that takes secrets out of log lines, and which keys it can be relied on to hide. */
module Masking {
  import opened Streams
  import opened Wrappers

  const STAR: byte := 42
  const STARS: seq<byte> := [42, 42, 42]

  // ----- the replacer: at each position the first key, in the given order, that matches

  function Matching(keys: seq<seq<byte>>, s: seq<byte>): (m: Option<seq<byte>>)
    ensures m.Some? ==> m.value in keys && m.value != [] && m.value <= s
    ensures m.None? ==> forall k <- keys :: k == [] || !(k <= s)
  {
    if keys == [] then None
    else if keys[0] != [] && keys[0] <= s then Some(keys[0])
    else
      assert forall k <- keys :: k == keys[0] || k in keys[1..];
      Matching(keys[1..], s)
  }

  function Mask(keys: seq<seq<byte>>, s: seq<byte>): seq<byte>
    decreases |s|
  {
    if s == [] then []
    else match Matching(keys, s)
      case Some(k) => STARS + Mask(keys, s[|k|..])
      case None => [s[0]] + Mask(keys, s[1..])
  }

  /** The key that is taken is the first in the list that is not empty and matches. */
  lemma {:induction false} MatchingMeans(keys: seq<seq<byte>>, s: seq<byte>, k: seq<byte>)
    ensures Matching(keys, s) == Some(k) <==>
              exists i :: 0 <= i < |keys| && keys[i] == k && k != [] && k <= s
                          && forall j :: 0 <= j < i ==> keys[j] == [] || !(keys[j] <= s)
    ensures Matching(keys, s) == None <==> forall i :: 0 <= i < |keys| ==> keys[i] == [] || !(keys[i] <= s)
    decreases |keys|
  {
    if keys != [] {
      var rest := keys[1..];
      MatchingMeans(rest, s, k);
      assert forall i :: 0 <= i < |rest| ==> rest[i] == keys[i + 1];
      assert forall i :: 0 < i < |keys| ==> keys[i] == rest[i - 1];
      if i :| 0 <= i < |rest| && rest[i] == k && k != [] && k <= s && (forall j :: 0 <= j < i ==> rest[j] == [] || !(rest[j] <= s)) {
        if keys[0] == [] || !(keys[0] <= s) { assert keys[i + 1] == k; }
      }
    }
  }

  /** A line read as keys to hide and bytes to keep. */
  datatype Part = Hidden(key: seq<byte>) | Kept(b: byte)

  function Bytes(p: Part): seq<byte> { if p.Hidden? then p.key else [p.b] }

  /** From left to right: the first key that matches, or a byte where none does. */
  ghost predicate Reads(keys: seq<seq<byte>>, parts: seq<Part>, s: seq<byte>) {
    if parts == [] then s == []
    else
      && Bytes(parts[0]) <= s
      && (if parts[0].Hidden? then Matching(keys, s) == Some(parts[0].key) else Matching(keys, s) == None)
      && Reads(keys, parts[1..], s[|Bytes(parts[0])|..])
  }

  function Masked(parts: seq<Part>): seq<byte> {
    if parts == [] then [] else (if parts[0].Hidden? then [STAR, STAR, STAR] else [parts[0].b]) + Masked(parts[1..])
  }

  lemma {:induction false} ReadingIsMasked(keys: seq<seq<byte>>, parts: seq<Part>, s: seq<byte>)
    requires Reads(keys, parts, s)
    ensures Mask(keys, s) == Masked(parts)
    decreases |parts|
  {
    hide Matching;
    if parts != [] {
      ReadingIsMasked(keys, parts[1..], s[|Bytes(parts[0])|..]);
      assert s != [];
    }
  }

  lemma {:induction false} SomeReading(keys: seq<seq<byte>>, s: seq<byte>) returns (parts: seq<Part>)
    ensures Reads(keys, parts, s)
    decreases |s|
  {
    hide Matching;
    if s == [] {
      parts := [];
    } else {
      var m := Matching(keys, s);
      var p := if m.Some? then Hidden(m.value) else Kept(s[0]);
      var more := SomeReading(keys, s[|Bytes(p)|..]);
      parts := [p] + more;
      assert parts[1..] == more;
    }
  }

  /** Masking a line replaces the keys of its one reading by three stars each and keeps the other bytes. */
  lemma MaskIsReading(keys: seq<seq<byte>>, s: seq<byte>)
    ensures exists parts :: Reads(keys, parts, s)
    ensures forall parts :: Reads(keys, parts, s) ==> Mask(keys, s) == Masked(parts)
  {
    hide Mask, Reads;
    var parts := SomeReading(keys, s);
    forall parts | Reads(keys, parts, s) ensures Mask(keys, s) == Masked(parts) { ReadingIsMasked(keys, parts, s); }
  }

  lemma {:induction false} NothingToHide(s: seq<byte>)
    ensures Mask([], s) == s
    decreases |s|
  {
    if s != [] { NothingToHide(s[1..]); }
  }

  /** A key that no replacement text can help to spell: no star at either end, no three stars in a row. */
  ghost predicate Safe(k: seq<byte>) {
    k != [] && k[0] != STAR && SafeTail(k)
  }

  ghost predicate SafeTail(k: seq<byte>) {
    (k != [] ==> k[|k| - 1] != STAR) && forall i :: !OccursAt(k, STARS, i)
  }

  lemma TailOfSafeTail(k: seq<byte>)
    requires SafeTail(k) && k != []
    ensures SafeTail(k[1..])
  {
    forall i ensures !OccursAt(k[1..], STARS, i) {
      assert k == [k[0]] + k[1..];
      if 0 <= i { OccursAtShifts([k[0]], k[1..], STARS, i); assert !OccursAt(k, STARS, 1 + i); }
    }
  }

  /** What reads like a safe key at the front of masked text was there unmasked. */
  lemma {:induction false} FrontWasUnmasked(keys: seq<seq<byte>>, s: seq<byte>, k: seq<byte>)
    requires SafeTail(k) && k <= Mask(keys, s)
    ensures k <= s
    decreases |s|
  {
    if k != [] {
      match Matching(keys, s)
      case Some(m) =>
        var more := Mask(keys, s[|m|..]);
        StarsInFront(k, more);
      case None =>
        TailOfSafeTail(k);
        assert Mask(keys, s)[1..] == Mask(keys, s[1..]);
        FrontWasUnmasked(keys, s[1..], k[1..]);
        assert k == [k[0]] + k[1..] && s == [s[0]] + s[1..];
    }
  }

  lemma StarsInFront(k: seq<byte>, more: seq<byte>)
    requires k <= STARS + more && k != []
    ensures !SafeTail(k)
  {
    var s := STARS + more;
    assert k == s[..|k|];
    if |k| >= 3 {
      assert k[0..3] == STARS;
      assert OccursAt(k, STARS, 0);
    } else {
      assert k[|k| - 1] == STARS[|k| - 1];
    }
  }

  /** Whatever the other keys are and however they are ordered, a safe key never survives. */
  lemma {:induction false} SafeKeyIsHidden(keys: seq<seq<byte>>, s: seq<byte>, k: seq<byte>)
    requires k in keys && Safe(k)
    ensures !Occurs(Mask(keys, s), k)
    decreases |s|
  {
    if s != [] {
      match Matching(keys, s)
      case Some(m) =>
        var more := Mask(keys, s[|m|..]);
        SafeKeyIsHidden(keys, s[|m|..], k);
        SkipStars(more, k);
      case None =>
        SafeKeyIsHidden(keys, s[1..], k);
        var out := Mask(keys, s);
        assert out[1..] == Mask(keys, s[1..]);
        if k <= out { FrontWasUnmasked(keys, s, k); }
    }
  }

  lemma SkipStars(more: seq<byte>, k: seq<byte>)
    requires Safe(k) && !Occurs(more, k)
    ensures !Occurs(STARS + more, k)
  {
    var s := STARS + more;
    assert s[1..][1..][1..] == more;
    assert s[0] == STAR && s[1..][0] == STAR && s[1..][1..][0] == STAR;
    assert !Occurs(s[1..][1..], k);
    assert !Occurs(s[1..], k);
  }

  /** Text in which no key matches passes unchanged. */
  lemma {:induction false} PlainPasses(keys: seq<seq<byte>>, x: seq<byte>, t: seq<byte>)
    requires forall i :: 0 <= i < |x| ==> Matching(keys, (x + t)[i..]) == None
    ensures Mask(keys, x + t) == x + Mask(keys, t)
    decreases |x|
  {
    hide Matching;
    if x == [] {
      assert x + t == t;
    } else {
      var s := x + t;
      assert s[0..] == s && s[1..] == x[1..] + t;
      forall i | 0 <= i < |x[1..]| ensures Matching(keys, (x[1..] + t)[i..]) == None {
        assert (x[1..] + t)[i..] == s[i + 1..];
      }
      PlainPasses(keys, x[1..], t);
      assert x == [x[0]] + x[1..];
      assert [x[0]] + (x[1..] + Mask(keys, t)) == x + Mask(keys, t);
    }
  }

  lemma OccursInside(x: seq<byte>, k: seq<byte>, y: seq<byte>)
    ensures Occurs(x + k + y, k)
  {
    OccursMeans(x + k + y, k);
    assert (x + k + y)[|x|..|x| + |k|] == k;
    assert OccursAt(x + k + y, k, |x|);
  }

  lemma StarFreeIsSafe(k: seq<byte>)
    requires k != [] && STAR !in k
    ensures Safe(k)
  {
    forall i ensures !OccursAt(k, STARS, i) {
      if OccursAt(k, STARS, i) { StarsHoldStar(k, i); }
    }
  }

  lemma StarsHoldStar(k: seq<byte>, i: int)
    requires OccursAt(k, STARS, i)
    ensures STAR in k
  {
    assert k[i] == k[i..i + 3][0];
  }
}
