/** The keys of the masker: every secret in its three forms, and what they hide. */
module Secrets {
  import opened Streams
  import opened Wrappers
  import opened Masking
  import opened Encoding

  function KeysOf(v: seq<byte>): seq<seq<byte>> {
    if v == [] then []
    else
      [v] + (if Base64(v) != v then [Base64(v)] else [])
      + (if Unpadded(v) != Base64(v) && Unpadded(v) != v then [Unpadded(v)] else [])
  }

  function Keys(secrets: seq<seq<byte>>): seq<seq<byte>> {
    if secrets == [] then [] else Keys(secrets[..|secrets| - 1]) + KeysOf(secrets[|secrets| - 1])
  }

  /** Builds the keys secret by secret. */
  method NewMasker(secrets: seq<seq<byte>>) returns (keys: seq<seq<byte>>)
    ensures keys == Keys(secrets)
  {
    hide Base64, TrimRight, KeysOf, Keys;
    keys := [];
    NoKeys();
    for i := 0 to |secrets|
      invariant keys == Keys(secrets[..i])
    {
      var v := secrets[i];
      KeysSnoc(secrets, i);
      OneByOne(keys, v);
      if v != [] {
        keys := keys + [v];
        var b64 := Base64(v);
        if b64 != v { keys := keys + [b64]; }
        var noPad := TrimRight(b64, PAD);
        if noPad != b64 && noPad != v { keys := keys + [noPad]; }
      }
    }
    assert secrets[..|secrets|] == secrets;
  }

  lemma NoKeys()
    ensures Keys([]) == []
  {
  }

  lemma KeysSnoc(secrets: seq<seq<byte>>, i: nat)
    requires i < |secrets|
    ensures Keys(secrets[..i + 1]) == Keys(secrets[..i]) + KeysOf(secrets[i])
  {
    assert secrets[..i + 1][..i] == secrets[..i];
  }

  lemma OneByOne(keys: seq<seq<byte>>, v: seq<byte>)
    ensures v == [] ==> keys + KeysOf(v) == keys
    ensures v != [] ==>
              var k1 := keys + [v];
              var k2 := if Base64(v) != v then k1 + [Base64(v)] else k1;
              keys + KeysOf(v) == if Unpadded(v) != Base64(v) && Unpadded(v) != v then k2 + [Unpadded(v)] else k2
  {
    hide Base64, TrimRight;
  }

  /** Secret by secret, in the order given, each in the order plain, padded, unpadded, and never the same form twice. */
  lemma KeysInOrder(secrets: seq<seq<byte>>, v: seq<byte>)
    ensures Keys([]) == []
    ensures v == [] ==> Keys(secrets + [v]) == Keys(secrets)
    ensures v != [] ==>
              var b, u := Base64(v), TrimRight(Base64(v), PAD);
              Keys(secrets + [v]) == Keys(secrets) + (if u == b then [v, b] else [v, b, u])
  {
    hide Base64, TrimRight, Keys, KeysOf;
    NoKeys();
    var all := secrets + [v];
    assert all[..|secrets|] == secrets && all[|secrets|] == v && all[..|all|] == all;
    KeysSnoc(all, |secrets|);
    FormsInOrder(v);
    assert Keys(secrets) + [] == Keys(secrets);
  }

  lemma FormsInOrder(v: seq<byte>)
    ensures v == [] ==> KeysOf(v) == []
    ensures v != [] ==>
              var b, u := Base64(v), TrimRight(Base64(v), PAD);
              KeysOf(v) == if u == b then [v, b] else [v, b, u]
  {
    hide Base64, TrimRight;
    if v != [] { FormsAreText(v); }
  }

  lemma {:induction false} KeysHoldForms(secrets: seq<seq<byte>>, v: seq<byte>)
    requires v in secrets && v != []
    ensures v in Keys(secrets) && Base64(v) in Keys(secrets) && Unpadded(v) in Keys(secrets)
    decreases |secrets|
  {
    hide Base64, TrimRight;
    var front, last := secrets[..|secrets| - 1], secrets[|secrets| - 1];
    assert secrets == front + [last];
    if v in front {
      KeysHoldForms(front, v);
    } else {
      assert v == last;
      FormsOf(v);
    }
  }

  lemma FormsOf(v: seq<byte>)
    requires v != []
    ensures v in KeysOf(v) && Base64(v) in KeysOf(v) && Unpadded(v) in KeysOf(v)
  {
    hide Base64, TrimRight;
    assert KeysOf(v)[0] == v;
    if Base64(v) != v { assert KeysOf(v)[1] == Base64(v); }
    if Unpadded(v) != Base64(v) && Unpadded(v) != v { assert KeysOf(v)[|KeysOf(v)| - 1] == Unpadded(v); }
  }

  /** `keys` are the keys of these secrets, in any order. */
  ghost predicate MaskerFor(keys: seq<seq<byte>>, secrets: seq<seq<byte>>) { multiset(keys) == multiset(Keys(secrets)) }

  /** No masked line holds the base64 of a secret, padded or not; nor the secret itself, if it is safe.
      The keys may come in any order. */
  lemma SecretsAreHidden(secrets: seq<seq<byte>>, keys: seq<seq<byte>>, v: seq<byte>, line: seq<byte>)
    requires v in secrets && v != [] && MaskerFor(keys, secrets)
    ensures !Occurs(Mask(keys, line), Base64(v)) && !Occurs(Mask(keys, line), Unpadded(v))
    ensures Safe(v) ==> !Occurs(Mask(keys, line), v)
  {
    hide Base64, TrimRight, Keys, Mask, Occurs, Safe;
    KeysHoldForms(secrets, v);
    InEveryOrder(Keys(secrets), keys, v);
    InEveryOrder(Keys(secrets), keys, Base64(v));
    InEveryOrder(Keys(secrets), keys, Unpadded(v));
    FormsAreText(v);
    StarFreeIsSafe(Base64(v));
    StarFreeIsSafe(Unpadded(v));
    SafeKeyIsHidden(keys, line, Base64(v));
    SafeKeyIsHidden(keys, line, Unpadded(v));
    if Safe(v) { SafeKeyIsHidden(keys, line, v); }
  }

  lemma InEveryOrder(a: seq<seq<byte>>, b: seq<seq<byte>>, k: seq<byte>)
    requires multiset(a) == multiset(b) && k in a
    ensures k in b
  {
    assert k in multiset(a);
    assert k in multiset(b);
  }

  /** The encoded forms are longer than the secret and spelled in the alphabet. */
  lemma FormsAreText(v: seq<byte>)
    requires v != []
    ensures |Base64(v)| > |v| && |Unpadded(v)| > |v|
    ensures forall b <- Base64(v) :: IsDigit(b) || b == PAD
    ensures forall b <- Unpadded(v) :: IsDigit(b) || b == PAD
  {
    hide Base64, TrimRight, IsDigit;
    Base64IsText(v);
    UnpaddedIsLonger(v);
    assert Unpadded(v) == Base64(v)[..|Unpadded(v)|];
    forall b <- Unpadded(v) ensures b in Base64(v) {}
  }

  // ----- the other direction: an unsafe secret can be spelled with a mask

  /** `z` occurs in no encoded key, in no mask, and ends no line. */
  predicate Foreign(z: byte) { !IsDigit(z) && z != PAD && z != STAR && z != CR && z != NL }

  function Repeat(z: byte, n: nat): (s: seq<byte>)
    ensures |s| == n && forall i :: 0 <= i < n ==> s[i] == z
  {
    seq(n, _ => z)
  }

  /** Every key but the run of `z`s is free of `z` and at least `n` long. */
  ghost predicate LongBut(keys: seq<seq<byte>>, z: byte, n: nat) {
    forall k <- keys :: k == Repeat(z, n + 1) || (z !in k && |k| >= n)
  }

  lemma FormsAreLong(v: seq<byte>, z: byte, n: nat)
    requires v != [] && Foreign(z) && (v == Repeat(z, n + 1) || (z !in v && |v| >= n))
    ensures LongBut(KeysOf(v), z, n)
  {
    hide Base64, TrimRight, Foreign;
    FormsAreText(v);
    ForeignToText(Base64(v), z);
    ForeignToText(Unpadded(v), z);
  }

  lemma LongBoth(a: seq<seq<byte>>, b: seq<seq<byte>>, z: byte, n: nat)
    requires LongBut(a, z, n) && LongBut(b, z, n)
    ensures LongBut(a + b, z, n)
  {
  }

  lemma ForeignToText(s: seq<byte>, z: byte)
    requires Foreign(z) && forall b <- s :: IsDigit(b) || b == PAD
    ensures z !in s
  {
  }

  lemma OneSecretIsLong(v: seq<byte>, z: byte)
    requires v != [] && Foreign(z) && z !in v
    ensures LongBut(Keys([v]), z, |v|) && v in Keys([v]) && Keys([v]) == KeysOf(v)
  {
    hide KeysOf, Foreign, Repeat, Keys, LongBut;
    NoKeys();
    KeysSnoc([v], 0);
    assert [v][..0] == [] && [v][..1] == [v] && [] + KeysOf(v) == KeysOf(v);
    FormsAreLong(v, z, |v|);
    FormsOf(v);
  }

  lemma KeysOfTwo(v: seq<byte>, w: seq<byte>)
    ensures Keys([v, w]) == KeysOf(v) + KeysOf(w)
  {
    hide KeysOf, Keys;
    var two := [v, w];
    assert two[..0] == [] && two[..2] == two;
    NoKeys();
    KeysSnoc(two, 0);
    KeysSnoc(two, 1);
    assert [] + KeysOf(v) == KeysOf(v);
  }

  lemma TwoSecretsAreLong(v: seq<byte>, z: byte, w: seq<byte>)
    requires v != [] && Foreign(z) && z !in v && w == Repeat(z, |v| + 1)
    ensures LongBut(Keys([v, w]), z, |v|) && w in Keys([v, w])
  {
    hide KeysOf, Foreign, Keys, LongBut;
    KeysOfTwo(v, w);
    FormsAreLong(v, z, |v|);
    FormsAreLong(w, z, |v|);
    LongBoth(KeysOf(v), KeysOf(w), z, |v|);
    FormsOf(w);
  }

  lemma FirstSame(k: seq<byte>, p: seq<byte>, more: seq<byte>)
    requires k <= p + more && k != [] && p != []
    ensures k[0] == p[0]
  {
    assert k[0] == (p + more)[0];
  }

  lemma ReachesZ(k: seq<byte>, z: byte, p: seq<byte>, more: seq<byte>)
    requires k <= p + ([z] + more) && |k| > |p|
    ensures z in k
  {
    assert k[|p|] == (p + ([z] + more))[|p|] == z;
  }

  lemma NoKeyAt(keys: seq<seq<byte>>, z: byte, n: nat, p: seq<byte>, more: seq<byte>)
    requires LongBut(keys, z, n) && z !in p && 0 < |p| < n
    ensures Matching(keys, p + ([z] + more)) == None
  {
    hide Matching;
    var m := Matching(keys, p + ([z] + more));
    if m.Some? {
      FirstSame(m.value, p, [z] + more);
      if |m.value| > |p| { ReachesZ(m.value, z, p, more); }
    }
  }

  lemma NoKeyAtLast(keys: seq<seq<byte>>, z: byte, n: nat)
    requires LongBut(keys, z, n) && n > 0
    ensures Matching(keys, [z]) == None
  {
    hide Matching;
    var m := Matching(keys, [z]);
    assert [] + ([z] + []) == [z];
    if m.Some? { ReachesZ(m.value, z, [], []); }
  }

  lemma RunMatches(keys: seq<seq<byte>>, z: byte, n: nat, t: seq<byte>)
    requires LongBut(keys, z, n) && Repeat(z, n + 1) in keys
    ensures Mask(keys, Repeat(z, n + 1) + t) == STARS + Mask(keys, t)
  {
    hide Matching;
    var w := Repeat(z, n + 1);
    var m := Matching(keys, w + t);
    assert w <= w + t && (w + t)[|w|..] == t;
    if m.Some? { FirstSame(m.value, w, t); }
  }

  lemma RunStartsWithZ(z: byte, n: nat, t: seq<byte>)
    ensures Repeat(z, n + 1) + t == [z] + (Repeat(z, n) + t)
  {
    assert Repeat(z, n + 1) == [z] + Repeat(z, n);
  }

  /** Text free of `z` and too short for any other key passes in front of a `z`. */
  lemma ShortPasses(keys: seq<seq<byte>>, z: byte, n: nat, x: seq<byte>, more: seq<byte>)
    requires LongBut(keys, z, n) && z !in x && |x| < n
    ensures Mask(keys, x + ([z] + more)) == x + Mask(keys, [z] + more)
  {
    hide Matching, Mask, LongBut;
    var t := [z] + more;
    forall i | 0 <= i < |x| ensures Matching(keys, (x + t)[i..]) == None {
      assert (x + t)[i..] == x[i..] + t;
      NoKeyAt(keys, z, n, x[i..], more);
    }
    PlainPasses(keys, x, t);
  }

  lemma LastPasses(keys: seq<seq<byte>>, z: byte, n: nat, y: seq<byte>)
    requires LongBut(keys, z, n) && z !in y && |y| < n
    ensures Mask(keys, y + [z]) == y + [z]
  {
    hide Matching, LongBut;
    assert [z] + [] == [z];
    ShortPasses(keys, z, n, y, []);
    NoKeyAtLast(keys, z, n);
    assert [z][1..] == [];
  }

  lemma MarkedLine(keys: seq<seq<byte>>, z: byte, n: nat, x: seq<byte>, y: seq<byte>)
    requires LongBut(keys, z, n) && Repeat(z, n + 1) in keys
    requires z !in x && z !in y && |x| < n && |y| < n
    ensures Mask(keys, x + (Repeat(z, n + 1) + (y + [z]))) == x + (STARS + (y + [z]))
  {
    hide Mask, LongBut, Repeat;
    RunStartsWithZ(z, n, y + [z]);
    ShortPasses(keys, z, n, x, Repeat(z, n) + (y + [z]));
    RunMatches(keys, z, n, y + [z]);
    LastPasses(keys, z, n, y);
  }

  /** The three ways to be unsafe: what stands in the place of the three stars is masked away. */
  lemma AroundStars(v: seq<byte>, z: byte) returns (x: seq<byte>, y: seq<byte>)
    requires v != [] && !Safe(v)
    ensures |x| < |v| && |y| < |v| && forall b :: b in x || b in y ==> b in v
    ensures Occurs(x + (STARS + (y + [z])), v)
  {
    hide Occurs;
    var n := |v|;
    if v[0] == STAR {
      x, y := [], v[1..];
      assert x + (STARS + (y + [z])) == [STAR, STAR] + v + [z];
      OccursInside([STAR, STAR], v, [z]);
    } else if v[n - 1] == STAR {
      x, y := v[..n - 1], [];
      assert x + (STARS + (y + [z])) == [] + v + [STAR, STAR, z];
      OccursInside([], v, [STAR, STAR, z]);
    } else {
      var i :| OccursAt(v, STARS, i);
      x, y := v[..i], v[i + 3..];
      assert v == x + STARS + y;
      assert x + (STARS + (y + [z])) == [] + v + [z];
      OccursInside([], v, [z]);
    }
  }

  /** For an unsafe secret, a second secret and a line that reads the first one once it is masked. */
  lemma UnsafeSecretLeaks(v: seq<byte>, z: byte) returns (w: seq<byte>, line: seq<byte>)
    requires v != [] && !Safe(v) && Foreign(z) && z !in v
    ensures Occurs(Mask(Keys([v, w]), line), v)
    ensures line != [] && line[|line| - 1] == z && (NL !in v ==> NL !in line)
  {
    hide Mask, Keys, Occurs, Safe, LongBut;
    w := Repeat(z, |v| + 1);
    TwoSecretsAreLong(v, z, w);
    var x, y := AroundStars(v, z);
    line := x + (w + (y + [z]));
    MarkedLine(Keys([v, w]), z, |v|, x, y);
  }

  /** In no line that is masked with the keys of these and other secrets, in any order, can `v` be read. */
  ghost predicate AlwaysHidden(v: seq<byte>) {
    forall secrets: seq<seq<byte>>, keys: seq<seq<byte>>, line: seq<byte> ::
      v in secrets && MaskerFor(keys, secrets) ==> !Occurs(Mask(keys, line), v)
  }

  /** Exactly the safe secrets are hidden in every line, whatever other secrets there are. */
  lemma HiddenIffSafe(v: seq<byte>, z: byte)
    requires v != [] && Foreign(z) && z !in v
    ensures Safe(v) <==> AlwaysHidden(v)
  {
    hide Safe, Mask, Keys, Occurs, MaskerFor, Base64, TrimRight;
    if Safe(v) {
      forall secrets: seq<seq<byte>>, keys: seq<seq<byte>>, line: seq<byte> | v in secrets && MaskerFor(keys, secrets)
        ensures !Occurs(Mask(keys, line), v)
      {
        SecretsAreHidden(secrets, keys, v, line);
      }
    } else {
      var w, line := UnsafeSecretLeaks(v, z);
      assert [v, w][0] == v;
      NotAlways(v, [v, w], line);
    }
  }

  lemma NotAlways(v: seq<byte>, secrets: seq<seq<byte>>, line: seq<byte>)
    requires v in secrets && Occurs(Mask(Keys(secrets), line), v)
    ensures !AlwaysHidden(v)
  {
    hide Mask, Keys, Occurs;
    assert MaskerFor(Keys(secrets), secrets);
  }

  lemma {:induction false} FirstMatch(front: seq<seq<byte>>, k: seq<byte>, back: seq<seq<byte>>, s: seq<byte>)
    requires (forall i :: 0 <= i < |front| ==> !(front[i] <= s)) && k != [] && k <= s
    ensures Matching(front + [k] + back, s) == Some(k)
    decreases |front|
  {
    var keys := front + [k] + back;
    if front != [] {
      assert keys[1..] == front[1..] + [k] + back;
      FirstMatch(front[1..], k, back, s);
    }
  }

  lemma {:induction false} NoMatch(keys: seq<seq<byte>>, s: seq<byte>)
    requires forall i :: 0 <= i < |keys| ==> !(keys[i] <= s)
    ensures Matching(keys, s) == None
  {
    if keys != [] { NoMatch(keys[1..], s); }
  }

  lemma FormsOfStarA()
    ensures KeysOf([STAR, 97]) == [[STAR, 97], [75, 109, 69, PAD], [75, 109, 69]]
  {
    var b := [75, 109, 69, PAD];
    assert Base64([STAR, 97]) == b;
    assert b[..3] == [75, 109, 69];
    assert TrimRight([75, 109, 69], PAD) == [75, 109, 69];
  }

  lemma FormsOfZ()
    ensures KeysOf([122]) == [[122], [101, 103, PAD, PAD], [101, 103]]
  {
    var b := [101, 103, PAD, PAD];
    assert Base64([122]) == b;
    assert b[..3] == [101, 103, PAD] && [101, 103, PAD][..2] == [101, 103];
    assert TrimRight([101, 103], PAD) == [101, 103];
    assert TrimRight([101, 103, PAD], PAD) == [101, 103];
  }

  /** With the keys of the masker itself: the secrets `*a` and `z`, and the line `za`, which reads `***a` once masked. */
  lemma MaskedLineLeaks()
    ensures Occurs(Mask(Keys([[STAR, 97], [122]]), [122, 97]), [STAR, 97])
  {
    hide Keys, KeysOf, Matching, Base64, TrimRight, Occurs;
    var secrets: seq<seq<byte>> := [[STAR, 97], [122]];
    assert secrets[..0] == [] && secrets[..2] == secrets;
    NoKeys();
    KeysSnoc(secrets, 0);
    KeysSnoc(secrets, 1);
    FormsOfStarA();
    FormsOfZ();
    var front, back := KeysOf([STAR, 97]), [[101, 103, PAD, PAD], [101, 103]];
    var keys := Keys(secrets);
    assert keys == front + [[122]] + back;
    var line: seq<byte> := [122, 97];
    assert front[0][0] == STAR && front[1][0] == front[2][0] == 75;
    FirstMatch(front, [122], back, line);
    assert line[1..] == [97];
    assert keys[0][0] == STAR && keys[1][0] == keys[2][0] == 75 && keys[3][0] == 122 && keys[4][0] == keys[5][0] == 101;
    NoMatch(keys, [97]);
    assert Mask(keys, [97]) == [97];
    assert STARS + [97] == [STAR, STAR] + [STAR, 97] + [];
    OccursInside([STAR, STAR], [STAR, 97], []);
  }
}
