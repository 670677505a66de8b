/** The filter between the guest console and its log. It waits for the firmware banner, takes
    the firmware's screen painting out, and retires for good at the handoff line or after a
    fixed number of bytes, always at the end of a read. */
module PaintFilter {
  import opened Streams
  import opened Wrappers
  import opened Csi

  const FW_PAINT_BUDGET: nat := 8192

  /** UEFI firmware (version */
  const FW_BANNER: seq<byte> :=
    [85, 69, 70, 73, 32, 102, 105, 114, 109, 119, 97, 114, 101, 32, 40, 118, 101, 114, 115, 105, 111, 110]

  /** BdsDxe: starting */
  const HANDOFF_ANCHOR: seq<byte> :=
    [66, 100, 115, 68, 120, 101, 58, 32, 115, 116, 97, 114, 116, 105, 110, 103]

  lemma MarkersAreNotEmpty()
    ensures FW_BANNER != [] && HANDOFF_ANCHOR != []
  {
  }

  lemma MarkerTexts()
    ensures FW_BANNER == Chars("UEFI firmware (version") && HANDOFF_ANCHOR == Chars("BdsDxe: starting")
  {
  }

  // ----- the specification over a whole run, cut into reads

  /** The banner is complete, for the first time, at `a`, with the read that starts at `w`, and the reads
      before that one did not use the budget up. */
  ghost predicate Arms(chunks: seq<seq<byte>>, a: nat, w: nat) {
    && chunks != []
    && var before := chunks[..|chunks| - 1];
       if Occurs(Joined(before), FW_BANNER) || |Joined(before)| >= FW_PAINT_BUDGET then Arms(before, a, w)
       else w == |Joined(before)| && FirstEnd(Joined(chunks), FW_BANNER, a)
  }

  /** What a filter armed at `a` has put out for the input `t`, from offset `w` on. */
  function Watched(t: seq<byte>, a: nat, w: nat): seq<byte>
    requires w <= a <= |t|
  {
    t[w..a] + Shown(t[a..])
  }

  /** After the input `t`, a filter armed at `a` in the read starting at `w` has a reason to retire. */
  ghost predicate MustRetire(t: seq<byte>, a: nat, w: nat)
    requires w <= a <= |t|
  {
    |t| >= FW_PAINT_BUDGET || Occurs(Watched(t, a, w), HANDOFF_ANCHOR)
  }

  /** No read that ended at or after `a` has given a reason to retire. */
  ghost predicate Quiet(chunks: seq<seq<byte>>, a: nat, w: nat)
    requires w <= a
  {
    |Joined(chunks)| >= a ==> !MustRetire(Joined(chunks), a, w) && (chunks != [] ==> Quiet(chunks[..|chunks| - 1], a, w))
  }

  /** The filter is armed for the first `n` reads: read `n` is the first to give a reason to retire, or the last. */
  ghost predicate RetiresAfter(chunks: seq<seq<byte>>, a: nat, w: nat, n: nat) {
    && 0 < n <= |chunks| && w <= a <= |Joined(chunks[..n])|
    && Quiet(chunks[..n - 1], a, w)
    && (n == |chunks| || MustRetire(Joined(chunks[..n]), a, w))
  }

  /** The whole law: untouched up to the banner, unpainted up to the retirement, untouched afterwards. */
  function Cleaned(s: seq<byte>, a: nat, k: nat): seq<byte>
    requires a <= k <= |s|
  {
    s[..a] + Unpainted(s[a..k]) + s[k..]
  }

  /** What comes out of a run that arms at `a` and retires after `n` reads. */
  ghost function Delivered(chunks: seq<seq<byte>>, a: nat, n: nat): seq<byte>
    requires n <= |chunks| && a <= |Joined(chunks[..n])|
  {
    JoinedPrefix(chunks, n);
    Cleaned(Joined(chunks), a, |Joined(chunks[..n])|)
  }

  /** `out` is what a filter puts out over its life for these reads; the offsets are the only ones there are. */
  ghost predicate Outcome(chunks: seq<seq<byte>>, out: seq<byte>) {
    && ((exists a, w, n :: Arms(chunks, a, w) && RetiresAfter(chunks, a, w, n) && out == Delivered(chunks, a, n))
        || ((forall a, w :: !Arms(chunks, a, w)) && out == Joined(chunks)))
  }

  // ----- what a further read leaves unchanged

  lemma {:induction false} ArmsBounds(chunks: seq<seq<byte>>, a: nat, w: nat)
    requires Arms(chunks, a, w)
    ensures w < a <= |Joined(chunks)| && w < FW_PAINT_BUDGET
    ensures Occurs(Joined(chunks), FW_BANNER) && FirstEnd(Joined(chunks), FW_BANNER, a)
  {
    var before, last := chunks[..|chunks| - 1], chunks[|chunks| - 1];
    if Occurs(Joined(before), FW_BANNER) || |Joined(before)| >= FW_PAINT_BUDGET {
      ArmsBounds(before, a, w);
      FirstEndMeans(Joined(before), FW_BANNER, a);
      FirstEndMeans(Joined(chunks), FW_BANNER, a);
      FirstEndStays(Joined(before), last, FW_BANNER, a);
      OccursStays(Joined(before), last, FW_BANNER);
    } else {
      FirstEndOccurs(Joined(chunks), FW_BANNER, a);
      if a <= w {
        var s := Joined(chunks);
        assert s[..a] == Joined(before)[..a] && OccursAt(Joined(before), FW_BANNER, a - |FW_BANNER|);
        OccursMeans(Joined(before), FW_BANNER);
      }
    }
  }

  lemma FirstEndStays(s: seq<byte>, t: seq<byte>, m: seq<byte>, e: int)
    requires m != [] && FirstEnd(s, m, e)
    ensures FirstEnd(s + t, m, e)
  {
    assert (s + t)[e - |m|..e] == s[e - |m|..e] && (s + t)[..e - 1] == s[..e - 1];
  }

  lemma ArmsStays(chunks: seq<seq<byte>>, data: seq<byte>, a: nat, w: nat)
    requires Arms(chunks, a, w)
    ensures Arms(chunks + [data], a, w)
  {
    ArmsBounds(chunks, a, w);
    assert (chunks + [data])[..|chunks|] == chunks;
  }

  /** A run that has spent its budget without a banner never arms. */
  lemma NeverArmsStays(chunks: seq<seq<byte>>, data: seq<byte>)
    requires |Joined(chunks)| >= FW_PAINT_BUDGET && forall a, w :: !Arms(chunks, a, w)
    ensures forall a, w :: !Arms(chunks + [data], a, w)
  {
    assert (chunks + [data])[..|chunks|] == chunks;
  }

  lemma NoBannerNoArms(chunks: seq<seq<byte>>)
    requires !Occurs(Joined(chunks), FW_BANNER)
    ensures forall a, w :: !Arms(chunks, a, w)
  {
    forall a, w ensures !Arms(chunks, a, w) {
      if Arms(chunks, a, w) { ArmsBounds(chunks, a, w); }
    }
  }

  /** The offsets are determined by the reads. */
  lemma {:induction false} ArmsOnce(chunks: seq<seq<byte>>, a: nat, w: nat, a': nat, w': nat)
    requires Arms(chunks, a, w) && Arms(chunks, a', w')
    ensures a == a' && w == w'
  {
    var before := chunks[..|chunks| - 1];
    if Occurs(Joined(before), FW_BANNER) || |Joined(before)| >= FW_PAINT_BUDGET {
      ArmsOnce(before, a, w, a', w');
    } else {
      FirstEndUnique(Joined(chunks), FW_BANNER, a, a');
    }
  }

  lemma {:induction false} QuietPrefix(chunks: seq<seq<byte>>, a: nat, w: nat, n: nat)
    requires w <= a && n <= |chunks| && Quiet(chunks, a, w)
    ensures Quiet(chunks[..n], a, w)
    ensures a <= |Joined(chunks[..n])| ==> !MustRetire(Joined(chunks[..n]), a, w)
    decreases |chunks| - n
  {
    if n == |chunks| {
      assert chunks[..n] == chunks;
    } else {
      QuietPrefix(chunks, a, w, n + 1);
      assert chunks[..n + 1][..n] == chunks[..n];
    }
  }

  lemma RetiresOnce(chunks: seq<seq<byte>>, a: nat, w: nat, n: nat, n': nat)
    requires RetiresAfter(chunks, a, w, n) && RetiresAfter(chunks, a, w, n')
    ensures n == n'
  {
    if n < n' {
      assert chunks[..n' - 1][..n] == chunks[..n];
      QuietPrefix(chunks[..n' - 1], a, w, n);
    } else if n' < n {
      assert chunks[..n - 1][..n'] == chunks[..n'];
      QuietPrefix(chunks[..n - 1], a, w, n');
    }
  }

  lemma OneFate(chunks: seq<seq<byte>>, a: nat, w: nat, n: nat, a': nat, w': nat, n': nat)
    requires Arms(chunks, a, w) && RetiresAfter(chunks, a, w, n)
    requires Arms(chunks, a', w') && RetiresAfter(chunks, a', w', n')
    ensures a == a' && w == w' && n == n'
  {
    hide Arms, RetiresAfter;
    ArmsOnce(chunks, a, w, a', w');
    RetiresOnce(chunks, a, w, n, n');
  }

  // ----- where the reads are cut matters only for painting behind the retirement

  lemma {:induction false} RemovalShows(z: seq<byte>)
    ensures |Unpainted(z)| <= |z|
    ensures |Unpainted(z)| == |z| ==> Unpainted(z) == z
    decreases |z|
  {
    hide Front, Unpainted;
    UnpaintedStep(z);
    if z != [] && Front(z).Some? {
      var n := Front(z).value.1;
      RemovalShows(z[n..]);
      FrontKeepsOrDrops(z);
      assert z == z[..n] + z[n..];
    }
  }

  lemma UnpaintedStep(z: seq<byte>)
    ensures Unpainted(z) ==
            if z == [] || Front(z).None? then z else Front(z).value.0 + Unpainted(z[Front(z).value.1..])
  {
    hide Front;
    if z != [] && Front(z).Some? {
      var f, more := Front(z).value.0, z[Front(z).value.1..];
      assert f + Shown(more) + Pending(more) == f + (Shown(more) + Pending(more));
    }
  }

  lemma FrontKeepsOrDrops(z: seq<byte>)
    requires z != [] && Front(z).Some?
    ensures Front(z).value.0 == [] || Front(z).value.0 == z[..Front(z).value.1]
  {
    hide Scanned;
    assert z[..1] == [z[0]];
  }

  /** The number of bytes that stripping `z` removes. */
  function Removed(z: seq<byte>): int { |z| - |Unpainted(z)| }

  /** Retiring later makes a difference exactly if painting is removed in between. */
  lemma LaterRetirement(s: seq<byte>, a: nat, k: nat, k': nat)
    requires a <= k <= k' <= |s|
    ensures Cleaned(s, a, k) == Cleaned(s, a, k') <==> Removed(s[a..k]) == Removed(s[a..k'])
  {
    hide Shown, Pending;
    var x, y := s[a..k], s[k..k'];
    assert s[a..k'] == x + y && s[k..] == y + s[k'..];
    ScanResumes(x, y);
    var z := Pending(x) + y;
    RemovalShows(z);
    assert Unpainted(x + y) == Shown(x) + Unpainted(z);
    assert Unpainted(x) + y == Shown(x) + z;
    var head, tail := s[..a], s[k'..];
    assert Cleaned(s, a, k) == head + (Unpainted(x) + y) + tail;
    assert Cleaned(s, a, k') == head + Unpainted(x + y) + tail;
    if Removed(x) == Removed(x + y) { assert |Unpainted(z)| == |z|; }
    if Cleaned(s, a, k) == Cleaned(s, a, k') {
      assert |Cleaned(s, a, k)| == |head| + |Unpainted(x)| + |y| + |tail|;
      assert |Cleaned(s, a, k')| == |head| + |Unpainted(x + y)| + |tail|;
    }
  }

  /** How many bytes a run loses that arms at `a` and retires after `n` reads. */
  ghost function Lost(chunks: seq<seq<byte>>, a: nat, n: nat): int
    requires n <= |chunks| && a <= |Joined(chunks[..n])|
  {
    JoinedPrefix(chunks, n);
    Removed(Joined(chunks)[a..|Joined(chunks[..n])|])
  }

  /** `lost` is how many bytes the run over these reads loses: none if it never arms. */
  ghost predicate Loses(chunks: seq<seq<byte>>, lost: int) {
    || (exists a, w, n :: Arms(chunks, a, w) && RetiresAfter(chunks, a, w, n) && lost == Lost(chunks, a, n))
    || ((forall a, w :: !Arms(chunks, a, w)) && lost == 0)
  }

  lemma CleanedFromTheStart(s: seq<byte>, a: nat, k: nat)
    requires a <= k <= |s|
    ensures Cleaned(s, a, k) == s <==> Removed(s[a..k]) == 0
  {
    hide Shown, Pending, Removed;
    NothingUnpainted();
    assert s[a..a] == [] && s[..a] + [] + s[a..] == s;
    LaterRetirement(s, a, a, k);
  }

  lemma NothingUnpainted()
    ensures Unpainted([]) == [] && Removed([]) == 0
  {
  }

  lemma BothArm(c: seq<seq<byte>>, d: seq<seq<byte>>, a: nat, w: nat, n: nat, a': nat, w': nat, n': nat)
    requires Joined(c) == Joined(d)
    requires Arms(c, a, w) && RetiresAfter(c, a, w, n) && Arms(d, a', w') && RetiresAfter(d, a', w', n')
    ensures a == a' && (Delivered(c, a, n) == Delivered(d, a', n') <==> Lost(c, a, n) == Lost(d, a', n'))
  {
    hide Joined, Arms, Quiet, MustRetire, Cleaned, Removed;
    ArmsBounds(c, a, w);
    ArmsBounds(d, a', w');
    FirstEndUnique(Joined(c), FW_BANNER, a, a');
    JoinedPrefix(c, n);
    JoinedPrefix(d, n');
    var s, k, k' := Joined(c), |Joined(c[..n])|, |Joined(d[..n'])|;
    if k <= k' { LaterRetirement(s, a, k, k'); } else { LaterRetirement(s, a, k', k); }
  }

  lemma OneArms(c: seq<seq<byte>>, a: nat, w: nat, n: nat)
    requires Arms(c, a, w) && RetiresAfter(c, a, w, n)
    ensures Delivered(c, a, n) == Joined(c) <==> Lost(c, a, n) == 0
  {
    hide Joined, Arms, Quiet, MustRetire, Cleaned, Removed;
    JoinedPrefix(c, n);
    CleanedFromTheStart(Joined(c), a, |Joined(c[..n])|);
  }

  /** Two ways to cut the same bytes into reads give the same output exactly if they lose equally many. */
  lemma CutsAgreeIff(c: seq<seq<byte>>, out: seq<byte>, lost: int, d: seq<seq<byte>>, out': seq<byte>, lost': int)
    requires Joined(c) == Joined(d)
    requires Outcome(c, out) && Loses(c, lost) && Outcome(d, out') && Loses(d, lost')
    ensures out == out' <==> lost == lost'
  {
    hide Joined, Arms, RetiresAfter, Delivered, Lost;
    if (exists a, w :: Arms(c, a, w)) && (exists a, w :: Arms(d, a, w)) {
      var a, w, n := ArmedFate(c, out, lost);
      var a', w', n' := ArmedFate(d, out', lost');
      BothArm(c, d, a, w, n, a', w', n');
    } else if exists a, w :: Arms(c, a, w) {
      var a, w, n := ArmedFate(c, out, lost);
      OneArms(c, a, w, n);
    } else if exists a, w :: Arms(d, a, w) {
      var a, w, n := ArmedFate(d, out', lost');
      OneArms(d, a, w, n);
    }
  }

  lemma ArmedFate(c: seq<seq<byte>>, out: seq<byte>, lost: int) returns (a: nat, w: nat, n: nat)
    requires Outcome(c, out) && Loses(c, lost) && exists a, w :: Arms(c, a, w)
    ensures Arms(c, a, w) && RetiresAfter(c, a, w, n) && out == Delivered(c, a, n) && lost == Lost(c, a, n)
  {
    hide Joined, Arms, Quiet, MustRetire, Cleaned, Removed;
    a, w, n :| Arms(c, a, w) && RetiresAfter(c, a, w, n) && out == Delivered(c, a, n);
    var a', w', n' :| Arms(c, a', w') && RetiresAfter(c, a', w', n') && lost == Lost(c, a', n');
    OneFate(c, a, w, n, a', w', n');
  }

  // ----- a run whose outcome depends on the cut: banner, handoff line and an erase-display sequence

  const ERASE: seq<byte> := [ESC, BRACKET, 0x4a]

  lemma {:induction false} TooShortToOccur(s: seq<byte>, m: seq<byte>)
    requires |s| < |m|
    ensures !Occurs(s, m)
    decreases |s|
  {
    if s != [] { TooShortToOccur(s[1..], m); }
  }

  lemma EraseVanishes(text: seq<byte>)
    requires ESC !in text
    ensures Shown(text + ERASE) == text && Pending(text + ERASE) == [] && Removed(text + ERASE) == 3
    ensures Removed(text) == 0
  {
    hide ERASE, Scanned, Front;
    NoEscNoChange(text);
    ScanResumes(text, ERASE);
    assert [] + ERASE == ERASE;
    EraseIsPainting();
  }

  lemma EraseIsPainting()
    ensures |ERASE| == 3 && Shown(ERASE) == [] && Pending(ERASE) == []
  {
    assert Scanned(ERASE) == Complete(3, 0x4a);
    assert ERASE[3..] == [];
  }

  lemma AnchorIsPlain()
    ensures ESC !in HANDOFF_ANCHOR
  {
  }

  lemma AnchorRetires(t: seq<byte>, tail: seq<byte>)
    requires t == FW_BANNER + HANDOFF_ANCHOR + tail && (tail == [] || tail == ERASE)
    ensures MustRetire(t, |FW_BANNER|, 0)
  {
    hide FW_BANNER, HANDOFF_ANCHOR, ERASE, Occurs, Shown, Pending, Unpainted;
    var a := |FW_BANNER|;
    assert t[a..] == HANDOFF_ANCHOR + tail && t[0..a] == FW_BANNER;
    AnchorIsPlain();
    if tail == [] {
      assert HANDOFF_ANCHOR + [] == HANDOFF_ANCHOR;
      NoEscNoChange(HANDOFF_ANCHOR);
    } else {
      EraseVanishes(HANDOFF_ANCHOR);
    }
    OccursMeans(FW_BANNER + HANDOFF_ANCHOR, HANDOFF_ANCHOR);
    assert OccursAt(FW_BANNER + HANDOFF_ANCHOR, HANDOFF_ANCHOR, a);
  }

  lemma ArmsAtOnce(first: seq<byte>)
    requires FW_BANNER <= first
    ensures Arms([first], |FW_BANNER|, 0) && Quiet([], |FW_BANNER|, 0)
  {
    hide FW_BANNER;
    MarkersAreNotEmpty();
    assert [first][..0] == [];
    assert Joined([first]) == [] + first == first;
    TooShortToOccur([], FW_BANNER);
    TooShortToOccur(first[..|FW_BANNER| - 1], FW_BANNER);
  }

  /** The same bytes, read at once or in two reads: the sequence behind the handoff line is removed only
      when it shares a read with it. */
  lemma CutsMatter(both: seq<byte>, first: seq<byte>)
    requires first == FW_BANNER + HANDOFF_ANCHOR && both == first + ERASE
    ensures Joined([both]) == Joined([first, ERASE]) == both
    ensures Arms([both], |FW_BANNER|, 0) && RetiresAfter([both], |FW_BANNER|, 0, 1)
    ensures Arms([first, ERASE], |FW_BANNER|, 0) && RetiresAfter([first, ERASE], |FW_BANNER|, 0, 1)
    ensures Delivered([both], |FW_BANNER|, 1) == first && Delivered([first, ERASE], |FW_BANNER|, 1) == both
  {
    hide FW_BANNER, HANDOFF_ANCHOR, ERASE, Shown, Pending, Occurs;
    var a, one, two := |FW_BANNER|, [both], [first, ERASE];
    assert one[..1] == one && one[..0] == [] && two[..1] == [first] && two[..0] == [];
    assert Joined(one) == [] + both == both && Joined([first]) == [] + first == first;
    assert two == [first] + [ERASE];
    JoinedSnoc([first], ERASE);
    ArmsAtOnce(both);
    ArmsAtOnce(first);
    ArmsStays([first], ERASE, a, 0);
    assert both == FW_BANNER + HANDOFF_ANCHOR + ERASE && first == FW_BANNER + HANDOFF_ANCHOR + [];
    AnchorRetires(both, ERASE);
    AnchorRetires(first, []);
    Deliveries(both, first);
  }

  lemma Deliveries(both: seq<byte>, first: seq<byte>)
    requires first == FW_BANNER + HANDOFF_ANCHOR && both == first + ERASE
    ensures Cleaned(both, |FW_BANNER|, |both|) == first && Cleaned(both, |FW_BANNER|, |first|) == both
  {
    hide FW_BANNER, HANDOFF_ANCHOR, ERASE, Shown, Pending, Removed;
    AnchorIsPlain();
    EraseVanishes(HANDOFF_ANCHOR);
    NoEscNoChange(HANDOFF_ANCHOR);
    var a := |FW_BANNER|;
    assert both[..a] == FW_BANNER;
    assert both[a..|both|] == HANDOFF_ANCHOR + ERASE && both[|both|..] == [];
    assert both[a..|first|] == HANDOFF_ANCHOR && both[|first|..] == ERASE;
  }

  // ----- a run that arms or not, depending on the cut: the banner straddles the end of the budget

  lemma BannerStart()
    ensures |FW_BANNER| == 22 && FW_BANNER[0] == 85
  {
  }

  /** In front of text without its first byte, the banner starts nowhere earlier. */
  lemma BannerBehind(p: seq<byte>, rest: seq<byte>, i: int)
    requires 85 !in p && OccursAt(p + rest, FW_BANNER, i)
    ensures |p| <= i
  {
    hide FW_BANNER;
    OccursAtInside(p + rest, FW_BANNER, i);
    if i < |p| { StartsInside(p, rest, i); }
  }

  lemma StartsInside(p: seq<byte>, rest: seq<byte>, i: nat)
    requires i < |p| && OccursAt(p + rest, FW_BANNER, i)
    ensures 85 in p
  {
    hide FW_BANNER;
    BannerByte(p + rest, i);
    assert (p + rest)[i] == p[i];
  }

  lemma BannerByte(s: seq<byte>, i: int)
    requires OccursAt(s, FW_BANNER, i)
    ensures 0 <= i < |s| && s[i] == 85
  {
    hide FW_BANNER;
    BannerStart();
    assert s[i..i + |FW_BANNER|][0] == s[i];
  }

  lemma BannerAt(p: seq<byte>, rest: seq<byte>)
    requires 85 !in p
    ensures FirstEnd(p + (FW_BANNER + rest), FW_BANNER, |p| + |FW_BANNER|)
  {
    hide FW_BANNER, FirstEnd;
    MarkersAreNotEmpty();
    var s := p + (FW_BANNER + rest);
    assert s[|p|..|p| + |FW_BANNER|] == FW_BANNER;
    forall i | OccursAt(s, FW_BANNER, i) ensures |p| <= i { BannerBehind(p, FW_BANNER + rest, i); }
    FirstEndMeans(s, FW_BANNER, |p| + |FW_BANNER|);
  }

  lemma NoBannerYet(p: seq<byte>, k: nat)
    requires 85 !in p && k < |FW_BANNER|
    ensures !Occurs(p + FW_BANNER[..k], FW_BANNER)
  {
    hide FW_BANNER, Occurs;
    var s := p + FW_BANNER[..k];
    OccursMeans(s, FW_BANNER);
    if i :| OccursAt(s, FW_BANNER, i) {
      OccursAtInside(s, FW_BANNER, i);
      BannerBehind(p, FW_BANNER[..k], i);
    }
  }

  /** With 8190 bytes in front of the banner: if a read starts with the banner, the filter arms and the painting
      behind it goes; if the banner is cut after its second byte, the budget is used up before it is complete. */
  lemma ArmingMatters(p: seq<byte>)
    requires |p| == FW_PAINT_BUDGET - 2 && 85 !in p
    ensures var b := FW_BANNER + ERASE; var c, d := [p, b], [p + b[..2], b[2..]];
            && Joined(c) == Joined(d) == p + b
            && Arms(c, |p| + |FW_BANNER|, |p|) && RetiresAfter(c, |p| + |FW_BANNER|, |p|, 2)
            && Delivered(c, |p| + |FW_BANNER|, 2) == p + FW_BANNER
            && forall a, w :: !Arms(d, a, w)
  {
    hide FW_BANNER, ERASE, Arms, RetiresAfter, Delivered;
    BannerStart();
    var b := FW_BANNER + ERASE;
    JoinedTwo(p, b);
    JoinedTwo(p + b[..2], b[2..]);
    assert p + b[..2] + b[2..] == p + b;
    ArmsBehind(p, b);
    NeverInTime(p, b);
    BannerIsCleaned(p);
  }

  lemma JoinedTwo(x: seq<byte>, y: seq<byte>)
    ensures Joined([x, y]) == x + y && Joined([x]) == x
  {
    assert [x][..0] == [] && Joined([x]) == [] + x;
    assert [x, y] == [x] + [y];
    JoinedSnoc([x], y);
  }

  lemma ArmsBehind(p: seq<byte>, b: seq<byte>)
    requires |p| == FW_PAINT_BUDGET - 2 && 85 !in p && b == FW_BANNER + ERASE
    ensures Arms([p, b], |p| + |FW_BANNER|, |p|) && RetiresAfter([p, b], |p| + |FW_BANNER|, |p|, 2)
  {
    hide FW_BANNER, ERASE, FirstEnd, Occurs, MustRetire, Joined;
    BannerStart();
    JoinedTwo(p, b);
    BannerAt(p, ERASE);
    NoBannerYet(p, 0);
    assert p + FW_BANNER[..0] == p;
    var c := [p, b];
    assert c[..1] == [p] && c[..2] == c;
  }

  lemma NeverInTime(p: seq<byte>, b: seq<byte>)
    requires |p| == FW_PAINT_BUDGET - 2 && 85 !in p && b == FW_BANNER + ERASE
    ensures forall a, w :: !Arms([p + b[..2], b[2..]], a, w)
  {
    hide FW_BANNER, ERASE;
    BannerStart();
    var x := p + b[..2];
    assert b[..2] == FW_BANNER[..2];
    NoBannerYet(p, 2);
    JoinedTwo(x, b[2..]);
    NoBannerNoArms([x]);
    assert [x, b[2..]] == [x] + [b[2..]];
    NeverArmsStays([x], b[2..]);
  }

  lemma BannerIsCleaned(p: seq<byte>)
    ensures Delivered([p, FW_BANNER + ERASE], |p| + |FW_BANNER|, 2) == p + FW_BANNER
  {
    hide FW_BANNER, ERASE, Shown, Pending, Joined;
    var b, s := FW_BANNER + ERASE, p + (FW_BANNER + ERASE);
    JoinedTwo(p, b);
    assert [p, b][..2] == [p, b];
    var a := |p| + |FW_BANNER|;
    assert s[..a] == p + FW_BANNER && s[a..|s|] == ERASE && s[|s|..] == [];
    EraseIsPainting();
  }

  // ----- the search for a marker that a read may split

  /** `probe` is the end of the watched bytes, long enough to complete any marker that has begun there. */
  ghost predicate IsProbe(probe: seq<byte>, watched: seq<byte>, marker: seq<byte>) {
    && |probe| <= |watched| && probe == watched[|watched| - |probe|..]
    && (|marker| <= |probe| || probe == watched)
  }

  /** An occurrence that ends in the new bytes is seen through the probe, and nothing else is. */
  lemma ProbeSuffices(front: seq<byte>, kept: seq<byte>, chunk: seq<byte>, marker: seq<byte>, i: int)
    requires marker != [] && !Occurs(front + kept, marker)
    requires |marker| <= |kept| || front == []
    ensures OccursAt(front + kept + chunk, marker, i) <==> OccursAt(kept + chunk, marker, i - |front|)
    ensures OccursAt(front + kept + chunk, marker, i) ==> |front + kept| < i + |marker|
  {
    hide Occurs, OccursAt;
    assert front + kept + chunk == front + (kept + chunk);
    if OccursAt(front + kept + chunk, marker, i) { OccursAtInside(front + kept + chunk, marker, i); }
    if OccursAt(kept + chunk, marker, i - |front|) { OccursAtInside(kept + chunk, marker, i - |front|); }
    if |front| <= i { OccursAtShifts(front, kept + chunk, marker, i - |front|); }
    if OccursAt(front + kept + chunk, marker, i) && i + |marker| <= |front + kept| {
      OccursAtRestricts(front + kept, chunk, marker, i);
      OccursMeans(front + kept, marker);
    }
  }

  /** So the first occurrence in the probe is the first one in all that was watched. */
  lemma ProbeOccurs(front: seq<byte>, kept: seq<byte>, chunk: seq<byte>, marker: seq<byte>)
    requires marker != [] && !Occurs(front + kept, marker)
    requires |marker| <= |kept| || front == []
    ensures Occurs(front + kept + chunk, marker) <==> Occurs(kept + chunk, marker)
  {
    var all, probe := front + kept + chunk, kept + chunk;
    OccursMeans(all, marker);
    OccursMeans(probe, marker);
    if i :| OccursAt(probe, marker, i) { ProbeSuffices(front, kept, chunk, marker, |front| + i); }
    if i :| OccursAt(all, marker, i) { ProbeSuffices(front, kept, chunk, marker, i); }
  }

  lemma ProbeFirstEnd(front: seq<byte>, kept: seq<byte>, chunk: seq<byte>, marker: seq<byte>, e: int)
    requires marker != [] && !Occurs(front + kept, marker)
    requires |marker| <= |kept| || front == []
    requires FirstEnd(kept + chunk, marker, e)
    ensures FirstEnd(front + kept + chunk, marker, |front| + e) && |kept| < e <= |kept + chunk|
  {
    hide FirstEnd, Occurs, OccursAt;
    var all, probe := front + kept + chunk, kept + chunk;
    FirstEndMeans(probe, marker, e);
    OccursAtInside(probe, marker, e - |marker|);
    ProbeSuffices(front, kept, chunk, marker, |front| + e - |marker|);
    forall i | OccursAt(all, marker, i) ensures |front| + e - |marker| <= i {
      ProbeSuffices(front, kept, chunk, marker, i);
    }
    FirstEndMeans(all, marker, |front| + e);
  }

  /** The probe may lose its front `cut` bytes, as long as a marker's length remains. */
  lemma TrimmedProbe(probe: seq<byte>, watched: seq<byte>, chunk: seq<byte>, marker: seq<byte>, cut: nat)
    returns (front: seq<byte>, kept: seq<byte>)
    requires IsProbe(probe, watched, marker) && cut <= |probe| && (cut == 0 || |marker| <= |probe| - cut)
    ensures watched == front + kept && (probe + chunk)[cut..] == kept + chunk && |kept| == |probe| - cut
    ensures |marker| <= |kept| || front == []
    ensures IsProbe(kept + chunk, watched + chunk, marker)
  {
    front, kept := watched[..|watched| - (|probe| - cut)], probe[cut..];
    assert watched == front + kept;
  }

  datatype Paint = Disarmed | Armed | Off

  method FindMarker(text: seq<byte>, marker: seq<byte>) returns (at: int)
    requires marker != []
    ensures at == -1 ==> !Occurs(text, marker)
    ensures at != -1 ==> FirstEnd(text, marker, at + |marker|)
  {
    OccursMeans(text, marker);
    at := 0;
    while at + |marker| <= |text|
      invariant 0 <= at
      invariant forall i :: OccursAt(text, marker, i) ==> at <= i
    {
      if text[at..at + |marker|] == marker {
        FirstEndMeans(text, marker, at + |marker|);
        return;
      }
      at := at + 1;
    }
    at := -1;
  }

  /** `out` is what the first `i` bytes of `buf` turn into. */
  ghost predicate ScannedTo(buf: seq<byte>, i: nat, out: seq<byte>) {
    i <= |buf| && Shown(buf) == out + Shown(buf[i..]) && Pending(buf) == Pending(buf[i..])
  }

  lemma StepOverByte(buf: seq<byte>, i: nat, out: seq<byte>)
    requires ScannedTo(buf, i, out) && i < |buf| && (buf[i] != ESC || Scanned(buf[i..]).NotCsi?)
    ensures ScannedTo(buf, i + 1, out + [buf[i]])
  {
    hide Scanned;
    assert buf[i..][1..] == buf[i + 1..];
    var rest := Shown(buf[i + 1..]);
    assert out + ([buf[i]] + rest) == out + [buf[i]] + rest;
  }

  lemma StepOverSequence(buf: seq<byte>, i: nat, out: seq<byte>, len: nat, final: byte)
    requires ScannedTo(buf, i, out) && i < |buf| && buf[i] == ESC && Scanned(buf[i..]) == Complete(len, final)
    ensures 1 <= len && i + len <= |buf|
    ensures ScannedTo(buf, i + len, if IsPaint(final) then out else out + buf[i..i + len])
  {
    hide Scanned;
    var s := buf[i..];
    var f := Front(s).value;
    assert f.1 == len;
    assert s[len..] == buf[i + len..];
    var rest := Shown(s[len..]);
    assert Shown(buf) == out + (f.0 + rest);
    if IsPaint(final) {
      assert f.0 + rest == rest;
    } else {
      assert f.0 == s[..len] == buf[i..i + len];
      assert out + (f.0 + rest) == out + f.0 + rest;
    }
  }

  lemma ScanStops(s: seq<byte>)
    requires s != [] && s[0] == ESC && Scanned(s).Partial?
    ensures Shown(s) == [] && Pending(s) == s
  {
  }

  /** The bytes of `buf` that are decided, stripped of painting, and the ones held back. */
  method ScanBuffer(buf: seq<byte>) returns (out: seq<byte>, carry: seq<byte>)
    ensures out == Shown(buf) && carry == Pending(buf)
  {
    hide Scanned, Front;
    out, carry := [], [];
    var i := 0;
    assert buf[0..] == buf;
    while i < |buf|
      invariant ScannedTo(buf, i, out)
    {
      assert buf[i..] != [] && buf[i..][0] == buf[i];
      if buf[i] != ESC {
        StepOverByte(buf, i, out);
        out := out + [buf[i]];
        i := i + 1;
      } else {
        var scan := ParseCsi(buf[i..]);
        match scan {
          case Complete(len, final) =>
            StepOverSequence(buf, i, out, len, final);
            out := if IsPaint(final) then out else out + buf[i..i + len];
            i := i + len;
          case Partial =>
            ScanStops(buf[i..]);
            carry := buf[i..];
            return;
          case NotCsi =>
            StepOverByte(buf, i, out);
            out := out + [buf[i]];
            i := i + 1;
        }
      }
    }
  }

  // ----- the three states, each tied to the reads so far

  ghost predicate Listening(chunks: seq<seq<byte>>, emitted: seq<byte>, probe: seq<byte>) {
    && emitted == Joined(chunks) && !Occurs(Joined(chunks), FW_BANNER)
    && IsProbe(probe, Joined(chunks), FW_BANNER)
  }

  ghost predicate Stripping(chunks: seq<seq<byte>>, emitted: seq<byte>, carry: seq<byte>, probe: seq<byte>, a: nat, w: nat) {
    && Arms(chunks, a, w) && w <= a <= |Joined(chunks)| && Quiet(chunks, a, w)
    && emitted == Joined(chunks)[..a] + Shown(Joined(chunks)[a..])
    && carry == Pending(Joined(chunks)[a..])
    && IsProbe(probe, Watched(Joined(chunks), a, w), HANDOFF_ANCHOR)
  }

  /** Retired after `n` reads, having been armed. */
  ghost predicate Retired(chunks: seq<seq<byte>>, emitted: seq<byte>, a: nat, w: nat, n: nat) {
    && Arms(chunks, a, w) && RetiresAfter(chunks, a, w, n) && MustRetire(Joined(chunks[..n]), a, w)
    && |Joined(chunks[..n])| <= |Joined(chunks)|
    && emitted == Cleaned(Joined(chunks), a, |Joined(chunks[..n])|)
  }

  /** Retired without ever having been armed. */
  ghost predicate GaveUp(chunks: seq<seq<byte>>, emitted: seq<byte>) {
    |Joined(chunks)| >= FW_PAINT_BUDGET && (forall a, w :: !Arms(chunks, a, w)) && emitted == Joined(chunks)
  }

  // ----- what one read does in each state

  lemma Arming(chunks: seq<seq<byte>>, data: seq<byte>, at: nat)
    requires !Occurs(Joined(chunks), FW_BANNER) && |Joined(chunks)| < FW_PAINT_BUDGET
    requires 0 < at <= |data| && FirstEnd(Joined(chunks) + data, FW_BANNER, |Joined(chunks)| + at)
    ensures Arms(chunks + [data], |Joined(chunks)| + at, |Joined(chunks)|)
    ensures Quiet(chunks, |Joined(chunks)| + at, |Joined(chunks)|)
  {
    JoinedSnoc(chunks, data);
    assert (chunks + [data])[..|chunks|] == chunks;
  }

  lemma ResumeBehind(head: seq<byte>, body: seq<byte>, data: seq<byte>)
    ensures head + Shown(body) + Shown(Pending(body) + data) == head + Shown(body + data)
    ensures Pending(body + data) == Pending(Pending(body) + data)
  {
    ScanResumes(body, data);
    Regroup(head, Shown(body), Shown(Pending(body) + data));
  }

  /** More input behind `s`: the pending bytes are taken up again. */
  lemma ShownGrows(s: seq<byte>, data: seq<byte>, a: nat, w: nat)
    requires w <= a <= |s|
    ensures var more := Shown(Pending(s[a..]) + data);
            && s[..a] + Shown(s[a..]) + more == (s + data)[..a] + Shown((s + data)[a..])
            && Watched(s + data, a, w) == Watched(s, a, w) + more
    ensures Pending((s + data)[a..]) == Pending(Pending(s[a..]) + data)
  {
    assert (s + data)[a..] == s[a..] + data;
    assert (s + data)[..a] == s[..a];
    assert (s + data)[w..a] == s[w..a];
    ResumeBehind(s[..a], s[a..], data);
    ResumeBehind(s[w..a], s[a..], data);
  }

  lemma EmptyHead(x: seq<byte>)
    ensures [] + x == x
  {
  }

  /** A read that completes the banner at offset `at`: the rest of it is stripped at once. */
  lemma ArmedMidRead(s: seq<byte>, data: seq<byte>, at: nat)
    requires at <= |data|
    ensures var t, a := s + data, |s| + at; var out := data[..at] + Shown([] + data[at..]);
            && Pending([] + data[at..]) == Pending(t[a..])
            && Watched(t, a, |s|) == [] + out
            && s + out == t[..a] + Shown(t[a..])
    ensures IsProbe([], [], HANDOFF_ANCHOR) && !Occurs([], HANDOFF_ANCHOR)
  {
    var t, a := s + data, |s| + at;
    EmptyHead(data[at..]);
    assert t[a..] == data[at..] && t[|s|..a] == data[..at] && t[..a] == s + data[..at];
    Regroup(s, data[..at], Shown(data[at..]));
    EmptyHead(data[..at] + Shown(data[at..]));
  }

  lemma KeepsStripping(chunks: seq<seq<byte>>, emitted: seq<byte>, carry: seq<byte>, probe: seq<byte>, a: nat, w: nat)
    requires Arms(chunks, a, w) && w <= a <= |Joined(chunks)| < FW_PAINT_BUDGET
    requires Quiet(chunks[..|chunks| - 1], a, w) && !Occurs(Watched(Joined(chunks), a, w), HANDOFF_ANCHOR)
    requires emitted == Joined(chunks)[..a] + Shown(Joined(chunks)[a..])
    requires carry == Pending(Joined(chunks)[a..])
    requires IsProbe(probe, Watched(Joined(chunks), a, w), HANDOFF_ANCHOR)
    ensures Stripping(chunks, emitted, carry, probe, a, w) && |carry| <= |Joined(chunks)|
  {
  }

  lemma RetiresNow(chunks: seq<seq<byte>>, emitted: seq<byte>, carry: seq<byte>, a: nat, w: nat)
    requires Arms(chunks, a, w) && w <= a <= |Joined(chunks)|
    requires Quiet(chunks[..|chunks| - 1], a, w)
    requires |Joined(chunks)| >= FW_PAINT_BUDGET || Occurs(Watched(Joined(chunks), a, w), HANDOFF_ANCHOR)
    requires emitted == Joined(chunks)[..a] + Shown(Joined(chunks)[a..])
    requires carry == Pending(Joined(chunks)[a..])
    ensures Retired(chunks, emitted + carry, a, w, |chunks|)
  {
    assert chunks[..|chunks|] == chunks;
    CleanedToTheEnd(Joined(chunks), a);
  }

  /** A filter still armed when the reads end. */
  lemma RetiresLast(chunks: seq<seq<byte>>, emitted: seq<byte>, carry: seq<byte>, probe: seq<byte>, a: nat, w: nat)
    requires Stripping(chunks, emitted, carry, probe, a, w)
    ensures Arms(chunks, a, w) && RetiresAfter(chunks, a, w, |chunks|)
    ensures emitted + carry == Delivered(chunks, a, |chunks|)
  {
    assert chunks[..|chunks|] == chunks;
    CleanedToTheEnd(Joined(chunks), a);
  }

  lemma ArmedOutcome(chunks: seq<seq<byte>>, out: seq<byte>, a: nat, w: nat, n: nat)
    requires Arms(chunks, a, w) && RetiresAfter(chunks, a, w, n) && out == Delivered(chunks, a, n)
    ensures Outcome(chunks, out)
  {
  }

  lemma UnarmedOutcome(chunks: seq<seq<byte>>, out: seq<byte>)
    requires (forall a, w :: !Arms(chunks, a, w)) && out == Joined(chunks)
    ensures Outcome(chunks, out)
  {
  }

  lemma StripOn(chunks: seq<seq<byte>>, data: seq<byte>, emitted: seq<byte>, carry: seq<byte>, probe: seq<byte>,
                a: nat, w: nat)
    requires Stripping(chunks, emitted, carry, probe, a, w)
    ensures var s := Joined(chunks + [data]);
            && a <= |s|
            && emitted + Shown(carry + data) == s[..a] + Shown(s[a..])
            && Pending(carry + data) == Pending(s[a..])
            && w <= a && Watched(s, a, w) == Watched(Joined(chunks), a, w) + Shown(carry + data)
    ensures a <= |Joined(chunks)| && !Occurs(Watched(Joined(chunks), a, w), HANDOFF_ANCHOR)
    ensures IsProbe(probe, Watched(Joined(chunks), a, w), HANDOFF_ANCHOR)
    ensures Arms(chunks + [data], a, w) && Quiet(chunks, a, w)
  {
    JoinedSnoc(chunks, data);
    ShownGrows(Joined(chunks), data, a, w);
    ArmsStays(chunks, data, a, w);
  }

  lemma CleanedToTheEnd(s: seq<byte>, a: nat)
    requires a <= |s|
    ensures Cleaned(s, a, |s|) == s[..a] + Shown(s[a..]) + Pending(s[a..])
  {
    var body := s[a..];
    assert s[a..|s|] == body;
    assert s[|s|..] == [];
    var u := Unpainted(body);
    assert s[..a] + u + [] == s[..a] + u;
    assert s[..a] + (Shown(body) + Pending(body)) == s[..a] + Shown(body) + Pending(body);
  }

  lemma CleanedGrows(s: seq<byte>, data: seq<byte>, a: nat, k: nat)
    requires a <= k <= |s|
    ensures Cleaned(s + data, a, k) == Cleaned(s, a, k) + data
  {
    var t := s + data;
    assert t[..a] == s[..a] && t[a..k] == s[a..k] && t[k..] == s[k..] + data;
  }

  lemma StayRetired(chunks: seq<seq<byte>>, data: seq<byte>, emitted: seq<byte>, a: nat, w: nat, n: nat)
    requires Retired(chunks, emitted, a, w, n)
    ensures Retired(chunks + [data], emitted + data, a, w, n)
  {
    JoinedSnoc(chunks, data);
    ArmsStays(chunks, data, a, w);
    assert (chunks + [data])[..n] == chunks[..n] && (chunks + [data])[..n - 1] == chunks[..n - 1];
    CleanedGrows(Joined(chunks), data, a, |Joined(chunks[..n])|);
  }

  // ----- the filter

  class FirmwarePaintFilter {
    var state: Paint
    var carry: seq<byte>
    var probe: seq<byte>
    var seen: nat
    ghost var chunks: seq<seq<byte>>  // every read fed so far
    ghost var emitted: seq<byte>      // every byte handed on so far
    ghost var armed: bool             // the banner was found in time
    ghost var a: nat                  // where the banner ends,
    ghost var w: nat                  // where the read that completed it starts,
    ghost var n: nat                  // and after how many reads the filter retired

    ghost predicate Valid()
      reads this
    {
      && seen == |Joined(chunks)|
      && (state != Off ==> seen < FW_PAINT_BUDGET && |carry| <= seen)
      && match state
         case Disarmed => !armed && carry == [] && Listening(chunks, emitted, probe)
         case Armed => armed && Stripping(chunks, emitted, carry, probe, a, w)
         case Off => carry == [] && if armed then Retired(chunks, emitted, a, w, n) else GaveUp(chunks, emitted)
    }

    constructor ()
      ensures Valid() && chunks == [] && emitted == [] && state == Disarmed
    {
      state, carry, probe, seen := Disarmed, [], [], 0;
      chunks, emitted, armed := [], [], false;
    }

    /** Looks for `marker` in everything watched so far and the new bytes: it is reported in the call that
        completes its first occurrence, at that occurrence's true end, wherever the reads were cut. */
    method Saw(chunk: seq<byte>, marker: seq<byte>, ghost watched: seq<byte>) returns (at: Option<nat>)
      requires marker != [] && IsProbe(probe, watched, marker) && !Occurs(watched, marker)
      modifies this`probe
      ensures at.None? <==> !Occurs(watched + chunk, marker)
      ensures at.None? ==> IsProbe(probe, watched + chunk, marker)
      ensures at.Some? ==> 0 < at.value <= |chunk| && FirstEnd(watched + chunk, marker, |watched| + at.value)
      ensures |probe| <= |chunk| + |marker|
    {
      hide FirstEnd, Occurs, IsProbe;
      var carried := |probe|;
      var cut := carried + |chunk| - (|chunk| + |marker|);
      if cut < 0 { cut := 0; }
      ghost var front, kept := TrimmedProbe(probe, watched, chunk, marker, cut);
      probe := (probe + chunk)[cut..];
      ProbeOccurs(front, kept, chunk, marker);
      var found := FindMarker(probe, marker);
      if found == -1 { return None; }
      ProbeFirstEnd(front, kept, chunk, marker, found + |marker|);
      FirstEndOccurs(watched + chunk, marker, |front| + found + |marker|);
      return Some(found + |marker| - (carried - cut));
    }

    /** One read. States only move from Disarmed to Armed to Off, and Off is the identity. */
    method Feed(data: seq<byte>) returns (out: seq<byte>)
      requires Valid()
      modifies this
      ensures Valid()
      ensures chunks == old(chunks) + [data] && emitted == old(emitted) + out
      ensures old(state) == Armed ==> state != Disarmed
      ensures old(state) == Off ==> state == Off && out == data
      ensures state != Off ==> |Joined(chunks)| < 8192
      ensures old(state) == Disarmed && state == Disarmed ==> out == data
    {
      hide FW_BANNER, HANDOFF_ANCHOR, Arms, Quiet, Joined, Shown, Pending, Watched, FirstEnd, Occurs, IsProbe;
      hide MustRetire, Cleaned, Stripping, Retired;
      MarkersAreNotEmpty();
      ghost var past := chunks;
      JoinedSnoc(past, data);
      assert (past + [data])[..|past + [data]| - 1] == past;
      chunks := past + [data];
      seen := seen + |data|;
      if state == Off {
        if armed { StayRetired(past, data, emitted, a, w, n); } else { NeverArmsStays(past, data); }
        emitted := emitted + data;
        return data;
      }
      var head, body := [], data;
      ghost var watched := [];
      if state == Disarmed {
        var at := Saw(data, FW_BANNER, Joined(past));
        if at.None? {
          emitted := emitted + data;
          if seen >= FW_PAINT_BUDGET {
            state, probe := Off, [];
            NoBannerNoArms(chunks);
          }
          return data;
        }
        Arming(past, data, at.value);
        state, probe := Armed, [];
        head, body := data[..at.value], data[at.value..];
        armed, a, w := true, |Joined(past)| + at.value, |Joined(past)|;
        ArmedMidRead(Joined(past), data, at.value);
      } else {
        StripOn(past, data, emitted, carry, probe, a, w);
        watched := Watched(Joined(past), a, w);
        EmptyHead(Shown(carry + body));
      }
      out := StripRead(head, body, watched);
    }

    /** The armed half of a read: strip `body` behind the carry, put `head` in front, and retire if there is a reason to. */
    method StripRead(head: seq<byte>, body: seq<byte>, ghost watched: seq<byte>) returns (out: seq<byte>)
      requires state == Armed && armed && chunks != [] && seen == |Joined(chunks)| && w <= a <= seen
      requires Arms(chunks, a, w) && Quiet(chunks[..|chunks| - 1], a, w)
      requires emitted + (head + Shown(carry + body)) == Joined(chunks)[..a] + Shown(Joined(chunks)[a..])
      requires Pending(carry + body) == Pending(Joined(chunks)[a..])
      requires Watched(Joined(chunks), a, w) == watched + (head + Shown(carry + body))
      requires IsProbe(probe, watched, HANDOFF_ANCHOR) && !Occurs(watched, HANDOFF_ANCHOR)
      modifies this
      ensures Valid() && state != Disarmed && chunks == old(chunks)
      ensures emitted == old(emitted) + out
    {
      hide FW_BANNER, HANDOFF_ANCHOR, Arms, Quiet, Joined, Shown, Pending, Watched, FirstEnd, Occurs, IsProbe;
      hide MustRetire, Cleaned, Stripping, Retired, GaveUp, Listening;
      MarkersAreNotEmpty();
      out, carry := ScanBuffer(carry + body);
      out := head + out;
      assert watched + out == Watched(Joined(chunks), a, w);
      var handoff := Saw(out, HANDOFF_ANCHOR, watched);
      emitted := emitted + out;
      if handoff.Some? || seen >= FW_PAINT_BUDGET {
        RetiresNow(chunks, emitted, carry, a, w);
        assert old(emitted) + (out + carry) == emitted + carry;
        out, emitted, n := out + carry, emitted + carry, |chunks|;
        state, carry, probe := Off, [], [];
      } else {
        KeepsStripping(chunks, emitted, carry, probe, a, w);
      }
    }

    /** Releases what is held back. All that was put out is then the whole law over all that came in. */
    method Flush() returns (out: seq<byte>)
      requires Valid()
      modifies this
      ensures chunks == old(chunks) && carry == [] && armed == old(armed) && a == old(a) && w == old(w)
      ensures emitted == old(emitted) + out
      ensures armed ==> Arms(chunks, a, w) && RetiresAfter(chunks, a, w, n)
      ensures armed ==> emitted == Delivered(chunks, a, n)
      ensures !armed ==> (forall a, w :: !Arms(chunks, a, w)) && emitted == Joined(chunks)
      ensures Outcome(chunks, emitted)
    {
      hide Joined, Arms, Quiet, MustRetire, Shown, Pending, Cleaned, Occurs, IsProbe, Outcome;
      out := carry;
      carry := [];
      emitted := emitted + out;
      if state == Armed {
        n := |chunks|;
        RetiresLast(chunks, old(emitted), old(carry), probe, a, w);
      } else if state == Disarmed {
        NoBannerNoArms(chunks);
      }
      if armed { ArmedOutcome(chunks, emitted, a, w, n); } else { UnarmedOutcome(chunks, emitted); }
    }
  }

  /** A filter armed at `a` that has retired after `n` reads has put out everything that the law says. */
  ghost predicate IsPast(chunks: seq<seq<byte>>, out: seq<byte>, a: nat, w: nat, n: nat) {
    && Arms(chunks, a, w) && RetiresAfter(chunks, a, w, n) && MustRetire(Joined(chunks[..n]), a, w)
    && out == Delivered(chunks, a, n)
  }

  /** A filter armed at `a` that has had no reason to retire has put out all but a sequence that is not finished. */
  ghost predicate IsMidway(chunks: seq<seq<byte>>, out: seq<byte>, a: nat, w: nat) {
    && Arms(chunks, a, w) && w <= a <= |Joined(chunks)| && Quiet(chunks, a, w)
    && out == Joined(chunks)[..a] + Shown(Joined(chunks)[a..])
  }

  /** `out` is what a filter has put out so far; before it arms, those are the reads as they came. */
  ghost predicate Underway(chunks: seq<seq<byte>>, out: seq<byte>) {
    || (exists a, w, n :: IsPast(chunks, out, a, w, n))
    || (exists a, w :: IsMidway(chunks, out, a, w))
    || ((forall a, w :: !Arms(chunks, a, w)) && out == Joined(chunks))
  }

  lemma FilterIsUnderway(filter: FirmwarePaintFilter)
    requires filter.Valid()
    ensures Underway(filter.chunks, filter.emitted)
  {
    hide Joined, Arms, Quiet, MustRetire, Shown, Pending, Cleaned, Occurs, IsProbe;
    if filter.state == Disarmed {
      NoBannerNoArms(filter.chunks);
    } else if filter.state == Armed {
      assert IsMidway(filter.chunks, filter.emitted, filter.a, filter.w);
    } else if filter.armed {
      assert IsPast(filter.chunks, filter.emitted, filter.a, filter.w, filter.n);
    }
  }

  lemma {:induction false} PendingIsUnfinished(s: seq<byte>)
    ensures Pending(s) == [] || Unfinished(Pending(s))
    decreases |s|
  {
    hide Unfinished, NeverCsi, StartsCsi;
    if s != [] {
      if Front(s).None? { ScannedMeans(s); } else { PendingIsUnfinished(s[Front(s).value.1..]); }
    }
  }

  /** What has been put out at any time lacks nothing of the outcome but an unfinished sequence at its end. */
  lemma UnderwayLacksASequence(chunks: seq<seq<byte>>, out: seq<byte>) returns (held: seq<byte>)
    requires Underway(chunks, out)
    ensures (held == [] || Unfinished(held)) && Outcome(chunks, out + held)
  {
    hide Joined, Arms, Quiet, MustRetire, Shown, Pending, Cleaned, Occurs, Unfinished;
    held := [];
    assert out + [] == out;
    if a: nat, w: nat, n: nat :| IsPast(chunks, out, a, w, n) {
      ArmedOutcome(chunks, out, a, w, n);
    } else if a: nat, w: nat :| IsMidway(chunks, out, a, w) {
      held := Pending(Joined(chunks)[a..]);
      PendingIsUnfinished(Joined(chunks)[a..]);
      RetiresLast(chunks, out, held, Watched(Joined(chunks), a, w), a, w);
      ArmedOutcome(chunks, out + held, a, w, |chunks|);
    } else {
      UnarmedOutcome(chunks, out);
    }
  }

  /** The whole life of a filter: every read in turn, then the flush. */
  method Painted(chunks: seq<seq<byte>>)
    returns (out: seq<byte>, ghost armed: bool, ghost a: nat, ghost w: nat, ghost n: nat)
    ensures !armed ==> forall a', w' :: !Arms(chunks, a', w')
    ensures armed ==> Arms(chunks, a, w) && RetiresAfter(chunks, a, w, n)
    ensures forall a', w', n' :: Arms(chunks, a', w') && RetiresAfter(chunks, a', w', n') ==> out == Delivered(chunks, a', n')
    ensures (forall a', w' :: !Arms(chunks, a', w')) ==> out == Joined(chunks)
    ensures !Occurs(Joined(chunks), FW_BANNER) ==> out == Joined(chunks)
  {
    hide Arms, Joined, Quiet, MustRetire, Delivered, Listening, Stripping, Retired, GaveUp;
    var filter := new FirmwarePaintFilter();
    out := [];
    for r := 0 to |chunks|
      invariant filter.Valid() && fresh(filter)
      invariant filter.chunks == chunks[..r] && filter.emitted == out
    {
      var more := filter.Feed(chunks[r]);
      assert chunks[..r + 1] == chunks[..r] + [chunks[r]];
      out := out + more;
    }
    assert chunks[..|chunks|] == chunks;
    var rest := filter.Flush();
    out := out + rest;
    armed, a, w, n := filter.armed, filter.a, filter.w, filter.n;
    forall a', w', n' | Arms(chunks, a', w') && RetiresAfter(chunks, a', w', n')
      ensures out == Delivered(chunks, a', n')
    {
      OneFate(chunks, a, w, n, a', w', n');
    }
    if !Occurs(Joined(chunks), FW_BANNER) { NoBannerNoArms(chunks); }
  }
}
