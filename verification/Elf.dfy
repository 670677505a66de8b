/** Kernel images: flattening an ELF executable into a raw image, and the shim that makes up for a loader
    that enters a raw image at a fixed address. */
module Elf {
  import opened Streams
  import opened Wrappers
  import Codec = ExecCodec

  const TWO64: nat := 0x1_0000_0000_0000_0000
  const ELF_MAGIC: seq<byte> := [0x7f, 0x45, 0x4c, 0x46]
  const ARM64_MAGIC: seq<byte> := [0x41, 0x52, 0x4d, 0x64]
  const PT_LOAD: nat := 1

  datatype Result<T, E> = Ok(value: T) | Err(error: E)

  datatype ElfError =
    | NotElf | Not64Bit | NotLittleEndian | BadEntrySize | TruncatedHeaders | SegmentPastEnd | NoLoads | NoMagic
    | Overflow                        // an address or offset sum does not fit 64 bits

  // ----- little-endian fields

  function U16(s: seq<byte>, off: nat): nat
    requires off + 2 <= |s|
  {
    s[off] + 0x100 * (s[off + 1] as int)
  }

  function U32(s: seq<byte>, off: nat): nat
    requires off + 4 <= |s|
  {
    Codec.FromLe32(s[off..off + 4])
  }

  function U64(s: seq<byte>, off: nat): (n: nat)
    requires off + 8 <= |s|
    ensures n < TWO64
  {
    U32(s, off) + Codec.TWO32 * U32(s, off + 4)
  }

  /** The number that little-endian bytes stand for. */
  function Number(s: seq<byte>): nat { if s == [] then 0 else s[0] + 0x100 * Number(s[1..]) }

  lemma NumberStep(s: seq<byte>, off: nat, k: nat)
    requires off + k < |s|
    ensures Number(s[off..off + k + 1]) == s[off] + 0x100 * Number(s[off + 1..off + 1 + k])
  {
    assert s[off..off + k + 1][1..] == s[off + 1..off + 1 + k];
  }

  lemma NumberCons(a: byte, s: seq<byte>)
    ensures Number([a] + s) == a + 0x100 * Number(s)
  {
    assert ([a] + s)[1..] == s;
  }

  lemma NumberOfFour(a: seq<byte>, more: seq<byte>)
    requires |a| == 4
    ensures Number(a + more) == Codec.FromLe32(a) + Codec.TWO32 * Number(more)
  {
    hide Number;
    NumberCons(a[3], more);
    NumberCons(a[2], [a[3]] + more);
    NumberCons(a[1], [a[2]] + ([a[3]] + more));
    NumberCons(a[0], [a[1]] + ([a[2]] + ([a[3]] + more)));
    assert a + more == [a[0]] + ([a[1]] + ([a[2]] + ([a[3]] + more)));
  }

  lemma FieldsAreNumbers(s: seq<byte>, off: nat)
    ensures off + 2 <= |s| ==> U16(s, off) == Number(s[off..off + 2])
    ensures off + 4 <= |s| ==> U32(s, off) == Number(s[off..off + 4])
    ensures off + 8 <= |s| ==> U64(s, off) == Number(s[off..off + 8])
  {
    hide Codec.FromLe32;
    if off + 2 <= |s| {
      NumberStep(s, off, 1);
      NumberStep(s, off + 1, 0);
    }
    if off + 4 <= |s| {
      NumberOfFour(s[off..off + 4], []);
      assert s[off..off + 4] + [] == s[off..off + 4];
    }
    if off + 8 <= |s| {
      NumberOfFour(s[off + 4..off + 8], []);
      assert s[off + 4..off + 8] + [] == s[off + 4..off + 8];
      NumberOfFour(s[off..off + 4], s[off + 4..off + 8]);
      assert s[off..off + 8] == s[off..off + 4] + s[off + 4..off + 8];
    }
  }

  // ----- program headers

  /** A segment with file bytes, and the physical addresses they go to. */
  datatype Load = Load(paddr: nat, offset: nat, filesz: nat) {
    function End(): nat { paddr + filesz }

    predicate Covers(p: nat) { paddr <= p < End() }

    predicate InFile(elf: seq<byte>) { 0 < filesz && offset + filesz <= |elf| }
  }

  datatype Header = Ignored | Segment(load: Load) | Bad(error: ElfError)

  function EntryOffset(start: nat, size: nat, i: nat): nat { start + i * size }

  function HeaderOffset(elf: seq<byte>, i: nat): nat
    requires |elf| >= 64
  {
    EntryOffset(U64(elf, 0x20), U16(elf, 0x36), i)
  }

  function LoadAt(elf: seq<byte>, ph: nat): Load
    requires ph + 56 <= |elf|
  {
    Load(U64(elf, ph + 0x18), U64(elf, ph + 0x08), U64(elf, ph + 0x20))
  }

  function HeaderAt(elf: seq<byte>, i: nat): (h: Header)
    requires |elf| >= 64
    ensures h.Segment? ==> h.load.InFile(elf)
  {
    var ph := HeaderOffset(elf, i);
    if ph + 56 >= TWO64 then Bad(Overflow)
    else if ph + 56 > |elf| then Bad(TruncatedHeaders)
    else if U32(elf, ph) != PT_LOAD then Ignored
    else
      var load := LoadAt(elf, ph);
      if load.filesz == 0 then Ignored
      else if load.offset + load.filesz >= TWO64 then Bad(Overflow)
      else if load.offset + load.filesz > |elf| then Bad(SegmentPastEnd)
      else Segment(load)
  }

  /** The segments of the first `n` headers in header order, or what is wrong with the first bad one. */
  function LoadsIn(elf: seq<byte>, n: nat): (r: Result<seq<Load>, ElfError>)
    requires |elf| >= 64
    ensures r.Ok? ==> AllInFile(elf, r.value)
  {
    if n == 0 then Ok([])
    else match LoadsIn(elf, n - 1)
      case Err(e) => Err(e)
      case Ok(loads) =>
        match HeaderAt(elf, n - 1)
        case Bad(e) => Err(e)
        case Ignored => Ok(loads)
        case Segment(l) => Ok(loads + [l])
  }

  /** What a header comes to, in terms of the bytes of the file. */
  lemma HeaderMeans(elf: seq<byte>, i: nat)
    requires |elf| >= 64
    ensures var ph := Number(elf[0x20..0x28]) + i * Number(elf[0x36..0x38]);
            && (HeaderAt(elf, i) == Bad(TruncatedHeaders) <==> |elf| < ph + 56 < TWO64)
            && (ph + 56 >= TWO64 ==> HeaderAt(elf, i) == Bad(Overflow))
            && (ph + 56 <= |elf| && ph + 56 < TWO64 ==>
                  var kind, offset := Number(elf[ph..ph + 4]), Number(elf[ph + 8..ph + 16]);
                  var paddr, filesz := Number(elf[ph + 24..ph + 32]), Number(elf[ph + 32..ph + 40]);
                  && (HeaderAt(elf, i) == Ignored <==> kind != 1 || filesz == 0)
                  && (kind == 1 && filesz > 0 ==>
                        && (HeaderAt(elf, i) == Segment(Load(paddr, offset, filesz)) <==>
                              offset + filesz <= |elf| && offset + filesz < TWO64)
                        && (HeaderAt(elf, i) == Bad(SegmentPastEnd) <==> |elf| < offset + filesz < TWO64)
                        && (HeaderAt(elf, i) == Bad(Overflow) <==> offset + filesz >= TWO64)))
  {
    hide U16, U32, U64, Number;
    FieldsAreNumbers(elf, 0x20);
    FieldsAreNumbers(elf, 0x36);
    var ph := HeaderOffset(elf, i);
    FieldsAreNumbers(elf, ph);
    FieldsAreNumbers(elf, ph + 8);
    FieldsAreNumbers(elf, ph + 24);
    FieldsAreNumbers(elf, ph + 32);
  }

  predicate AllInFile(elf: seq<byte>, loads: seq<Load>) {
    forall i :: 0 <= i < |loads| ==> loads[i].InFile(elf)
  }

  lemma {:induction false} LoadsInMeans(elf: seq<byte>, n: nat)
    requires |elf| >= 64
    ensures LoadsIn(elf, n).Ok? <==> forall i: nat :: i < n ==> !HeaderAt(elf, i).Bad?
    ensures LoadsIn(elf, n).Ok? ==>
              forall l :: l in LoadsIn(elf, n).value <==> exists i: nat :: i < n && HeaderAt(elf, i) == Segment(l)
    ensures forall e :: LoadsIn(elf, n) == Err(e) <==>
              exists i: nat :: i < n && HeaderAt(elf, i) == Bad(e) && forall k: nat :: k < i ==> !HeaderAt(elf, k).Bad?
  {
    hide HeaderAt;
    if n > 0 { LoadsInMeans(elf, n - 1); }
  }

  // ----- memory: zeros, with the segments stored one after the other

  /** The byte at physical address `p` once the segments have been stored, in order, over zeros. */
  function ByteAt(elf: seq<byte>, loads: seq<Load>, p: nat): byte
    requires AllInFile(elf, loads)
  {
    if loads == [] then 0
    else
      var l := loads[|loads| - 1];
      if l.Covers(p) then elf[l.offset + (p - l.paddr)] else ByteAt(elf, loads[..|loads| - 1], p)
  }

  function Base(loads: seq<Load>): (b: nat)
    requires loads != []
    ensures (forall l <- loads :: b <= l.paddr) && exists l <- loads :: b == l.paddr
  {
    var l := loads[|loads| - 1];
    if |loads| == 1 then assert l in loads; l.paddr
    else
      var b := Base(loads[..|loads| - 1]);
      assert loads == loads[..|loads| - 1] + [l];
      if l.paddr < b then l.paddr else b
  }

  function End(loads: seq<Load>): (e: nat)
    requires loads != []
    ensures (forall l <- loads :: l.End() <= e) && exists l <- loads :: e == l.End()
  {
    var l := loads[|loads| - 1];
    if |loads| == 1 then assert l in loads; l.End()
    else
      var e := End(loads[..|loads| - 1]);
      assert loads == loads[..|loads| - 1] + [l];
      if l.End() > e then l.End() else e
  }

  lemma BaseBelowEnd(loads: seq<Load>)
    requires loads != []
    ensures Base(loads) <= End(loads)
  {
    var l := loads[0];
    assert Base(loads) <= l.paddr && l.End() <= End(loads);
  }

  /** Memory from the lowest loaded address to the highest. */
  function Memory(elf: seq<byte>, loads: seq<Load>): (m: seq<byte>)
    requires loads != [] && AllInFile(elf, loads)
    ensures |m| == End(loads) - Base(loads)
    ensures forall k :: 0 <= k < |m| ==> m[k] == ByteAt(elf, loads, Base(loads) + k)
  {
    BaseBelowEnd(loads);
    seq<byte>(End(loads) - Base(loads), k requires 0 <= k => ByteAt(elf, loads, Base(loads) + k))
  }

  // ----- flattening

  predicate IsElf(bytes: seq<byte>) { ELF_MAGIC <= bytes }

  predicate IsArm64Image(bytes: seq<byte>) { |bytes| >= 0x3c && bytes[0x38..0x3c] == ARM64_MAGIC }

  /** What a conversion must give: the memory the segments describe, if it holds an arm64 kernel. */
  function Flattened(elf: seq<byte>): Result<seq<byte>, ElfError> {
    if |elf| < 64 || !IsElf(elf) then Err(NotElf)
    else if elf[4] != 2 then Err(Not64Bit)
    else if elf[5] != 1 then Err(NotLittleEndian)
    else if U16(elf, 0x36) < 56 then Err(BadEntrySize)
    else match LoadsIn(elf, U16(elf, 0x38))
      case Err(e) => Err(e)
      case Ok(loads) =>
        if loads == [] then Err(NoLoads)
        else if End(loads) >= TWO64 then Err(Overflow)
        else
          var image := Memory(elf, loads);
          if |image| < 0x40 || !IsArm64Image(image) then Err(NoMagic) else Ok(image)
  }

  method ElfToImage(elf: seq<byte>) returns (r: Result<seq<byte>, ElfError>)
    ensures r == Flattened(elf)
  {
    hide HeaderAt, HeaderOffset, U16, U32, U64, Base, End, Memory, ByteAt;
    if |elf| < 64 || elf[..4] != ELF_MAGIC {
      NoMagicNoElf(elf);
      return Err(NotElf);
    }
    if elf[4] != 2 { return Err(Not64Bit); }
    if elf[5] != 1 { return Err(NotLittleEndian); }
    if U16(elf, 0x36) < 56 { return Err(BadEntrySize); }
    var loads: seq<Load> := [];
    for i := 0 to U16(elf, 0x38)
      invariant LoadsIn(elf, i) == Ok(loads)
    {
      var ph := HeaderOffset(elf, i);
      HeaderIs(elf, i, ph);
      if ph + 56 >= TWO64 { BadHeader(elf, i, U16(elf, 0x38)); return Err(Overflow); }
      if ph + 56 > |elf| { BadHeader(elf, i, U16(elf, 0x38)); return Err(TruncatedHeaders); }
      if U32(elf, ph) != PT_LOAD { continue; }
      var offset, paddr, filesz := U64(elf, ph + 0x08), U64(elf, ph + 0x18), U64(elf, ph + 0x20);
      if filesz == 0 { continue; }
      if offset + filesz >= TWO64 { BadHeader(elf, i, U16(elf, 0x38)); return Err(Overflow); }
      if offset + filesz > |elf| { BadHeader(elf, i, U16(elf, 0x38)); return Err(SegmentPastEnd); }
      loads := loads + [Load(paddr, offset, filesz)];
    }
    if loads == [] { return Err(NoLoads); }
    var base := Lowest(loads);
    var end := Highest(loads);
    if end >= TWO64 { return Err(Overflow); }
    var image := Store(elf, loads, base, end);
    if |image| < 0x40 || image[0x38..0x3c] != ARM64_MAGIC { return Err(NoMagic); }
    return Ok(image);
  }

  /** The refusals that come before any header is looked at, in their order. */
  lemma RefusalsInOrder(elf: seq<byte>)
    ensures Flattened(elf) == Err(NotElf) <==> |elf| < 64 || elf[..4] != [0x7f, 0x45, 0x4c, 0x46]
    ensures |elf| >= 64 && elf[..4] == [0x7f, 0x45, 0x4c, 0x46] ==>
              && (Flattened(elf) == Err(Not64Bit) <==> elf[4] != 2)
              && (Flattened(elf) == Err(NotLittleEndian) <==> elf[4] == 2 && elf[5] != 1)
              && (Flattened(elf) == Err(BadEntrySize) <==>
                    elf[4] == 2 && elf[5] == 1 && Number(elf[0x36..0x38]) < 56)
  {
    hide U16, Number, LoadsIn, Memory, End, Base;
    if |elf| >= 64 {
      FieldsAreNumbers(elf, 0x36);
      if LoadsIn(elf, U16(elf, 0x38)).Err? { HeaderErrors(elf, U16(elf, 0x38)); }
    }
  }

  lemma HeaderErrors(elf: seq<byte>, n: nat)
    requires |elf| >= 64 && LoadsIn(elf, n).Err?
    ensures LoadsIn(elf, n).error in {Overflow, TruncatedHeaders, SegmentPastEnd}
  {
    hide HeaderOffset, LoadAt, U32;
    LoadsInMeans(elf, n);
  }

  lemma NoMagicNoElf(elf: seq<byte>)
    requires |elf| < 64 || elf[..4] != ELF_MAGIC
    ensures |elf| < 64 || !IsElf(elf)
  {
  }

  lemma HeaderIs(elf: seq<byte>, i: nat, ph: nat)
    requires |elf| >= 64 && ph == HeaderOffset(elf, i)
    ensures ph + 56 >= TWO64 ==> HeaderAt(elf, i) == Bad(Overflow)
    ensures ph + 56 < TWO64 && ph + 56 > |elf| ==> HeaderAt(elf, i) == Bad(TruncatedHeaders)
    ensures ph + 56 < TWO64 && ph + 56 <= |elf| ==>
              var load := Load(U64(elf, ph + 0x18), U64(elf, ph + 0x08), U64(elf, ph + 0x20));
              HeaderAt(elf, i) ==
              if U32(elf, ph) != PT_LOAD || load.filesz == 0 then Ignored
              else if load.offset + load.filesz >= TWO64 then Bad(Overflow)
              else if load.offset + load.filesz > |elf| then Bad(SegmentPastEnd)
              else Segment(load)
  {
    hide HeaderOffset, U16, U32, U64;
  }

  lemma {:induction false} BadHeader(elf: seq<byte>, i: nat, n: nat)
    requires |elf| >= 64 && i < n && LoadsIn(elf, i).Ok? && HeaderAt(elf, i).Bad?
    ensures LoadsIn(elf, n) == Err(HeaderAt(elf, i).error)
    decreases n
  {
    hide HeaderAt;
    if i < n - 1 { BadHeader(elf, i, n - 1); }
  }

  method Lowest(loads: seq<Load>) returns (base: nat)
    requires loads != []
    ensures base == Base(loads)
  {
    hide Base;
    base := loads[0].paddr;
    BoundsSnoc(loads, 0);
    for i := 1 to |loads|
      invariant base == Base(loads[..i])
    {
      BoundsSnoc(loads, i);
      if loads[i].paddr < base { base := loads[i].paddr; }
    }
    assert loads[..|loads|] == loads;
  }

  method Highest(loads: seq<Load>) returns (end: nat)
    requires loads != []
    ensures end == End(loads)
  {
    hide End;
    end := loads[0].End();
    BoundsSnoc(loads, 0);
    for i := 1 to |loads|
      invariant end == End(loads[..i])
    {
      BoundsSnoc(loads, i);
      if loads[i].End() > end { end := loads[i].End(); }
    }
    assert loads[..|loads|] == loads;
  }

  lemma BoundsSnoc(loads: seq<Load>, i: nat)
    requires i < |loads|
    ensures Base(loads[..i + 1]) == if i > 0 && Base(loads[..i]) <= loads[i].paddr then Base(loads[..i]) else loads[i].paddr
    ensures End(loads[..i + 1]) == if i > 0 && End(loads[..i]) >= loads[i].End() then End(loads[..i]) else loads[i].End()
  {
    hide Load.End;
    assert loads[..i + 1][..i] == loads[..i] && loads[..i + 1][i] == loads[i];
  }

  lemma OneMoreLoad(elf: seq<byte>, loads: seq<Load>, i: nat, p: nat)
    requires AllInFile(elf, loads) && i < |loads|
    ensures var l := loads[i];
            ByteAt(elf, loads[..i + 1], p) ==
            if l.Covers(p) then elf[l.offset + (p - l.paddr)] else ByteAt(elf, loads[..i], p)
  {
    assert loads[..i + 1][..i] == loads[..i] && loads[..i + 1][i] == loads[i];
  }

  /** Copies every segment into a zeroed buffer, in header order. */
  method Store(elf: seq<byte>, loads: seq<Load>, base: nat, end: nat) returns (bytes: seq<byte>)
    requires loads != [] && AllInFile(elf, loads) && base == Base(loads) && end == End(loads)
    ensures bytes == Memory(elf, loads)
  {
    hide Base, End, ByteAt;
    BaseBelowEnd(loads);
    forall p ensures ByteAt(elf, loads[..0], p) == 0 { GapsAreZero(elf, loads[..0], p); }
    var image := new byte[end - base](_ => 0);
    for i := 0 to |loads|
      invariant forall k :: 0 <= k < image.Length ==> image[k] == ByteAt(elf, loads[..i], base + k)
    {
      var l := loads[i];
      assert l in loads;
      ghost var before := image[..];
      CopySlice(image, l.paddr - base, elf[l.offset..l.offset + l.filesz]);
      forall k | 0 <= k < image.Length ensures image[k] == ByteAt(elf, loads[..i + 1], base + k) {
        assert before[k] == ByteAt(elf, loads[..i], base + k);
        OneMoreLoad(elf, loads, i, base + k);
      }
    }
    assert loads[..|loads|] == loads;
    bytes := image[..];
  }

  /** Overwrites the bytes from `dst` on with `src`, and no others. */
  method CopySlice(image: array<byte>, dst: nat, src: seq<byte>)
    requires dst + |src| <= image.Length
    modifies image
    ensures forall k :: 0 <= k < image.Length ==> image[k] == if dst <= k < dst + |src| then src[k - dst] else old(image[k])
  {
    forall k | 0 <= k < |src| { image[dst + k] := src[k]; }
  }

  // ----- what the image holds

  ghost predicate IsFlat(elf: seq<byte>, loads: seq<Load>, image: seq<byte>) {
    |elf| >= 64 && Flattened(elf) == Ok(image) && LoadsIn(elf, U16(elf, 0x38)) == Ok(loads) && loads != []
  }

  lemma FlattenedIsMemory(elf: seq<byte>) returns (loads: seq<Load>)
    requires Flattened(elf).Ok?
    ensures IsFlat(elf, loads, Flattened(elf).value)
    ensures Flattened(elf).value == Memory(elf, loads) && IsArm64Image(Flattened(elf).value)
  {
    loads := LoadsIn(elf, U16(elf, 0x38)).value;
  }

  /** The last segment that covers an address decides its byte. */
  lemma {:induction false} LastWriterWins(elf: seq<byte>, loads: seq<Load>, i: nat, p: nat)
    requires AllInFile(elf, loads) && i < |loads| && loads[i].Covers(p)
    requires forall j :: i < j < |loads| ==> !loads[j].Covers(p)
    ensures ByteAt(elf, loads, p) == elf[loads[i].offset + (p - loads[i].paddr)]
    decreases |loads|
  {
    if i < |loads| - 1 { LastWriterWins(elf, loads[..|loads| - 1], i, p); }
  }

  lemma {:induction false} GapsAreZero(elf: seq<byte>, loads: seq<Load>, p: nat)
    requires AllInFile(elf, loads) && forall l <- loads :: !l.Covers(p)
    ensures ByteAt(elf, loads, p) == 0
    decreases |loads|
  {
    if loads != [] { GapsAreZero(elf, loads[..|loads| - 1], p); }
  }

  ghost predicate Apart(a: Load, b: Load) { a.End() <= b.paddr || b.End() <= a.paddr }

  ghost predicate NotOverwritten(loads: seq<Load>, i: nat)
    requires i < |loads|
  {
    forall j :: i < j < |loads| ==> Apart(loads[i], loads[j])
  }

  lemma VerbatimInMemory(elf: seq<byte>, loads: seq<Load>, i: nat)
    requires AllInFile(elf, loads) && i < |loads| && NotOverwritten(loads, i)
    ensures var m, l, dst := Memory(elf, loads), loads[i], loads[i].paddr - Base(loads);
            0 <= dst && dst + l.filesz <= |m| && m[dst..dst + l.filesz] == elf[l.offset..l.offset + l.filesz]
  {
    hide Base, End, ByteAt, Memory;
    var m, l, dst := Memory(elf, loads), loads[i], loads[i].paddr - Base(loads);
    assert l in loads;
    var there, here := m[dst..dst + l.filesz], elf[l.offset..l.offset + l.filesz];
    forall k | 0 <= k < l.filesz ensures there[k] == here[k] {
      LastWriterWins(elf, loads, i, l.paddr + k);
      assert there[k] == m[dst + k] == ByteAt(elf, loads, Base(loads) + (dst + k));
    }
  }

  /** A segment that no later one overlaps appears verbatim, at its distance from the lowest address. */
  lemma SegmentVerbatim(elf: seq<byte>, loads: seq<Load>, image: seq<byte>, i: nat)
    requires IsFlat(elf, loads, image) && i < |loads| && NotOverwritten(loads, i)
    ensures var l, dst := loads[i], loads[i].paddr - Base(loads);
            0 <= dst && dst + l.filesz <= |image| && image[dst..dst + l.filesz] == elf[l.offset..l.offset + l.filesz]
  {
    hide LoadsIn, U16, Base, End, ByteAt, Memory;
    var _ := FlattenedIsMemory(elf);
    VerbatimInMemory(elf, loads, i);
  }

  /** With no overlaps at all, the order of the headers does not matter. */
  lemma OrderIsMoot(elf: seq<byte>, a: seq<Load>, b: seq<Load>, p: nat)
    requires AllInFile(elf, a) && AllInFile(elf, b) && forall l :: l in a <==> l in b
    requires forall l, m :: l in a && m in a && l != m ==> Apart(l, m)
    ensures ByteAt(elf, a, p) == ByteAt(elf, b, p)
  {
    if l :| l in a && l.Covers(p) {
      OnlyWriter(elf, a, l, p);
      OnlyWriter(elf, b, l, p);
    } else {
      GapsAreZero(elf, a, p);
      GapsAreZero(elf, b, p);
    }
  }

  lemma {:induction false} OnlyWriter(elf: seq<byte>, loads: seq<Load>, l: Load, p: nat)
    requires AllInFile(elf, loads) && l in loads && l.Covers(p)
    requires forall m :: m in loads && m != l ==> Apart(l, m)
    ensures ByteAt(elf, loads, p) == elf[l.offset + (p - l.paddr)]
    decreases |loads|
  {
    var last := loads[|loads| - 1];
    assert last in loads;
    if last != l {
      assert loads == loads[..|loads| - 1] + [last];
      OnlyWriter(elf, loads[..|loads| - 1], l, p);
    }
  }

  // ----- the entry shim

  const LOAD_ADDR: nat := 0x8000_0000     // where the loader puts a raw image, and enters it
  const MAX_BRANCH: nat := 0x0800_0000    // 128 MiB, the reach of one branch

  datatype ShimError = TooShort | Misaligned | OutOfRange

  function TextOffset(image: seq<byte>): nat
    requires |image| >= 16
  {
    U64(image, 8)
  }

  /** Bitwise "or" and "and" of two words. */
  function BitOr(a: nat, b: nat): nat {
    if a == 0 && b == 0 then 0 else (if a % 2 == 1 || b % 2 == 1 then 1 else 0) + 2 * BitOr(a / 2, b / 2)
  }

  function BitAnd(a: nat, b: nat): nat {
    if a == 0 || b == 0 then 0 else (if a % 2 == 1 && b % 2 == 1 then 1 else 0) + 2 * BitAnd(a / 2, b / 2)
  }

  function Pow2(k: nat): (p: nat)
    ensures p >= 1
  {
    if k == 0 then 1 else 2 * Pow2(k - 1)
  }

  /** The unconditional branch by `t` bytes: six opcode bits over the distance in words. */
  function Branch(t: nat): nat { BitOr(0x1400_0000, BitAnd(t / 4 % 0x1_0000_0000, 0x03FF_FFFF)) }

  /** Over clear low bits, "or" is addition. */
  lemma {:induction false} OrIsPlus(high: nat, low: nat, k: nat)
    requires low < Pow2(k)
    ensures BitOr(high * Pow2(k), low) == high * Pow2(k) + low
    decreases k
  {
    if k == 0 {
      OrZero(high);
    } else {
      var a := high * Pow2(k - 1);
      assert high * Pow2(k) == 2 * a;
      OrIsPlus(high, low / 2, k - 1);
      assert BitOr(2 * a, low) == low % 2 + 2 * BitOr(a, low / 2);
    }
  }

  lemma {:induction false} OrZero(a: nat)
    ensures BitOr(a, 0) == a
  {
    if a > 0 { OrZero(a / 2); }
  }

  lemma AndStep(a: nat, m: nat)
    requires m >= 1
    ensures BitAnd(a, 2 * m - 1) == a % 2 + 2 * BitAnd(a / 2, m - 1)
  {
    var b := 2 * m - 1;
    assert b % 2 == 1 && b / 2 == m - 1;
  }

  /** "And" with ones in the low bits is the remainder. */
  lemma {:induction false} AndIsRemainder(a: nat, k: nat)
    ensures BitAnd(a, Pow2(k) - 1) == a % Pow2(k)
    decreases k
  {
    hide BitAnd;
    if k == 0 {
      AndNothing(a);
    } else {
      var m := Pow2(k - 1);
      AndStep(a, m);
      AndIsRemainder(a / 2, k - 1);
      HalvedRemainder(a, m);
    }
  }

  lemma AndNothing(a: nat)
    ensures BitAnd(a, 0) == 0
  {
  }

  lemma HalvedRemainder(a: nat, m: nat)
    requires m >= 1
    ensures a % (2 * m) == a % 2 + 2 * (a / 2 % m)
  {
    var q, r := a / 2 / m, a / 2 % m;
    assert a / 2 == m * q + r;
    assert a == 2 * (m * q + r) + a % 2;
    assert 2 * (m * q) == 2 * m * q;
    OneRemainder(a, 2 * m, q, a % 2 + 2 * r);
  }

  lemma OneRemainder(a: nat, m: nat, q: nat, r: nat)
    requires r < m && a == m * q + r
    ensures a % m == r
  {
    var q', r' := a / m, a % m;
    assert a == m * q' + r' && r' < m;
    AtMostEqual(m, q, r, q', r');
    AtMostEqual(m, q', r', q, r);
  }

  lemma AtMostEqual(m: nat, q: nat, r: nat, q': nat, r': nat)
    requires m * q + r == m * q' + r' && r < m && r' < m
    ensures q <= q'
  {
    if q > q' {
      Spread(m, q', q - q');
      AtLeastOnce(m, q - q');
    }
  }

  lemma Spread(m: nat, a: nat, b: nat)
    ensures m * (a + b) == m * a + m * b
  {
  }

  lemma AtLeastOnce(m: nat, d: nat)
    requires d >= 1
    ensures m * d >= m
  {
    Spread(m, d - 1, 1);
  }

  lemma BranchIsPlus(t: nat)
    ensures Branch(t) == 0x1400_0000 + t / 4 % 0x0400_0000
  {
    hide BitAnd, BitOr;
    var n, words := t / 4, t / 4 % 0x1_0000_0000;
    TwoTo26();
    AndIsRemainder(words, 26);
    OrIsPlus(5, words % 0x0400_0000, 26);
    LowBitsOf(n);
  }

  lemma TwoTo26()
    ensures Pow2(26) == 0x0400_0000
  {
    assert Pow2(8) == 0x100;
    assert Pow2(16) == 0x1_0000;
    assert Pow2(24) == 0x100_0000;
  }

  lemma LowBitsOf(n: nat)
    ensures n % 0x1_0000_0000 % 0x0400_0000 == n % 0x0400_0000
  {
    var q, w := n / 0x1_0000_0000, n % 0x1_0000_0000;
    assert n == 0x1_0000_0000 * q + w;
    assert 0x1_0000_0000 * q == 0x0400_0000 * (64 * q);
  }

  /** A64 `B` (section C6.2 of the Arm Architecture Reference Manual, DDI 0487): opcode 000101, then a
      26-bit signed distance in words; None for any other instruction. */
  function BranchDistance(word: nat): Option<int> {
    if word / 0x0400_0000 != 5 then None
    else
      var imm26 := word % 0x0400_0000;
      Some(4 * if imm26 >= 0x0200_0000 then imm26 - 0x0400_0000 else imm26)
  }

  /** Exactly the offsets below the limit are reached; beyond it, the sign bit or the field width spoils them. */
  lemma BranchReaches(t: nat)
    requires t % 4 == 0
    ensures BranchDistance(Codec.FromLe32(Codec.Le32(Branch(t)))) == Some(t) <==> t < MAX_BRANCH
  {
    hide Codec.FromLe32, Codec.Le32, Branch;
    BranchIsPlus(t);
    Codec.Le32Inverts(Branch(t));
    var imm := t / 4 % 0x0400_0000;
    assert Branch(t) < Codec.TWO32;
    assert Branch(t) / 0x0400_0000 == 5 && Branch(t) % 0x0400_0000 == imm;
  }

  function Zeros(n: nat): (z: seq<byte>)
    ensures |z| == n && forall k :: 0 <= k < n ==> z[k] == 0
  {
    seq(n, _ => 0)
  }

  function Shimmed(image: seq<byte>): (r: Result<Option<seq<byte>>, ShimError>) {
    if |image| < 16 then Err(TooShort)
    else
      var t := TextOffset(image);
      if t == 0 then Ok(None)
      else if t % 4 != 0 then Err(Misaligned)
      else if t >= MAX_BRANCH then Err(OutOfRange)
      else Ok(Some(Codec.Le32(Branch(t)) + Zeros(t - 4) + image))
  }

  /** The four outcomes by the offset that the image asks for, and what the shimmed copy is. */
  lemma ShimOutcomes(image: seq<byte>)
    ensures Shimmed(image) == Err(TooShort) <==> |image| < 16
    ensures |image| >= 16 ==>
              var t := Number(image[8..16]);
              && t == TextOffset(image)
              && (Shimmed(image) == Ok(None) <==> t == 0)
              && (Shimmed(image) == Err(Misaligned) <==> t % 4 != 0)
              && (Shimmed(image) == Err(OutOfRange) <==> t % 4 == 0 && t >= 128 * 1024 * 1024)
              && (Shimmed(image).Ok? && Shimmed(image).value.Some? ==>
                    var s := Shimmed(image).value.value;
                    |s| == t + |image| && s[t..] == image && forall k :: 4 <= k < t ==> s[k] == 0)
  {
    hide U64, Codec.Le32, Branch, Number, Zeros;
    if |image| >= 16 { FieldsAreNumbers(image, 8); }
  }

  method ShimTextOffset(image: seq<byte>) returns (r: Result<Option<seq<byte>>, ShimError>)
    ensures r == Shimmed(image)
  {
    hide TextOffset, Branch, Codec.Le32;
    if |image| < 16 { return Err(TooShort); }
    var t := TextOffset(image);
    if t == 0 { return Ok(None); }
    if t % 4 != 0 { return Err(Misaligned); }
    if t >= MAX_BRANCH { return Err(OutOfRange); }
    var shimmed := new byte[t](_ => 0);
    var branch := Codec.Le32(Branch(t));
    forall k | 0 <= k < 4 { shimmed[k] := branch[k]; }
    assert shimmed[..] == branch + Zeros(t - 4);
    return Ok(Some(shimmed[..] + image));
  }

  /** The byte of guest memory at `a` once the loader has put `raw` there. */
  function GuestByte(raw: seq<byte>, a: nat): Option<byte> {
    if LOAD_ADDR <= a < LOAD_ADDR + |raw| then Some(raw[a - LOAD_ADDR]) else None
  }

  /** `raw` puts every byte of `image` where an image asking for offset `t` belongs, and entering it at the
      load address leads to the first of them. */
  ghost predicate Boots(raw: seq<byte>, image: seq<byte>, t: nat) {
    && (forall k :: 0 <= k < |image| ==> GuestByte(raw, LOAD_ADDR + t + k) == Some(image[k]))
    && (t > 0 ==> |raw| >= 4 && BranchDistance(Codec.FromLe32(raw[..4])) == Some(t))
  }

  lemma ShimBoots(image: seq<byte>)
    requires Shimmed(image).Ok?
    ensures Shimmed(image).value.None? ==> Boots(image, image, TextOffset(image))
    ensures Shimmed(image).value.Some? ==> Boots(Shimmed(image).value.value, image, TextOffset(image))
  {
    hide Codec.FromLe32, Codec.Le32, Branch, BranchDistance, TextOffset;
    if Shimmed(image).value.Some? {
      var t := TextOffset(image);
      BranchReaches(t);
      PaddedBoots(image, t, Codec.Le32(Branch(t)));
    }
  }

  lemma PaddedBoots(image: seq<byte>, t: nat, branch: seq<byte>)
    requires t >= 4 && |branch| == 4 && BranchDistance(Codec.FromLe32(branch)) == Some(t)
    ensures Boots(branch + Zeros(t - 4) + image, image, t)
  {
    hide Codec.FromLe32, BranchDistance, Zeros;
    var raw := branch + Zeros(t - 4) + image;
    assert raw[..4] == branch;
    forall k | 0 <= k < |image| ensures GuestByte(raw, LOAD_ADDR + t + k) == Some(image[k]) {
      assert raw[t + k] == image[k];
    }
  }

  /** Flattening and shimming together: the byte of the executable for physical address `p` ends up at the
      load address plus the text offset plus its distance from the lowest address. */
  lemma LandsWhereLinked(elf: seq<byte>, loads: seq<Load>, image: seq<byte>, raw: seq<byte>, p: nat)
    requires IsFlat(elf, loads, image) && |image| >= 16 && Boots(raw, image, TextOffset(image))
    requires Base(loads) <= p < End(loads)
    ensures GuestByte(raw, LOAD_ADDR + TextOffset(image) + (p - Base(loads))) == Some(ByteAt(elf, loads, p))
  {
    hide LoadsIn, U16, U64, Base, End, ByteAt, BranchDistance, Codec.FromLe32, TextOffset;
    var _ := FlattenedIsMemory(elf);
    assert image[p - Base(loads)] == ByteAt(elf, loads, p);
  }

  // ----- reading a kernel file

  datatype ReadError = NotConverted(error: ElfError) | NeitherForm

  function ReadAsImage(file: seq<byte>): Result<seq<byte>, ReadError> {
    if IsElf(file) then
      match Flattened(file)
      case Ok(image) => Ok(image)
      case Err(e) => Err(NotConverted(e))
    else if IsArm64Image(file) then Ok(file)
    else Err(NeitherForm)
  }

  /** A file is refused for its form exactly if it begins with neither the one magic nor holds the other. */
  lemma ReadOutcomes(file: seq<byte>)
    ensures ReadAsImage(file) == Err(NeitherForm) <==>
              !(|file| >= 4 && file[..4] == [0x7f, 0x45, 0x4c, 0x46])
              && !(|file| >= 60 && file[56..60] == [0x41, 0x52, 0x4d, 0x64])
    ensures IsElf(file) && Flattened(file).Err? ==> ReadAsImage(file) == Err(NotConverted(Flattened(file).error))
  {
    hide Flattened;
  }

  /** What is read is an arm64 image, and reading it again changes nothing. */
  lemma ImagesOnly(file: seq<byte>)
    requires ReadAsImage(file).Ok?
    ensures var image := ReadAsImage(file).value;
            IsArm64Image(image) && (!IsElf(image) ==> ReadAsImage(image) == Ok(image))
  {
    hide LoadsIn, Memory;
  }
}
