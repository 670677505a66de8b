/** The inverse of flattening: an executable written with any program headers, wherever the table stands and however
    long its entries are, flattens to the memory that its segments describe. */
module ElfWriter {
  import opened Streams
  import opened Elf
  import Codec = ExecCodec

  /** A program header with the bytes it describes; only `PT_LOAD` is loaded, and at its physical address. */
  datatype Entry = Entry(kind: nat, vaddr: nat, paddr: nat, memsz: nat, data: seq<byte>) {
    predicate Loaded() { kind == PT_LOAD && data != [] }

    predicate Covers(p: nat) { Loaded() && paddr <= p < paddr + |data| }
  }

  // ----- writing

  function Le16(n: nat): (b: seq<byte>)
    ensures |b| == 2
  {
    [n % 256, n / 0x100 % 256]
  }

  function Le64(n: nat): (b: seq<byte>)
    ensures |b| == 8
  {
    Codec.Le32(n % Codec.TWO32) + Codec.Le32(n / Codec.TWO32)
  }

  /** The file header: 64-bit, little-endian, with the place of the table, the size of its entries and their number. */
  function FileHeader(phoff: nat, size: nat, count: nat): (h: seq<byte>)
    ensures |h| == 64
  {
    (ELF_MAGIC + [2, 1] + Zeros(26)) + Le64(phoff) + (Zeros(14) + (Le16(size) + Le16(count)) + Zeros(6))
  }

  function ProgramHeader(e: Entry, offset: nat): (h: seq<byte>)
    ensures |h| == 56
  {
    Codec.Le32(e.kind) + Zeros(4)
    + ((Le64(offset) + Le64(e.vaddr)) + ((Le64(e.paddr) + Le64(|e.data|)) + (Le64(e.memsz) + Zeros(8))))
  }

  /** The bytes of all the segments, one after the other. */
  function Contents(es: seq<Entry>): seq<byte> {
    if es == [] then [] else Contents(es[..|es| - 1]) + es[|es| - 1].data
  }

  /** The table for segments whose bytes start at `start`; `filler` makes up the size of an entry. */
  function Table(es: seq<Entry>, start: nat, filler: seq<byte>): (t: seq<byte>)
    ensures |t| == |es| * (56 + |filler|)
  {
    if es == [] then []
    else
      var front := es[..|es| - 1];
      Grow(|front|, 56 + |filler|);
      Table(front, start, filler) + (ProgramHeader(es[|es| - 1], start + |Contents(front)|) + filler)
  }

  lemma Grow(n: nat, k: nat)
    ensures (n + 1) * k == n * k + k
  {
  }

  /** Where the bytes of the segments start. */
  function Start(es: seq<Entry>, gap: seq<byte>, filler: seq<byte>): nat { 64 + |gap| + |es| * (56 + |filler|) }

  /** The executable: header, a gap, the table, and the segments. */
  function Written(es: seq<Entry>, gap: seq<byte>, filler: seq<byte>): seq<byte> {
    (FileHeader(64 + |gap|, 56 + |filler|, |es|) + gap)
    + (Table(es, Start(es, gap, filler), filler) + Contents(es))
  }

  function OffsetOf(es: seq<Entry>, start: nat, i: nat): nat
    requires i <= |es|
  {
    start + |Contents(es[..i])|
  }

  /** Every field holds its value. */
  ghost predicate Fits(es: seq<Entry>, gap: seq<byte>, filler: seq<byte>) {
    && 64 + |gap| < TWO64 && 56 + |filler| < 0x1_0000 && |es| < 0x1_0000
    && Start(es, gap, filler) <= TWO64 - 1
    && forall i :: 0 <= i < |es| ==>
         && es[i].kind < Codec.TWO32 && es[i].paddr < TWO64 && |es[i].data| < TWO64
         && OffsetOf(es, Start(es, gap, filler), i) < TWO64
  }

  // ----- what it describes

  /** The byte at `p`: that of the last segment there, or zero. */
  function ByteOf(es: seq<Entry>, p: nat): byte {
    if es == [] then 0
    else
      var e := es[|es| - 1];
      if e.Covers(p) then e.data[p - e.paddr] else ByteOf(es[..|es| - 1], p)
  }

  /** All the loaded bytes lie within `m`, put at `base`; it reaches no further; and it holds what the segments say. */
  ghost predicate IsMemory(es: seq<Entry>, m: seq<byte>, base: nat) {
    && (forall e <- es :: e.Loaded() ==> base <= e.paddr && e.paddr + |e.data| <= base + |m|)
    && (exists e <- es :: e.Loaded() && e.paddr == base)
    && (exists e <- es :: e.Loaded() && e.paddr + |e.data| == base + |m|)
    && forall k: nat :: k < |m| ==> m[k] == ByteOf(es, base + k)
  }

  ghost predicate NoneLoaded(es: seq<Entry>) { forall e <- es :: !e.Loaded() }

  /** A segment whose end is no 64-bit file offset. */
  ghost predicate Overruns(es: seq<Entry>, start: nat) {
    exists i: nat :: i < |es| && es[i].Loaded() && OffsetOf(es, start, i) + |es[i].data| >= TWO64
  }

  // ----- reading the fields back

  lemma Le16Inverts(s: seq<byte>, off: nat, n: nat)
    requires n < 0x1_0000 && OccursAt(s, Le16(n), off)
    ensures U16(s, off) == n
  {
    assert s[off..off + 2][0] == s[off] && s[off..off + 2][1] == s[off + 1];
  }

  lemma Le32Inverts(s: seq<byte>, off: nat, n: nat)
    requires n < Codec.TWO32 && OccursAt(s, Codec.Le32(n), off)
    ensures U32(s, off) == n
  {
    hide Codec.Le32, Codec.FromLe32;
    Codec.Le32Inverts(n);
  }

  lemma Le64Inverts(s: seq<byte>, off: nat, n: nat)
    requires n < TWO64 && OccursAt(s, Le64(n), off)
    ensures U64(s, off) == n
  {
    hide Codec.Le32, Codec.FromLe32, U32, OccursAt;
    var low, high := n % Codec.TWO32, n / Codec.TWO32;
    OccursAtParts(s, Codec.Le32(low), Codec.Le32(high), off);
    OccursAtInside(s, Le64(n), off);
    Halves(n);
    Le32Inverts(s, off, low);
    Le32Inverts(s, off + 4, high);
  }

  lemma Halves(n: nat)
    requires n < TWO64
    ensures n == n % 0x1_0000_0000 + 0x1_0000_0000 * (n / 0x1_0000_0000) && n / 0x1_0000_0000 < 0x1_0000_0000
  {
  }

  lemma FileHeaderFields(elf: seq<byte>, phoff: nat, size: nat, count: nat)
    requires OccursAt(elf, FileHeader(phoff, size, count), 0) && phoff < TWO64 && size < 0x1_0000 && count < 0x1_0000
    ensures |elf| >= 64 && IsElf(elf) && elf[4] == 2 && elf[5] == 1
    ensures U64(elf, 0x20) == phoff && U16(elf, 0x36) == size && U16(elf, 0x38) == count
  {
    hide OccursAt, Le64, Le16, U64, U16, IsElf, ELF_MAGIC;
    var ident, counts := ELF_MAGIC + [2, 1] + Zeros(26), Zeros(14) + (Le16(size) + Le16(count)) + Zeros(6);
    MagicLength();
    assert FileHeader(phoff, size, count) == ident + Le64(phoff) + counts;
    OccursAtParts(elf, ident + Le64(phoff), counts, 0);
    OccursAtParts(elf, ident, Le64(phoff), 0);
    OccursAtParts(elf, ELF_MAGIC + [2, 1], Zeros(26), 0);
    IdentFields(elf);
    OccursAtParts(elf, Zeros(14) + (Le16(size) + Le16(count)), Zeros(6), 40);
    OccursAtParts(elf, Zeros(14), Le16(size) + Le16(count), 40);
    OccursAtParts(elf, Le16(size), Le16(count), 54);
    OccursAtInside(elf, FileHeader(phoff, size, count), 0);
    Le64Inverts(elf, 0x20, phoff);
    Le16Inverts(elf, 0x36, size);
    Le16Inverts(elf, 0x38, count);
  }

  lemma MagicLength()
    ensures |ELF_MAGIC| == 4
  {
  }

  lemma IdentFields(elf: seq<byte>)
    requires OccursAt(elf, ELF_MAGIC + [2, 1], 0)
    ensures |elf| >= 6 && IsElf(elf) && elf[4] == 2 && elf[5] == 1
  {
    OccursAtParts(elf, ELF_MAGIC, [2, 1], 0);
    assert elf[4..6][0] == 2 && elf[4..6][1] == 1;
  }

  lemma ProgramHeaderFields(elf: seq<byte>, ph: nat, e: Entry, offset: nat)
    requires OccursAt(elf, ProgramHeader(e, offset), ph)
    requires e.kind < Codec.TWO32 && offset < TWO64 && e.paddr < TWO64 && |e.data| < TWO64
    ensures ph + 56 <= |elf| && U32(elf, ph) == e.kind && LoadAt(elf, ph) == Load(e.paddr, offset, |e.data|)
  {
    hide OccursAt, Codec.Le32, Le64, U64, U32;
    var last := Le64(e.memsz) + Zeros(8);
    var place := Le64(e.paddr) + Le64(|e.data|);
    var first := Le64(offset) + Le64(e.vaddr);
    OccursAtInside(elf, ProgramHeader(e, offset), ph);
    OccursAtParts(elf, Codec.Le32(e.kind) + Zeros(4), first + (place + last), ph);
    OccursAtParts(elf, Codec.Le32(e.kind), Zeros(4), ph);
    OccursAtParts(elf, first, place + last, ph + 8);
    OccursAtParts(elf, Le64(offset), Le64(e.vaddr), ph + 8);
    OccursAtParts(elf, place, last, ph + 24);
    OccursAtParts(elf, Le64(e.paddr), Le64(|e.data|), ph + 24);
    Le32Inverts(elf, ph, e.kind);
    Le64Inverts(elf, ph + 8, offset);
    Le64Inverts(elf, ph + 24, e.paddr);
    Le64Inverts(elf, ph + 32, |e.data|);
  }

  // ----- where things stand in the file

  lemma {:induction false} DataInContents(es: seq<Entry>, i: nat)
    requires i < |es|
    ensures OccursAt(Contents(es), es[i].data, |Contents(es[..i])|)
    decreases |es|
  {
    hide OccursAt;
    var front, last := es[..|es| - 1], es[|es| - 1];
    if i < |front| {
      assert front[..i] == es[..i];
      DataInContents(front, i);
      OccursAtExtends(Contents(front), last.data, es[i].data, |Contents(es[..i])|);
    } else {
      ItselfAtFront(last.data);
      OccursAtShifts(Contents(front), last.data, last.data, 0);
    }
  }

  lemma ItselfAtFront(s: seq<byte>)
    ensures OccursAt(s, s, 0)
  {
  }

  lemma FrontAtFront(s: seq<byte>, t: seq<byte>)
    ensures OccursAt(s + t, s, 0)
  {
    assert (s + t)[0..|s|] == s;
  }

  lemma {:induction false} HeaderInTable(es: seq<Entry>, start: nat, filler: seq<byte>, i: nat)
    requires i < |es|
    ensures OccursAt(Table(es, start, filler), ProgramHeader(es[i], OffsetOf(es, start, i)), i * (56 + |filler|))
    decreases |es|
  {
    hide OccursAt, ProgramHeader;
    var front, last := es[..|es| - 1], es[|es| - 1];
    var h := ProgramHeader(last, start + |Contents(front)|);
    assert Table(es, start, filler) == Table(front, start, filler) + (h + filler);
    if i < |front| {
      assert front[..i] == es[..i];
      HeaderInTable(front, start, filler, i);
      OccursAtExtends(Table(front, start, filler), h + filler, ProgramHeader(es[i], OffsetOf(es, start, i)), i * (56 + |filler|));
    } else {
      FrontAtFront(h, filler);
      OccursAtShifts(Table(front, start, filler), h + filler, h, 0);
    }
  }

  lemma EntryInFile(es: seq<Entry>, gap: seq<byte>, filler: seq<byte>, i: nat)
    requires i < |es|
    ensures var elf, start := Written(es, gap, filler), Start(es, gap, filler);
            && OccursAt(elf, ProgramHeader(es[i], OffsetOf(es, start, i)), 64 + |gap| + i * (56 + |filler|))
            && OccursAt(elf, es[i].data, OffsetOf(es, start, i))
  {
    hide OccursAt, ProgramHeader, FileHeader, Table, Contents;
    var start := Start(es, gap, filler);
    var front, table, all := FileHeader(64 + |gap|, 56 + |filler|, |es|) + gap, Table(es, start, filler), Contents(es);
    var h, at := ProgramHeader(es[i], OffsetOf(es, start, i)), i * (56 + |filler|);
    HeaderInTable(es, start, filler, i);
    OccursAtInside(table, h, at);
    OccursAtExtends(table, all, h, at);
    OccursAtShifts(front, table + all, h, at);
    DataInContents(es, i);
    OccursAtInside(all, es[i].data, |Contents(es[..i])|);
    OccursAtShifts(table, all, es[i].data, |Contents(es[..i])|);
    OccursAtShifts(front, table + all, es[i].data, |table| + |Contents(es[..i])|);
  }

  lemma HeaderFits(i: nat, n: nat, size: nat)
    requires i < n
    ensures i * size + size <= n * size
  {
    Grow(i, size);
    if i + 1 < n { HeaderFits(i, n - 1, size); Grow(n - 1, size); }
  }

  lemma FileFields(es: seq<Entry>, gap: seq<byte>, filler: seq<byte>)
    requires Fits(es, gap, filler)
    ensures var elf := Written(es, gap, filler);
            && |elf| >= 64 && IsElf(elf) && elf[4] == 2 && elf[5] == 1
            && U64(elf, 0x20) == 64 + |gap| && U16(elf, 0x36) == 56 + |filler| && U16(elf, 0x38) == |es|
  {
    hide OccursAt, FileHeader, Table, Contents;
    var h := FileHeader(64 + |gap|, 56 + |filler|, |es|);
    var rest := Table(es, Start(es, gap, filler), filler) + Contents(es);
    FrontAtFront(h, gap);
    OccursAtExtends(h + gap, rest, h, 0);
    FileHeaderFields(Written(es, gap, filler), 64 + |gap|, 56 + |filler|, |es|);
  }

  function LoadOf(es: seq<Entry>, start: nat, i: nat): Load
    requires i < |es|
  {
    Load(es[i].paddr, OffsetOf(es, start, i), |es[i].data|)
  }

  lemma HeaderOfEntry(es: seq<Entry>, gap: seq<byte>, filler: seq<byte>, i: nat)
    requires Fits(es, gap, filler) && i < |es|
    ensures var elf, start := Written(es, gap, filler), Start(es, gap, filler);
            && |elf| >= 64
            && OffsetOf(es, start, i) + |es[i].data| <= |elf|
            && HeaderAt(elf, i) ==
               if !es[i].Loaded() then Ignored
               else if OffsetOf(es, start, i) + |es[i].data| >= TWO64 then Bad(Overflow)
               else Segment(LoadOf(es, start, i))
  {
    hide OccursAt, ProgramHeader, U64, U32, U16, LoadAt, Written;
    var elf, start := Written(es, gap, filler), Start(es, gap, filler);
    var ph := 64 + |gap| + i * (56 + |filler|);
    FileFields(es, gap, filler);
    EntryInFile(es, gap, filler, i);
    OccursAtInside(elf, es[i].data, OffsetOf(es, start, i));
    ProgramHeaderFields(elf, ph, es[i], OffsetOf(es, start, i));
    HeaderFits(i, |es|, 56 + |filler|);
    assert HeaderOffset(elf, i) == ph;
  }

  // ----- the segments and their memory

  /** The segments of the first `n` entries, as they are read back. */
  function LoadsOf(es: seq<Entry>, start: nat, n: nat): seq<Load>
    requires n <= |es|
  {
    if n == 0 then []
    else LoadsOf(es, start, n - 1) + if es[n - 1].Loaded() then [LoadOf(es, start, n - 1)] else []
  }

  lemma {:induction false} ScanStopsAtOverrun(es: seq<Entry>, gap: seq<byte>, filler: seq<byte>, n: nat)
    requires Fits(es, gap, filler) && n <= |es| && |Written(es, gap, filler)| >= 64
    ensures var start, r := Start(es, gap, filler), LoadsIn(Written(es, gap, filler), n);
            if exists i: nat :: i < n && es[i].Loaded() && OffsetOf(es, start, i) + |es[i].data| >= TWO64
            then r == Err(Overflow) else r == Ok(LoadsOf(es, start, n))
    decreases n
  {
    hide Fits, HeaderAt, Written, OffsetOf, Start, Entry.Loaded;
    if n > 0 {
      ScanStopsAtOverrun(es, gap, filler, n - 1);
      HeaderOfEntry(es, gap, filler, n - 1);
      assert LoadsOf(es, Start(es, gap, filler), n - 1) + [] == LoadsOf(es, Start(es, gap, filler), n - 1);
    }
  }

  lemma {:induction false} LoadsOfMeans(es: seq<Entry>, start: nat, n: nat)
    requires n <= |es|
    ensures forall l :: l in LoadsOf(es, start, n) <==> exists i: nat :: i < n && es[i].Loaded() && l == LoadOf(es, start, i)
    decreases n
  {
    hide LoadOf, Entry.Loaded;
    if n > 0 { LoadsOfMeans(es, start, n - 1); }
  }

  lemma {:induction false} SameBytes(es: seq<Entry>, gap: seq<byte>, filler: seq<byte>, n: nat, p: nat)
    requires Fits(es, gap, filler) && n <= |es|
    ensures var elf, loads := Written(es, gap, filler), LoadsOf(es, Start(es, gap, filler), n);
            AllInFile(elf, loads) && ByteAt(elf, loads, p) == ByteOf(es[..n], p)
    decreases n
  {
    hide Fits, HeaderAt, Written, Start, OccursAt;
    if n > 0 {
      var elf, start := Written(es, gap, filler), Start(es, gap, filler);
      SameBytes(es, gap, filler, n - 1, p);
      var e, loads := es[n - 1], LoadsOf(es, start, n - 1);
      assert es[..n][..n - 1] == es[..n - 1];
      HeaderOfEntry(es, gap, filler, n - 1);
      if e.Loaded() {
        assert (loads + [LoadOf(es, start, n - 1)])[..|loads|] == loads;
        EntryInFile(es, gap, filler, n - 1);
        if e.Covers(p) { ByteOfOccurrence(elf, e.data, OffsetOf(es, start, n - 1), p - e.paddr); }
      } else {
        assert loads + [] == loads;
      }
    }
  }

  lemma ByteOfOccurrence(s: seq<byte>, m: seq<byte>, i: nat, k: nat)
    requires OccursAt(s, m, i) && k < |m|
    ensures s[i + k] == m[k]
  {
    assert s[i..i + |m|][k] == s[i + k];
  }

  lemma LoadOfEntry(es: seq<Entry>, start: nat, e: Entry) returns (l: Load)
    requires e in es && e.Loaded()
    ensures l in LoadsOf(es, start, |es|) && l.paddr == e.paddr && l.End() == e.paddr + |e.data|
  {
    hide OffsetOf, LoadsOf;
    LoadsOfMeans(es, start, |es|);
    var i: nat :| i < |es| && es[i] == e;
    l := LoadOf(es, start, i);
  }

  lemma EntryOfLoad(es: seq<Entry>, start: nat, l: Load) returns (e: Entry)
    requires l in LoadsOf(es, start, |es|)
    ensures e in es && e.Loaded() && l.paddr == e.paddr && l.End() == e.paddr + |e.data|
  {
    hide OffsetOf, LoadsOf;
    LoadsOfMeans(es, start, |es|);
    var i: nat :| i < |es| && es[i].Loaded() && l == LoadOf(es, start, i);
    e := es[i];
  }

  /** The lowest and the highest address agree. */
  lemma SameBounds(es: seq<Entry>, start: nat, m: seq<byte>, base: nat)
    requires IsMemory(es, m, base)
    ensures var loads := LoadsOf(es, start, |es|);
            loads != [] && Base(loads) == base && End(loads) == base + |m|
  {
    hide ByteOf, LoadsOf, Base, End, Load.End;
    var loads := LoadsOf(es, start, |es|);
    var low :| low in es && low.Loaded() && low.paddr == base;
    var high :| high in es && high.Loaded() && high.paddr + |high.data| == base + |m|;
    var l := LoadOfEntry(es, start, low);
    var h := LoadOfEntry(es, start, high);
    var l' :| l' in loads && Base(loads) == l'.paddr;
    var h' :| h' in loads && End(loads) == h'.End();
    var low' := EntryOfLoad(es, start, l');
    var high' := EntryOfLoad(es, start, h');
  }

  /** Flattening gives back the memory that was written down, whatever the table's place and the size of its entries;
      it refuses one that ends beyond 64 bits, or that holds no arm64 kernel. */
  lemma FlatteningInverts(es: seq<Entry>, gap: seq<byte>, filler: seq<byte>, m: seq<byte>, base: nat)
    requires Fits(es, gap, filler) && !Overruns(es, Start(es, gap, filler)) && IsMemory(es, m, base)
    ensures Flattened(Written(es, gap, filler)) ==
            if base + |m| >= TWO64 then Err(Overflow)
            else if |m| < 0x40 || !IsArm64Image(m) then Err(NoMagic)
            else Ok(m)
  {
    hide Fits, HeaderAt, LoadsIn, LoadsOf, Written, Start, ByteOf, ByteAt, Base, End, Memory, OffsetOf, U16, U64, IsElf;
    var elf, start := Written(es, gap, filler), Start(es, gap, filler);
    FileFields(es, gap, filler);
    EntrySizeFits(es, gap, filler);
    ScanStopsAtOverrun(es, gap, filler, |es|);
    SameBounds(es, start, m, base);
    var loads := LoadsOf(es, start, |es|);
    SameBytes(es, gap, filler, |es|, 0);
    var image := Memory(elf, loads);
    forall k | 0 <= k < |m| ensures image[k] == m[k] {
      SameBytes(es, gap, filler, |es|, base + k);
      assert es[..|es|] == es;
    }
    assert image == m;
  }

  lemma EntrySizeFits(es: seq<Entry>, gap: seq<byte>, filler: seq<byte>)
    requires Fits(es, gap, filler)
    ensures 56 <= 56 + |filler| < 0x1_0000
  {
  }

  /** Without a segment, or with one whose end is no file offset, there is nothing to give back. */
  lemma NothingToInvert(es: seq<Entry>, gap: seq<byte>, filler: seq<byte>)
    requires Fits(es, gap, filler)
    ensures Overruns(es, Start(es, gap, filler)) ==> Flattened(Written(es, gap, filler)) == Err(Overflow)
    ensures NoneLoaded(es) ==> Flattened(Written(es, gap, filler)) == Err(NoLoads)
  {
    hide Fits, HeaderAt, LoadsIn, LoadsOf, Written, Start, OffsetOf, U16, U64, IsElf, Entry.Loaded, Base, End;
    FileFields(es, gap, filler);
    EntrySizeFits(es, gap, filler);
    ScanStopsAtOverrun(es, gap, filler, |es|);
    LoadsOfMeans(es, Start(es, gap, filler), |es|);
    var loads := LoadsOf(es, Start(es, gap, filler), |es|);
    assert loads != [] ==> loads[0] in loads;
  }

  /** In all other cases there is such a memory. */
  lemma {:induction false} SomeMemory(es: seq<Entry>) returns (m: seq<byte>, base: nat)
    requires !NoneLoaded(es)
    ensures IsMemory(es, m, base)
    decreases |es|
  {
    hide ByteOf, Entry.Loaded;
    var front, last := es[..|es| - 1], es[|es| - 1];
    assert es == front + [last];
    base := last.paddr;
    var top := last.paddr + |last.data|;
    if !NoneLoaded(front) {
      var m', b := SomeMemory(front);
      base := if last.Loaded() && last.paddr < b then last.paddr else b;
      top := if last.Loaded() && last.paddr + |last.data| > b + |m'| then last.paddr + |last.data| else b + |m'|;
    }
    m := seq<byte>(top - base, k requires 0 <= k => ByteOf(es, base + k));
  }

  // ----- the executable with an image as its only segment

  function Executable(image: seq<byte>, paddr: nat): seq<byte> {
    Written([Entry(PT_LOAD, paddr, paddr, |image|, image)], [], [])
  }

  /** Flattening takes the image back out, exactly if it is long enough, carries the arm64 magic, and neither its
      end in the file nor its end in memory overflows. */
  lemma ImageInverts(image: seq<byte>, paddr: nat)
    requires paddr < TWO64 && |image| < TWO64
    ensures Flattened(Executable(image, paddr)) == Ok(image) <==>
              |image| >= 0x40 && IsArm64Image(image) && 120 + |image| < TWO64 && paddr + |image| < TWO64
    ensures IsElf(Executable(image, paddr))
  {
    hide Flattened, Written, IsElf, IsArm64Image;
    var e := Entry(PT_LOAD, paddr, paddr, |image|, image);
    SingleFits(e);
    FileFields([e], [], []);
    NothingToInvert([e], [], []);
    if image == [] {
      assert NoneLoaded([e]);
    } else if 120 + |image| < TWO64 {
      SingleMemory(e);
      FlatteningInverts([e], [], [], image, paddr);
    }
  }

  lemma SingleFits(e: Entry)
    requires e.kind == PT_LOAD && e.paddr < TWO64 && |e.data| < TWO64
    ensures Fits([e], [], []) && (Overruns([e], Start([e], [], [])) <==> e.data != [] && 120 + |e.data| >= TWO64)
  {
    assert [e][..0] == [] && OffsetOf([e], 120, 0) == 120;
    if e.data != [] && 120 + |e.data| >= TWO64 { assert [e][0].Loaded(); }
  }

  lemma SingleMemory(e: Entry)
    requires e.Loaded()
    ensures IsMemory([e], e.data, e.paddr)
  {
    assert [e][0] in [e];
  }
}
