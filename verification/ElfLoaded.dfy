// What the kernel and the dynamic loader find in the image that the writer makes.
module ElfLoaded {
  import opened Words
  import opened TypeSys
  import opened ElfBytes
  import opened ElfArch
  import opened ElfImage
  import opened ElfPath
  import opened ElfLoader

  // ---- Headers ----

  lemma FieldIs(img: seq<Byte>, at: nat, bs: seq<Byte>, k: nat, n: nat, v: nat)
    requires at + |bs| <= |img| && Sub(img, at, |bs|) == bs
    requires k + n <= |bs| && IsSize(n) && FitsU(n, v) && bs[k..k + n] == LE(v, n)
    ensures Num(img, at + k, n) == v
  {
    hide LE, FromLE, FitsU;
    SubOfSlice(img, at, at + |bs|, k, n);
    assert Sub(bs, k, n) == bs[k..k + n];
    NumberBack(v, n);
  }

  lemma HeaderReads(img: seq<Byte>, arch: Arch, stub: nat)
    requires |img| >= 64 && Sub(img, 0, 40) == FileHeader(arch, stub) && Sub(img, 52, 6) == HeaderSizes() && stub < 0x80_0000
    ensures Accepted(arch, img) && EntryPoint(img) == LOAD_BASE + stub && HeaderCount(img) == NPHDR && Num(img, 32, 8) == 64
  {
    hide LE, Num;
    var (h, s) := (FileHeader(arch, stub), HeaderSizes());
    var machine := if arch.X86_64? then 62 else 183;
    assert img[..7] == h[..7];
    HeaderParts(arch, stub);
    FieldIs(img, 0, h, 16, 2, 2);
    FieldIs(img, 0, h, 18, 2, machine);
    FieldIs(img, 0, h, 20, 4, 1);
    FieldIs(img, 0, h, 24, 8, LOAD_BASE + stub);
    FieldIs(img, 0, h, 32, 8, 64);
    assert s[0..2] == LE(64, 2) && s[2..4] == LE(56, 2) && s[4..6] == LE(NPHDR, 2);
    FieldIs(img, 52, s, 0, 2, 64);
    FieldIs(img, 52, s, 2, 2, 56);
    FieldIs(img, 52, s, 4, 2, NPHDR);
  }

  lemma HeaderParts(arch: Arch, stub: nat)
    ensures var h := FileHeader(arch, stub);
      && h[..7] == [0x7f, 0x45, 0x4c, 0x46, 2, 1, 1]
      && h[16..18] == LE(2, 2) && h[18..20] == LE(if arch.X86_64? then 62 else 183, 2) && h[20..24] == LE(1, 4)
      && h[24..32] == LE(LOAD_BASE + stub, 8) && h[32..40] == LE(64, 8)
  {
    hide LE;
  }

  /** A segment whose place in memory is LOAD_BASE above its place in the file. */
  function Loaded(kind: nat, rights: nat, at: nat, size: nat, align: nat): Segment {
    Segment(kind, rights, at, LOAD_BASE + at, size, size, align)
  }

  lemma PhdrReads(img: seq<Byte>, k: nat, kind: nat, flags: nat, at: nat, size: nat, align: nat)
    requires Num(img, 32, 8) == 64 && 64 + 56 * k + 56 <= |img| && Sub(img, 64 + 56 * k, 56) == Phdr(kind, flags, at, size, align)
    requires kind < 8 && flags < 8 && at < 0x80_0000 && size < 0x80_0000 && align < 0x1_0000
    ensures SegmentAt(img, k) == Loaded(kind, flags, at, size, align)
  {
    hide LE, Num;
    var (p, s) := (64 + 56 * k, Phdr(kind, flags, at, size, align));
    PhdrParts(kind, flags, at, size, align);
    FieldIs(img, p, s, 0, 4, kind);
    FieldIs(img, p, s, 4, 4, flags);
    FieldIs(img, p, s, 8, 8, at);
    FieldIs(img, p, s, 16, 8, LOAD_BASE + at);
    FieldIs(img, p, s, 32, 8, size);
    FieldIs(img, p, s, 40, 8, size);
    FieldIs(img, p, s, 48, 8, align);
  }

  lemma PhdrParts(kind: nat, flags: nat, at: nat, size: nat, align: nat)
    ensures var s := Phdr(kind, flags, at, size, align);
      && s[0..4] == LE(kind, 4) && s[4..8] == LE(flags, 4) && s[8..16] == LE(at, 8) && s[16..24] == LE(LOAD_BASE + at, 8)
      && s[32..40] == LE(size, 8) && s[40..48] == LE(size, 8) && s[48..56] == LE(align, 8)
  {
    hide LE;
    var s := Phdr(kind, flags, at, size, align);
    assert s[48..56] == s[48..];
  }

  /** The five program headers. */
  predicate SegmentsAre(img: seq<Byte>, interp: nat, interpLen: nat, code: nat, data: nat, end: nat) {
    && HeaderAt(img, 0) == 64 && HeaderCount(img) == 5 && data <= end
    && SegmentAt(img, 0) == Loaded(6, R, 64, 5 * 56, 8)
    && SegmentAt(img, 1) == Loaded(3, R, interp, interpLen, 1)
    && SegmentAt(img, 2) == Loaded(1, R + X, 0, code, 0x1000)
    && SegmentAt(img, 3) == Loaded(1, R + W, data, end - data, 0x1000)
    && SegmentAt(img, 4) == Loaded(2, R + W, data, 11 * 16, 8)
  }

  predicate Mapped(img: seq<Byte>, inp: Input) {
    var l := LayoutFor(inp);
    && l.end <= |img| && l.text + |inp.text| <= l.dynamic <= l.end
    && SegmentsAre(img, l.interp, |Interp(inp.arch)| + 1, l.text + |inp.text|, l.dynamic, l.end)
  }

  lemma HeadersAt(img: seq<Byte>, inp: Input, bucket: seq<nat>, chain: seq<nat>)
    requires Ready(img, inp, bucket, chain)
    ensures |img| >= 344 && Sub(img, 0, 40) == FileHeader(inp.arch, LayoutFor(inp).stub) && Sub(img, 52, 6) == HeaderSizes()
    ensures var entries := Phdrs(inp.arch, LayoutFor(inp), |inp.names|, |inp.text|);
      forall k :: 0 <= k < NPHDR ==> Sub(img, 64 + 56 * k, 56) == entries[k]
  {
    hide In, HoldsRegions, LayoutFor, Dynstr, GoodNames, Writable, Table, Phdrs, FileHeader, HeaderSizes, Sub;
    hide InterpChunk, SymChunk, DynstrChunk, HashChunk, RelaChunk, DynamicChunk, StubChunk, GotChunk, Plt0Chunk, PltChunk, SlotChunk,
      TextChunk;
    RegionsIn(img, inp, bucket, chain);
    WholeRegion(img, HeaderChunk(inp));
    WholeRegion(img, SizesChunk());
    var entries := Phdrs(inp.arch, LayoutFor(inp), |inp.names|, |inp.text|);
    PhdrsIn(img, inp);
    forall k | 0 <= k < NPHDR ensures Sub(img, 64 + 56 * k, 56) == entries[k] {
      TableEntry(entries, 56, k);
      FromRegion(img, PhdrChunk(inp), 56 * k, 56);
    }
  }

  lemma PhdrsIn(img: seq<Byte>, inp: Input)
    requires In(img, PhdrChunk(inp))
    ensures |img| >= 64 + 56 * NPHDR
  {
    hide LayoutFor, Phdrs;
  }

  /** The kernel accepts the file, enters it at the stub, and maps it as the layout says. */
  lemma HeadersRead(img: seq<Byte>, inp: Input, bucket: seq<nat>, chain: seq<nat>)
    requires Ready(img, inp, bucket, chain)
    ensures Accepted(inp.arch, img) && EntryPoint(img) == LOAD_BASE + LayoutFor(inp).stub && Mapped(img, inp)
  {
    hide In, HoldsRegions, LayoutFor, Dynstr, GoodNames, Writable, FileHeader, HeaderSizes, Phdr, Sub, Num, Accepted, EntryPoint,
      HeaderCount, SegmentAt;
    HeadersAt(img, inp, bucket, chain);
    ReadyInput(img, inp, bucket, chain);
    RegionsOrdered(inp);
    var l := LayoutFor(inp);
    HeaderReads(img, inp.arch, l.stub);
    var entries := Phdrs(inp.arch, l, |inp.names|, |inp.text|);
    assert Sub(img, 64 + 56 * 0, 56) == entries[0] && Sub(img, 64 + 56 * 1, 56) == entries[1];
    assert Sub(img, 64 + 56 * 2, 56) == entries[2] && Sub(img, 64 + 56 * 3, 56) == entries[3] && Sub(img, 64 + 56 * 4, 56) == entries[4];
    PhdrReads(img, 0, 6, 4, 64, 5 * 56, 8);
    PhdrReads(img, 1, 3, 4, l.interp, |Interp(inp.arch)| + 1, 1);
    PhdrReads(img, 2, 1, 5, 0, l.text + |inp.text|, 0x1000);
    PhdrReads(img, 3, 1, 6, l.dynamic, l.end - l.dynamic, 0x1000);
    PhdrReads(img, 4, 2, 6, l.dynamic, 11 * 16, 8);
  }

  // ---- Memory ----

  /** Everything up to the end of the text is loaded to be read and executed. */
  lemma CodePlace(img: seq<Byte>, inp: Input, at: nat, n: nat)
    requires Mapped(img, inp) && n > 0 && at + n <= LayoutFor(inp).text + |inp.text|
    ensures Place(img, LOAD_BASE + at, n, X, 0) == Place(img, LOAD_BASE + at, n, R, 0) == at
    ensures Fetch(img, LOAD_BASE + at, n) == Some(Sub(img, at, n)) && Read(img, LOAD_BASE + at, n) == Number(img, at, n)
  {
    hide LayoutFor, SegmentAt, HeaderCount, FromLE;
    var a := LOAD_BASE + at;
    assert Place(img, a, n, X, 1) == Place(img, a, n, X, 2) == at;
    assert Place(img, a, n, R, 1) == Place(img, a, n, R, 2) == at;
  }

  lemma CodeRead(img: seq<Byte>, inp: Input, at: nat, n: nat)
    requires Mapped(img, inp) && n > 0 && at + n <= LayoutFor(inp).text + |inp.text|
    ensures at + n <= |img| && Read(img, LOAD_BASE + at, n) == Number(img, at, n)
  {
    hide LayoutFor, SegmentsAre, Read, Fetch, Number;
    CodePlace(img, inp, at, n);
  }

  lemma CodeFetch(img: seq<Byte>, inp: Input, at: nat, n: nat)
    requires Mapped(img, inp) && n > 0 && at + n <= LayoutFor(inp).text + |inp.text|
    ensures at + n <= |img| && Fetch(img, LOAD_BASE + at, n) == Some(Sub(img, at, n))
  {
    hide LayoutFor, SegmentsAre, Read, Fetch, Number, Sub;
    CodePlace(img, inp, at, n);
  }

  /** The dynamic section and the GOT are loaded to be read and written. */
  lemma DataPlace(img: seq<Byte>, inp: Input, at: nat, n: nat)
    requires Mapped(img, inp) && n > 0 && LayoutFor(inp).dynamic <= at && at + n <= LayoutFor(inp).end
    ensures Place(img, LOAD_BASE + at, n, W, 0) == Place(img, LOAD_BASE + at, n, R, 0) == at
    ensures CanWrite(img, LOAD_BASE + at, n) && Read(img, LOAD_BASE + at, n) == Number(img, at, n)
  {
    hide LayoutFor, SegmentAt, HeaderCount, FromLE;
    var a := LOAD_BASE + at;
    assert Place(img, a, n, W, 3) == Place(img, a, n, R, 3) == at;
    assert Place(img, a, n, W, 1) == Place(img, a, n, W, 2) == at;
    assert Place(img, a, n, R, 1) == Place(img, a, n, R, 2) == at;
  }

  // ---- The dynamic section ----

  lemma {:induction false} TagFound(img: seq<Byte>, a: int, left: nat, tag: int, k: nat)
    requires k < left && Read(img, a + 16 * k, 8) == tag
    requires forall j :: 0 <= j < k ==> Read(img, a + 16 * j, 8) != tag && Read(img, a + 16 * j, 8) != 0
    ensures Tagged(img, a, left, tag) == Read(img, a + 16 * k + 8, 8)
    decreases left
  {
    hide Read;
    if k > 0 {
      assert Read(img, a + 16 * 0, 8) != tag && Read(img, a + 16 * 0, 8) != 0;
      forall j | 0 <= j < k - 1 ensures Read(img, a + 16 + 16 * j, 8) != tag && Read(img, a + 16 + 16 * j, 8) != 0 {
        assert a + 16 + 16 * j == a + 16 * (j + 1);
      }
      assert a + 16 + 16 * (k - 1) == a + 16 * k;
      TagFound(img, a + 16, left - 1, tag, k - 1);
    }
  }

  lemma DynEntryReads(img: seq<Byte>, inp: Input, bucket: seq<nat>, chain: seq<nat>, k: nat)
    requires Ready(img, inp, bucket, chain) && Mapped(img, inp) && k < NDYN
    ensures var (pairs, a) := (DynPairs(LayoutFor(inp), |inp.names|, |Dynstr(inp.names)|), LOAD_BASE + LayoutFor(inp).dynamic + 16 * k);
      Read(img, a, 8) == pairs[k].0 && Read(img, a + 8, 8) == pairs[k].1
  {
    hide In, HoldsRegions, LayoutFor, Dynstr, GoodNames, Writable, Mapped, Read, Sub, LE, FromLE, DynPairs, Number, DynEntry;
    var (l, pairs) := (LayoutFor(inp), DynPairs(LayoutFor(inp), |inp.names|, |Dynstr(inp.names)|));
    ReadyInput(img, inp, bucket, chain);
    RegionsOrdered(inp);
    DynEntryAt(img, inp, bucket, chain, k);
    DataPlace(img, inp, l.dynamic + 16 * k, 8);
    DataPlace(img, inp, l.dynamic + 16 * k + 8, 8);
    PairsSmall(inp, k);
    PairReads(img, l.dynamic + 16 * k, pairs[k]);
  }

  lemma PairReads(img: seq<Byte>, at: nat, pair: (nat, nat))
    requires at + 16 <= |img| && Sub(img, at, 16) == DynEntry(pair.0, pair.1) && pair.0 < P32 && pair.1 < P32
    ensures Number(img, at, 8) == pair.0 && Number(img, at + 8, 8) == pair.1
  {
    hide LE, FromLE;
    SubOfSlice(img, at, at + 16, 0, 8);
    SubOfSlice(img, at, at + 16, 8, 8);
    var e := DynEntry(pair.0, pair.1);
    assert Sub(e, 0, 8) == LE(pair.0, 8) && Sub(e, 8, 8) == LE(pair.1, 8);
    NumberBack(pair.0, 8);
    NumberBack(pair.1, 8);
  }

  lemma PairsSmall(inp: Input, k: nat)
    requires InputOk(inp) && k < NDYN
    ensures var pair := DynPairs(LayoutFor(inp), |inp.names|, |Dynstr(inp.names)|)[k]; pair.0 < P32 && pair.1 < P32
  {
    hide LayoutFor, Dynstr, GoodNames;
    RegionsOrdered(inp);
  }

  lemma DynEntryAt(img: seq<Byte>, inp: Input, bucket: seq<nat>, chain: seq<nat>, k: nat)
    requires Ready(img, inp, bucket, chain) && k < NDYN
    ensures var (pairs, at) := (DynPairs(LayoutFor(inp), |inp.names|, |Dynstr(inp.names)|), LayoutFor(inp).dynamic + 16 * k);
      at + 16 <= |img| && Sub(img, at, 16) == DynEntry(pairs[k].0, pairs[k].1)
  {
    hide In, HoldsRegions, LayoutFor, Dynstr, GoodNames, Writable, Sub, DynPairs, DynEntry, Table;
    hide HeaderChunk, SizesChunk, PhdrChunk, InterpChunk, SymChunk, DynstrChunk, HashChunk, RelaChunk, StubChunk, GotChunk, Plt0Chunk,
      PltChunk, SlotChunk, TextChunk;
    RegionsIn(img, inp, bucket, chain);
    TableEntry(DynEntries(DynPairs(LayoutFor(inp), |inp.names|, |Dynstr(inp.names)|)), 16, k);
    FromRegion(img, DynamicChunk(inp), 16 * k, 16);
  }

  /** The value found by a tag is that of its entry. */
  lemma DynIs(img: seq<Byte>, inp: Input, bucket: seq<nat>, chain: seq<nat>, k: nat)
    requires Ready(img, inp, bucket, chain) && Mapped(img, inp) && k < NDYN - 1
    ensures var pair := DynPairs(LayoutFor(inp), |inp.names|, |Dynstr(inp.names)|)[k]; Dyn(img, pair.0) == pair.1
  {
    hide In, HoldsRegions, LayoutFor, Dynstr, GoodNames, Writable, Read, Ready, DynPairs, Mapped;
    var (pairs, a) := (DynPairs(LayoutFor(inp), |inp.names|, |Dynstr(inp.names)|), LOAD_BASE + LayoutFor(inp).dynamic);
    TagsDiffer(LayoutFor(inp), |inp.names|, |Dynstr(inp.names)|, k);
    forall j | 0 <= j < k ensures Read(img, a + 16 * j, 8) != pairs[k].0 && Read(img, a + 16 * j, 8) != 0 {
      DynEntryReads(img, inp, bucket, chain, j);
      assert pairs[j].0 != pairs[k].0;
    }
    DynEntryReads(img, inp, bucket, chain, k);
    TagFound(img, a, 11, pairs[k].0, k);
    DynSegment(img, inp);
  }

  lemma TagsDiffer(l: Layout, nimp: nat, dynstrLen: nat, k: nat)
    requires k < NDYN - 1
    ensures var pairs := DynPairs(l, nimp, dynstrLen); forall j :: 0 <= j < k ==> pairs[j].0 != pairs[k].0 && pairs[j].0 != 0
  {
  }

  lemma DynSegment(img: seq<Byte>, inp: Input)
    requires Mapped(img, inp)
    ensures FindSegment(img, 2, 0) == Some(Loaded(2, R + W, LayoutFor(inp).dynamic, 11 * 16, 8))
    ensures FindSegment(img, 3, 0) == Some(Loaded(3, R, LayoutFor(inp).interp, |Interp(inp.arch)| + 1, 1))
  {
    hide LayoutFor, SegmentAt, HeaderCount;
    assert FindSegment(img, 2, 3) == FindSegment(img, 2, 4);
    assert FindSegment(img, 2, 1) == FindSegment(img, 2, 2) == FindSegment(img, 2, 3);
    assert FindSegment(img, 3, 0) == FindSegment(img, 3, 1);
  }

  /** What the loader learns from the dynamic section. */
  predicate DynamicIs(img: seq<Byte>, inp: Input) {
    var l := LayoutFor(inp);
    && Dyn(img, 1) == 1 && Dyn(img, 4) == LOAD_BASE + l.hash && Dyn(img, 5) == LOAD_BASE + l.dynstr
    && Dyn(img, 6) == LOAD_BASE + l.dynsym && Dyn(img, 10) == |Dynstr(inp.names)| && Dyn(img, 11) == 24
    && Dyn(img, 3) == LOAD_BASE + l.got && Dyn(img, 2) == 24 * |inp.names| && Dyn(img, 20) == 7 && Dyn(img, 23) == LOAD_BASE + l.rela
  }

  lemma DynamicReads(img: seq<Byte>, inp: Input, bucket: seq<nat>, chain: seq<nat>)
    requires Ready(img, inp, bucket, chain) && Mapped(img, inp)
    ensures DynamicIs(img, inp)
  {
    hide Dyn, Ready, Mapped, LayoutFor, Dynstr;
    DynIs(img, inp, bucket, chain, 0);
    DynIs(img, inp, bucket, chain, 1);
    DynIs(img, inp, bucket, chain, 2);
    DynIs(img, inp, bucket, chain, 3);
    DynIs(img, inp, bucket, chain, 4);
    DynIs(img, inp, bucket, chain, 5);
    DynIs(img, inp, bucket, chain, 6);
    DynIs(img, inp, bucket, chain, 7);
    DynIs(img, inp, bucket, chain, 8);
    DynIs(img, inp, bucket, chain, 9);
  }
}
