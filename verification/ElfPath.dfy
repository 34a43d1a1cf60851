// The path of an external call through the dynamic image.
module ElfPath {
  import opened Words
  import opened TypeSys
  import opened LinkLayout
  import opened ElfBytes
  import opened ElfArch
  import opened ElfImage
  import X86RoundTrip

  predicate InputOk(inp: Input) {
    && Writable(inp) && GoodNames(inp.names)
    && LayoutFor(inp).total <= IMG_SIZE
    && inp.entry < |inp.text|
    && (forall k :: 0 <= k < |inp.calls| ==> inp.calls[k].import_ < |inp.names|)
  }

  /** Region k is in its place. */
  predicate RegionKept(img: seq<Byte>, inp: Input, bucket: seq<nat>, chain: seq<nat>, k: nat)
    requires Writable(inp) && |bucket| == |inp.names| && |chain| == |inp.names| + 1 && k < 15
  {
    In(img, Chunks(inp, bucket, chain)[k])
  }

  predicate In(img: seq<Byte>, c: Chunk) { End(c) <= |img| && img[c.at..End(c)] == c.bytes }

  /** An image that has every region in its place. */
  predicate HoldsRegions(img: seq<Byte>, inp: Input, bucket: seq<nat>, chain: seq<nat>)
    requires Writable(inp) && |bucket| == |inp.names| && |chain| == |inp.names| + 1
  {
    && LayoutFor(inp).end <= |img|
    && forall k :: 0 <= k < 15 ==> RegionKept(img, inp, bucket, chain, k)
  }

  lemma ComposedHoldsRegions(b: seq<Byte>, inp: Input, bucket: seq<nat>, chain: seq<nat>)
    requires Writable(inp) && |bucket| == |inp.names| && |chain| == |inp.names| + 1
    requires LayoutFor(inp).end <= |b|
    ensures Fit(Chunks(inp, bucket, chain), |b|) && HoldsRegions(Compose(b, Chunks(inp, bucket, chain)), inp, bucket, chain)
  {
    hide Chunks, LayoutFor, Compose, Disjoint, Writable;
    RegionsDisjoint(inp, bucket, chain);
    var cs := Chunks(inp, bucket, chain);
    forall k | 0 <= k < 15 ensures RegionKept(Compose(b, cs), inp, bucket, chain, k) {
      ChunkKept(b, cs, k);
    }
  }

  /** A part of a region, read from the image. */
  lemma FromRegion(img: seq<Byte>, c: Chunk, at: nat, n: nat)
    requires In(img, c) && at + n <= |c.bytes|
    ensures c.at + at + n <= |img| && Sub(img, c.at + at, n) == Sub(c.bytes, at, n)
  {
    SubOfSlice(img, c.at, End(c), at, n);
  }

  function Number(img: seq<Byte>, at: nat, n: nat): nat
    requires at + n <= |img|
  {
    FromLE(Sub(img, at, n))
  }

  lemma NumberBack(v: nat, n: nat)
    requires IsSize(n) && FitsU(n, v)
    ensures FromLE(LE(v, n)) == v
  {
    FromLERoundTrip(v, n);
    ModulusIsPow256(n);
    LowMod(n, v);
    LowSmall(n, v);
  }

  /** All addresses lie in the first 8 MiB. */
  lemma AddressesNear(inp: Input, i: nat)
    requires InputOk(inp) && i < |inp.names|
    ensures var l := LayoutFor(inp);
      && PltAddr(inp.arch, l, i) + 16 < 0x80_0000 && SlotAddr(l, i) + 8 < 0x80_0000 && LOAD_BASE + l.text + |inp.text| < 0x80_0000
      && SlotAddr(l, i) % 8 == 0 && PltAddr(inp.arch, l, i) % 4 == 0 && (LOAD_BASE + l.text) % 16 == 0
      && l.plt < 0x8_0000 && l.dynstr + |Dynstr(inp.names)| < 0x8_0000
  {
    hide In, HoldsRegions, LayoutFor, Dynstr, GoodNames;
    RegionsOrdered(inp);
    Aligned(inp);
    Alignments(inp.arch, LayoutFor(inp), i);
  }

  lemma Aligned(inp: Input)
    ensures LayoutFor(inp).stub % 16 == 0 && LayoutFor(inp).text % 16 == 0 && LayoutFor(inp).got % 8 == 0
    ensures LayoutFor(inp).plt == LayoutFor(inp).stub + StubSize(inp.arch)
  {
    LayoutAligned(inp.arch, |inp.names|, |Dynstr(inp.names)|, |inp.text|);
  }

  lemma Alignments(arch: Arch, l: Layout, i: nat)
    requires l.stub % 16 == 0 && l.text % 16 == 0 && l.got % 8 == 0 && l.plt == l.stub + StubSize(arch)
    ensures SlotAddr(l, i) % 8 == 0 && PltAddr(arch, l, i) % 4 == 0 && (LOAD_BASE + l.text) % 16 == 0
  {
    SlotAligned(l, i);
    PltAligned(arch, l, i);
    TextAligned(l.text);
  }

  lemma SlotAligned(l: Layout, i: nat)
    requires l.got % 8 == 0
    ensures SlotAddr(l, i) % 8 == 0
  {
    DivModUnique(SlotAddr(l, i), 8, l.got / 8 + 0x8_0000 + GOT_RESERVED + i, 0);
  }

  lemma PltAligned(arch: Arch, l: Layout, i: nat)
    requires l.stub % 16 == 0 && l.plt == l.stub + StubSize(arch)
    ensures PltAddr(arch, l, i) % 4 == 0
  {
    var fours := 0x10_0000 + 4 * (l.stub / 16) + (if arch.X86_64? then 7 else 10) + 4 * i;
    DivModUnique(PltAddr(arch, l, i), 4, fours, 0);
  }

  lemma TextAligned(text: nat)
    requires text % 16 == 0
    ensures (LOAD_BASE + text) % 16 == 0
  {
    DivModUnique(LOAD_BASE + text, 16, 0x4_0000 + text / 16, 0);
  }

  // ---- One import ----

  ghost predicate Ready(img: seq<Byte>, inp: Input, bucket: seq<nat>, chain: seq<nat>) {
    && InputOk(inp) && |bucket| == |inp.names| && |chain| == |inp.names| + 1
    && HoldsRegions(img, inp, bucket, chain)
  }

  lemma RegionsIn(img: seq<Byte>, inp: Input, bucket: seq<nat>, chain: seq<nat>)
    requires Ready(img, inp, bucket, chain)
    ensures In(img, HeaderChunk(inp)) && In(img, SizesChunk()) && In(img, PhdrChunk(inp)) && In(img, InterpChunk(inp))
    ensures In(img, SymChunk(inp)) && In(img, DynstrChunk(inp)) && In(img, HashChunk(inp, bucket, chain)) && In(img, RelaChunk(inp))
    ensures In(img, DynamicChunk(inp)) && In(img, StubChunk(inp)) && In(img, GotChunk(inp)) && In(img, Plt0Chunk(inp))
    ensures In(img, PltChunk(inp, |inp.names|)) && In(img, SlotChunk(inp, |inp.names|)) && In(img, TextChunk(inp))
  {
    hide In, LayoutFor, SymChunk, DynstrChunk, HashChunk, RelaChunk, PltChunk, SlotChunk, TextChunk, InterpChunk, DynamicChunk,
      StubChunk, GotChunk, Plt0Chunk, HeaderChunk, SizesChunk, PhdrChunk, Writable, GoodNames, End;
    assert forall k :: 0 <= k < 15 ==> RegionKept(img, inp, bucket, chain, k);
    assert RegionKept(img, inp, bucket, chain, 0) && RegionKept(img, inp, bucket, chain, 1) && RegionKept(img, inp, bucket, chain, 2);
    assert RegionKept(img, inp, bucket, chain, 3) && RegionKept(img, inp, bucket, chain, 4) && RegionKept(img, inp, bucket, chain, 5);
    assert RegionKept(img, inp, bucket, chain, 6) && RegionKept(img, inp, bucket, chain, 7) && RegionKept(img, inp, bucket, chain, 8);
    assert RegionKept(img, inp, bucket, chain, 9) && RegionKept(img, inp, bucket, chain, 10) && RegionKept(img, inp, bucket, chain, 11);
    assert RegionKept(img, inp, bucket, chain, 12) && RegionKept(img, inp, bucket, chain, 13) && RegionKept(img, inp, bucket, chain, 14);
  }

  /** PLT entry i jumps through slot i; on x86-64 what follows the jump pushes i. */
  lemma PltWired(img: seq<Byte>, inp: Input, bucket: seq<nat>, chain: seq<nat>, i: nat)
    requires Ready(img, inp, bucket, chain) && i < |inp.names|
    ensures var (arch, l) := (inp.arch, LayoutFor(inp)); var at := l.plt + Plt0Size(arch) + 16 * i;
      && at + 16 <= l.text && l.text <= |img|
      && JumpsThrough(arch, Sub(img, at, 16), PltAddr(arch, l, i)) == Some(SlotAddr(l, i))
      && (arch.X86_64? ==> PushAndJump(Sub(img, at + 6, 10), PltAddr(arch, l, i) + 6) == Some((i, LOAD_BASE + l.plt)))
  {
    hide In, HoldsRegions, LayoutFor, JumpsThrough, PltEntry, Dynstr, GoodNames, Table, Writable, PushAndJump, Sub;
    var l := LayoutFor(inp);
    var at := l.plt + Plt0Size(inp.arch) + 16 * i;
    PltAt(img, inp, bucket, chain, i);
    ReadyInput(img, inp, bucket, chain);
    AddressesNear(inp, i);
    NamesFew(inp);
    RegionsOrdered(inp);
    var (plt, plt0, slot) := (PltAddr(inp.arch, l, i), LOAD_BASE + l.plt, SlotAddr(l, i));
    PushPart(inp.arch, i, plt, plt0, slot);
    SubOfSub(img, at, 16, 6, 10);
    assert inp.arch.X86_64? ==> PushAndJump(Sub(Sub(img, at, 16), 6, 10), plt + 6) == Some((i, plt0));
  }

  lemma PushPart(arch: Arch, i: nat, plt: int, plt0: int, slot: int)
    requires Near(plt + 16) && Near(plt) && Near(plt0) && Near(slot) && (arch.AArch64? ==> slot % 8 == 0) && i < 0x8000_0000
    ensures var bs := PltEntry(arch, i, plt, plt0, slot);
      && JumpsThrough(arch, bs, plt) == Some(slot)
      && (arch.X86_64? ==> PushAndJump(Sub(bs, 6, 10), plt + 6) == Some((i, plt0)))
  {
    hide PltEntry, JumpsThrough, PushAndJump;
    var bs := PltEntry(arch, i, plt, plt0, slot);
    PltEntryMeaning(arch, i, plt, plt0, slot);
    assert Sub(bs, 6, 10) == bs[6..];
  }

  lemma SubOfSub(b: seq<Byte>, at: nat, n: nat, k: nat, m: nat)
    requires at + n <= |b| && k + m <= n
    ensures Sub(Sub(b, at, n), k, m) == Sub(b, at + k, m)
  {
    SubOfSlice(b, at, at + n, k, m);
  }

  /** The entry stands in the image. */
  lemma PltAt(img: seq<Byte>, inp: Input, bucket: seq<nat>, chain: seq<nat>, i: nat)
    requires Ready(img, inp, bucket, chain) && i < |inp.names|
    ensures var (arch, l) := (inp.arch, LayoutFor(inp)); var at := l.plt + Plt0Size(arch) + 16 * i;
      at + 16 <= |img| && Sub(img, at, 16) == PltEntry(arch, i, PltAddr(arch, l, i), LOAD_BASE + l.plt, SlotAddr(l, i))
  {
    hide In, HoldsRegions, LayoutFor, PltEntry, Dynstr, GoodNames, Table, Writable, Sub;
    hide HeaderChunk, SizesChunk, PhdrChunk, InterpChunk, SymChunk, DynstrChunk, HashChunk, RelaChunk, DynamicChunk, StubChunk,
      GotChunk, Plt0Chunk, SlotChunk, TextChunk;
    var l := LayoutFor(inp);
    RegionsIn(img, inp, bucket, chain);
    TableEntry(PltEntries(inp.arch, l, |inp.names|), 16, i);
    FromRegion(img, PltChunk(inp, |inp.names|), 16 * i, 16);
  }

  /** The first PLT entry hands over to what the third GOT word holds; the first GOT word is the
      address of the dynamic section. */
  lemma Plt0Wired(img: seq<Byte>, inp: Input, bucket: seq<nat>, chain: seq<nat>)
    requires Ready(img, inp, bucket, chain)
    ensures var (l, got) := (LayoutFor(inp), LOAD_BASE + LayoutFor(inp).got);
      && l.plt + 20 <= l.text && l.text <= |img|
      && Header(inp.arch, img, l.plt, got)
      && l.got + 8 <= |img| && Number(img, l.got, 8) == LOAD_BASE + l.dynamic
  {
    hide In, HoldsRegions, LayoutFor, Dynstr, GoodNames, Writable, Plt0, PushAndJumpThrough, SaveAndJumpThrough, LE, FromLE, Sub;
    var l := LayoutFor(inp);
    ReadyInput(img, inp, bucket, chain);
    RegionsOrdered(inp);
    Aligned(inp);
    AddressesNear(inp, 0);
    GotAddress(l.got);
    Plt0At(img, inp, bucket, chain);
    HeaderPart(inp.arch, LOAD_BASE + l.plt, LOAD_BASE + l.got);
    var n := if inp.arch.X86_64? then 12 else 20;
    SubOfSub(img, l.plt, Plt0Size(inp.arch), 0, n);
    NumberBack(LOAD_BASE + l.dynamic, 8);
  }

  /** The code at `plt` of the image is the way into the resolver. */
  predicate Header(arch: Arch, img: seq<Byte>, plt: nat, got: int)
    requires plt + 20 <= |img|
  {
    match arch
    case X86_64 => PushAndJumpThrough(Sub(img, plt, 12), LOAD_BASE + plt) == Some((got + 8, got + 16))
    case AArch64 => SaveAndJumpThrough(Sub(img, plt, 20), LOAD_BASE + plt) == Some(got + 16)
  }

  lemma HeaderPart(arch: Arch, plt0: int, got: int)
    requires Near(plt0) && Near(plt0 + 32) && Near(got) && Near(got + 16) && (arch.AArch64? ==> got % 8 == 0)
    ensures var bs := Plt0(arch, plt0, got);
      match arch
      case X86_64 => PushAndJumpThrough(Sub(bs, 0, 12), plt0) == Some((got + 8, got + 16))
      case AArch64 => SaveAndJumpThrough(Sub(bs, 0, 20), plt0) == Some(got + 16)
  {
    hide Plt0, PushAndJumpThrough, SaveAndJumpThrough;
    Plt0Meaning(arch, plt0, got);
    var bs := Plt0(arch, plt0, got);
    match arch
    case X86_64 => assert Sub(bs, 0, 12) == bs[..12];
    case AArch64 => assert Sub(bs, 0, 20) == bs[..20];
  }

  /** The first entry and the first GOT word stand in the image. */
  lemma Plt0At(img: seq<Byte>, inp: Input, bucket: seq<nat>, chain: seq<nat>)
    requires Ready(img, inp, bucket, chain)
    ensures var l := LayoutFor(inp);
      && l.plt + Plt0Size(inp.arch) <= |img| && l.got + 8 <= |img|
      && Sub(img, l.plt, Plt0Size(inp.arch)) == Plt0(inp.arch, LOAD_BASE + l.plt, LOAD_BASE + l.got)
      && Sub(img, l.got, 8) == LE(LOAD_BASE + l.dynamic, 8)
  {
    hide In, HoldsRegions, LayoutFor, Dynstr, GoodNames, Writable, Plt0, LE, Sub;
    hide HeaderChunk, SizesChunk, PhdrChunk, InterpChunk, SymChunk, DynstrChunk, HashChunk, RelaChunk, DynamicChunk, StubChunk,
      PltChunk, SlotChunk, TextChunk;
    RegionsIn(img, inp, bucket, chain);
    WholeRegion(img, Plt0Chunk(inp));
    WholeRegion(img, GotChunk(inp));
  }

  lemma GotAddress(got: nat)
    requires got % 8 == 0
    ensures (LOAD_BASE + got) % 8 == 0
  {
    DivModUnique(LOAD_BASE + got, 8, 0x8_0000 + got / 8, 0);
  }

  lemma SlotWired(img: seq<Byte>, inp: Input, bucket: seq<nat>, chain: seq<nat>, i: nat)
    requires Ready(img, inp, bucket, chain) && i < |inp.names|
    ensures var (arch, l) := (inp.arch, LayoutFor(inp));
      && SlotAddr(l, i) - LOAD_BASE + 8 <= |img|
      && Number(img, SlotAddr(l, i) - LOAD_BASE, 8) == GotInitial(arch, PltAddr(arch, l, i), LOAD_BASE + l.plt)
  {
    hide In, HoldsRegions, LayoutFor, Dynstr, GoodNames, LE, FromLE, Writable, Ready, Sub;
    var l := LayoutFor(inp);
    SlotAt(img, inp, bucket, chain, i);
    ReadyInput(img, inp, bucket, chain);
    AddressesNear(inp, i);
    NumberBack(GotInitial(inp.arch, PltAddr(inp.arch, l, i), LOAD_BASE + l.plt), 8);
  }

  /** The slot's bytes stand in the image. */
  lemma SlotAt(img: seq<Byte>, inp: Input, bucket: seq<nat>, chain: seq<nat>, i: nat)
    requires Ready(img, inp, bucket, chain) && i < |inp.names|
    ensures var (arch, l) := (inp.arch, LayoutFor(inp)); var at := SlotAddr(l, i) - LOAD_BASE;
      at + 8 <= |img| && Sub(img, at, 8) == LE(GotInitial(arch, PltAddr(arch, l, i), LOAD_BASE + l.plt), 8)
  {
    hide In, HoldsRegions, LayoutFor, Dynstr, GoodNames, Table, LE, Writable, Sub, GotInitial, PltAddr;
    hide HeaderChunk, SizesChunk, PhdrChunk, InterpChunk, SymChunk, DynstrChunk, HashChunk, RelaChunk, DynamicChunk, StubChunk,
      GotChunk, Plt0Chunk, PltChunk, TextChunk;
    var l := LayoutFor(inp);
    RegionsIn(img, inp, bucket, chain);
    TableEntry(GotEntries(inp.arch, l, |inp.names|), 8, i);
    FromRegion(img, SlotChunk(inp, |inp.names|), 8 * i, 8);
  }

  lemma RelaWired(img: seq<Byte>, inp: Input, bucket: seq<nat>, chain: seq<nat>, i: nat)
    requires Ready(img, inp, bucket, chain) && i < |inp.names|
    ensures var (arch, l) := (inp.arch, LayoutFor(inp));
      && l.rela + 24 * i + 24 <= |img|
      && Number(img, l.rela + 24 * i, 8) == SlotAddr(l, i)
      && Number(img, l.rela + 24 * i + 8, 8) == (i + 1) * P32 + JumpSlot(arch)
      && Number(img, l.rela + 24 * i + 16, 8) == 0
  {
    hide In, HoldsRegions, LayoutFor, Dynstr, GoodNames, Writable, SlotAddr, PltAddr, RelaEntry, Number, Ready, RelaChunk;
    var l := LayoutFor(inp);
    RelaAt(img, inp, bucket, chain, i);
    ReadyInput(img, inp, bucket, chain);
    AddressesNear(inp, i);
    NamesFew(inp);
    RelaFields(img, inp.arch, l, i);
  }

  lemma NamesFew(inp: Input)
    requires InputOk(inp)
    ensures |inp.names| < 0x8_0000
  {
    hide In, HoldsRegions, LayoutFor, Dynstr, GoodNames;
    RegionsOrdered(inp);
  }

  /** The entry stands in the image. */
  lemma RelaAt(img: seq<Byte>, inp: Input, bucket: seq<nat>, chain: seq<nat>, i: nat)
    requires Ready(img, inp, bucket, chain) && i < |inp.names|
    ensures var l := LayoutFor(inp);
      l.rela + 24 * i + 24 <= |img| && Sub(img, l.rela + 24 * i, 24) == RelaEntry(inp.arch, l, i)
  {
    hide In, HoldsRegions, LayoutFor, Dynstr, GoodNames, Table, Writable, RelaEntry, Sub;
    hide HeaderChunk, SizesChunk, PhdrChunk, InterpChunk, SymChunk, DynstrChunk, HashChunk, DynamicChunk, StubChunk, GotChunk,
      Plt0Chunk, PltChunk, SlotChunk, TextChunk;
    var c := RelaChunk(inp);
    RegionsIn(img, inp, bucket, chain);
    TableEntry(RelaEntries(inp.arch, LayoutFor(inp), |inp.names|), 24, i);
    FromRegion(img, c, 24 * i, 24);
  }

  lemma ReadyInput(img: seq<Byte>, inp: Input, bucket: seq<nat>, chain: seq<nat>)
    requires Ready(img, inp, bucket, chain)
    ensures InputOk(inp) && Writable(inp) && inp.names != [] && LayoutFor(inp).end <= |img|
  {
    hide LayoutFor, GoodNames, RegionKept;
  }

  lemma RelaFields(img: seq<Byte>, arch: Arch, l: Layout, i: nat)
    requires l.rela + 24 * i + 24 <= |img| && Sub(img, l.rela + 24 * i, 24) == RelaEntry(arch, l, i)
    requires SlotAddr(l, i) < P32 && i < 0x8_0000
    ensures Number(img, l.rela + 24 * i, 8) == SlotAddr(l, i)
    ensures Number(img, l.rela + 24 * i + 8, 8) == (i + 1) * P32 + JumpSlot(arch)
    ensures Number(img, l.rela + 24 * i + 16, 8) == 0
  {
    hide LE, FromLE;
    var (at, e) := (l.rela + 24 * i, RelaEntry(arch, l, i));
    SubOfSlice(img, at, at + 24, 0, 8);
    SubOfSlice(img, at, at + 24, 8, 8);
    SubOfSlice(img, at, at + 24, 16, 8);
    assert Sub(e, 0, 8) == LE(SlotAddr(l, i), 8) && Sub(e, 8, 8) == LE((i + 1) * P32 + JumpSlot(arch), 8) && Sub(e, 16, 8) == LE(0, 8);
    NumberBack(0, 8);
    NumberBack(SlotAddr(l, i), 8);
    NumberBack((i + 1) * P32 + JumpSlot(arch), 8);
  }

  lemma SymWired(img: seq<Byte>, inp: Input, bucket: seq<nat>, chain: seq<nat>, i: nat)
    requires Ready(img, inp, bucket, chain) && i < |inp.names|
    ensures var l := LayoutFor(inp); var at := l.dynsym + 24 * (i + 1);
      && at + 24 <= |img|
      && Number(img, at, 4) == NameOff(inp.names, i)
      && Number(img, at + 4, 1) == 0x12 && Number(img, at + 6, 2) == 0 && Number(img, at + 8, 8) == 0
  {
    hide In, HoldsRegions, LayoutFor, Dynstr, GoodNames, Writable, NameOff, Sub, Number, SymEntry;
    var l := LayoutFor(inp);
    SymAt(img, inp, bucket, chain, i);
    NameWired(img, inp, bucket, chain, i);
    AddressesNear(inp, i);
    SymFields(img, l.dynsym + 24 * (i + 1), NameOff(inp.names, i));
  }

  /** The entry stands in the image, after the all-zero one. */
  lemma SymAt(img: seq<Byte>, inp: Input, bucket: seq<nat>, chain: seq<nat>, i: nat)
    requires Ready(img, inp, bucket, chain) && i < |inp.names|
    ensures var at := LayoutFor(inp).dynsym + 24 * (i + 1);
      at + 24 <= |img| && Sub(img, at, 24) == SymEntry(NameOff(inp.names, i))
  {
    hide In, HoldsRegions, LayoutFor, Dynstr, GoodNames, Table, Writable, SymEntry, NameOff, Sub;
    hide HeaderChunk, SizesChunk, PhdrChunk, InterpChunk, DynstrChunk, HashChunk, RelaChunk, DynamicChunk, StubChunk, GotChunk, Plt0Chunk,
      PltChunk, SlotChunk, TextChunk;
    RegionsIn(img, inp, bucket, chain);
    TableEntry(SymEntries(inp.names, |inp.names|), 24, i);
    FromRegion(img, SymChunk(inp), 24 * i, 24);
  }

  /** The name of import i stands in the string table, terminated. */
  lemma NameWired(img: seq<Byte>, inp: Input, bucket: seq<nat>, chain: seq<nat>, i: nat)
    requires Ready(img, inp, bucket, chain) && i < |inp.names|
    ensures var (l, n) := (LayoutFor(inp), |inp.names[i]| + 1);
      && NameOff(inp.names, i) + n <= |Dynstr(inp.names)| && l.dynstr + |Dynstr(inp.names)| <= l.text && l.text <= |img|
      && Sub(img, l.dynstr + NameOff(inp.names, i), n) == CString(inp.names[i])
  {
    hide In, HoldsRegions, LayoutFor, Dynstr, GoodNames, Table, Writable, NameOff, Sub;
    hide HeaderChunk, SizesChunk, PhdrChunk, InterpChunk, SymChunk, HashChunk, RelaChunk, DynamicChunk, StubChunk, GotChunk, Plt0Chunk,
      PltChunk, SlotChunk, TextChunk;
    NameAt(img, inp, bucket, chain, i);
    ReadyInput(img, inp, bucket, chain);
    RegionsOrdered(inp);
  }

  lemma NameAt(img: seq<Byte>, inp: Input, bucket: seq<nat>, chain: seq<nat>, i: nat)
    requires Ready(img, inp, bucket, chain) && i < |inp.names|
    ensures var (at, n) := (LayoutFor(inp).dynstr + NameOff(inp.names, i), |inp.names[i]| + 1);
      && NameOff(inp.names, i) + n <= |Dynstr(inp.names)|
      && at + n <= |img| && Sub(img, at, n) == CString(inp.names[i])
  {
    hide In, HoldsRegions, LayoutFor, Dynstr, GoodNames, Table, Writable, NameOff, Sub;
    hide HeaderChunk, SizesChunk, PhdrChunk, InterpChunk, SymChunk, HashChunk, RelaChunk, DynamicChunk, StubChunk, GotChunk, Plt0Chunk,
      PltChunk, SlotChunk, TextChunk;
    RegionsIn(img, inp, bucket, chain);
    NameInDynstr(inp.names, i);
    SubIsSlice(Dynstr(inp.names), NameOff(inp.names, i), |inp.names[i]| + 1);
    FromRegion(img, DynstrChunk(inp), NameOff(inp.names, i), |inp.names[i]| + 1);
  }

  lemma SubIsSlice(b: seq<Byte>, at: nat, n: nat)
    requires at + n <= |b|
    ensures Sub(b, at, n) == b[at..at + n]
  {
  }

  /** A global function, not defined here. */
  lemma SymFields(img: seq<Byte>, at: nat, nameOff: nat)
    requires at + 24 <= |img| && Sub(img, at, 24) == SymEntry(nameOff) && nameOff < P32
    ensures Number(img, at, 4) == nameOff && Number(img, at + 4, 1) == 0x12 && Number(img, at + 6, 2) == 0 && Number(img, at + 8, 8) == 0
  {
    hide LE, FromLE;
    SubOfSlice(img, at, at + 24, 0, 4);
    SubOfSlice(img, at, at + 24, 4, 1);
    SubOfSlice(img, at, at + 24, 6, 2);
    SubOfSlice(img, at, at + 24, 8, 8);
    var e := SymEntry(nameOff);
    assert Sub(e, 0, 4) == LE(nameOff, 4) && Sub(e, 4, 1) == [0x12] && Sub(e, 6, 2) == LE(0, 2) && Sub(e, 8, 8) == LE(0, 8);
    NumberBack(nameOff, 4);
    NumberBack(0, 2);
    NumberBack(0, 8);
    LE1(0x12);
    NumberBack(0x12, 1);
  }

  // ---- Calls ----

  /** Call fields do not overlap and hold calls. */
  predicate CallsOk(inp: Input) {
    && SitesFit(inp.calls, |inp.text|)
    && (forall i, j :: 0 <= i < j < |inp.calls| ==> inp.calls[i].site + 4 <= inp.calls[j].site)
    && (forall k :: 0 <= k < |inp.calls| ==>
          IsCall(inp.arch, inp.text[inp.calls[k].site..inp.calls[k].site + 4]) && (inp.arch.AArch64? ==> inp.calls[k].site % 4 == 0))
  }

  /** Bytes that no call field covers are copied as they are. */
  lemma {:induction false} TextKept(arch: Arch, l: Layout, text: seq<Byte>, calls: seq<ExtCall>, at: nat, n: nat)
    requires SitesFit(calls, |text|) && at + n <= |text|
    requires forall k :: 0 <= k < |calls| ==> calls[k].site + 4 <= at || at + n <= calls[k].site
    ensures PatchCalls(arch, l, text, calls)[at..at + n] == text[at..at + n]
  {
    hide PatchedCall, Overlay;
    if calls != [] {
      var (front, e) := (calls[..|calls| - 1], calls[|calls| - 1]);
      TextKept(arch, l, text, front, at, n);
      var t := PatchCalls(arch, l, text, front);
      OverlayElsewhere(t, e.site,
        PatchedCall(arch, t[e.site..e.site + 4], LOAD_BASE + l.text + e.site, PltAddr(arch, l, e.import_)), at, at + n);
    }
  }

  lemma {:induction false} CallPatched(arch: Arch, l: Layout, text: seq<Byte>, calls: seq<ExtCall>, k: nat)
    requires SitesFit(calls, |text|) && k < |calls|
    requires forall i, j :: 0 <= i < j < |calls| ==> calls[i].site + 4 <= calls[j].site
    ensures var (s, e) := (calls[k].site, calls[k]);
      PatchCalls(arch, l, text, calls)[s..s + 4]
        == PatchedCall(arch, text[s..s + 4], LOAD_BASE + l.text + s, PltAddr(arch, l, e.import_))
  {
    hide PatchedCall, Overlay;
    var (front, e) := (calls[..|calls| - 1], calls[|calls| - 1]);
    var t := PatchCalls(arch, l, text, front);
    var bs := PatchedCall(arch, t[e.site..e.site + 4], LOAD_BASE + l.text + e.site, PltAddr(arch, l, e.import_));
    if k < |front| {
      CallPatched(arch, l, text, front, k);
      OverlayElsewhere(t, e.site, bs, calls[k].site, calls[k].site + 4);
    } else {
      TextKept(arch, l, text, front, e.site, 4);
      OverlayInside(t, e.site, bs);
    }
  }

  lemma CallField(img: seq<Byte>, inp: Input, bucket: seq<nat>, chain: seq<nat>, k: nat)
    requires Ready(img, inp, bucket, chain) && CallsOk(inp) && k < |inp.calls|
    ensures var (l, e) := (LayoutFor(inp), inp.calls[k]);
      && l.text + e.site + 4 <= |img|
      && Sub(img, l.text + e.site, 4)
           == PatchedCall(inp.arch, inp.text[e.site..e.site + 4], LOAD_BASE + l.text + e.site, PltAddr(inp.arch, l, e.import_))
  {
    hide In, HoldsRegions, LayoutFor, Dynstr, GoodNames, PatchCalls, PatchedCall, IsCall, PltAddr, End;
    hide HeaderChunk, SizesChunk, PhdrChunk, InterpChunk, SymChunk, DynstrChunk, HashChunk, RelaChunk, DynamicChunk, StubChunk,
      GotChunk, Plt0Chunk, PltChunk, SlotChunk;
    var (l, e) := (LayoutFor(inp), inp.calls[k]);
    RegionsIn(img, inp, bucket, chain);
    TextChunkIs(inp);
    FromRegion(img, TextChunk(inp), e.site, 4);
    CallPatched(inp.arch, l, inp.text, inp.calls, k);
  }

  lemma TextChunkIs(inp: Input)
    requires Writable(inp)
    ensures TextChunk(inp) == Chunk(LayoutFor(inp).text, PatchCalls(inp.arch, LayoutFor(inp), inp.text, inp.calls))
  {
  }

  /** External call k goes exactly to the PLT entry of its import. */
  lemma CallReachesPlt(img: seq<Byte>, inp: Input, bucket: seq<nat>, chain: seq<nat>, k: nat)
    requires Ready(img, inp, bucket, chain) && CallsOk(inp) && k < |inp.calls|
    ensures var (l, s) := (LayoutFor(inp), inp.calls[k].site);
      && l.text + s + 4 <= |img|
      && CallTarget(inp.arch, Sub(img, l.text + s, 4), LOAD_BASE + l.text + s) == Some(PltAddr(inp.arch, l, inp.calls[k].import_))
  {
    hide HoldsRegions, LayoutFor, Dynstr, GoodNames, CallTarget, PatchedCall, IsCall, PltAddr, Writable, Sub;
    var (l, e) := (LayoutFor(inp), inp.calls[k]);
    CallField(img, inp, bucket, chain, k);
    AddressesNear(inp, e.import_);
    CallDistance(inp.arch, LOAD_BASE + l.text, e.site, PltAddr(inp.arch, l, e.import_));
    PatchedCallMeaning(inp.arch, inp.text[e.site..e.site + 4], LOAD_BASE + l.text + e.site, PltAddr(inp.arch, l, e.import_));
  }

  lemma CallDistance(arch: Arch, base: nat, site: nat, target: nat)
    requires base % 16 == 0 && target % 4 == 0 && (arch.AArch64? ==> site % 4 == 0)
    ensures arch.AArch64? ==> (target - (base + site)) % 4 == 0
  {
    if arch.AArch64? {
      assert target - (base + site) == 4 * (target / 4 - 4 * (base / 16) - site / 4);
    }
  }

  /** The hash section: bucket and chain words are those of a gABI table for the names. */
  lemma HashWired(img: seq<Byte>, inp: Input, bucket: seq<nat>, chain: seq<nat>)
    requires Ready(img, inp, bucket, chain)
    ensures LayoutFor(inp).hash + HashSize(|inp.names|) <= |img|
    ensures Sub(img, LayoutFor(inp).hash, HashSize(|inp.names|)) == HashBytes(bucket, chain)
  {
    hide LayoutFor, HoldsRegions, In, Writable, InputOk;
    hide HeaderChunk, SizesChunk, PhdrChunk, InterpChunk, SymChunk, DynstrChunk, RelaChunk, DynamicChunk, StubChunk, GotChunk,
      Plt0Chunk, PltChunk, SlotChunk, TextChunk;
    RegionsIn(img, inp, bucket, chain);
    WholeRegion(img, HashChunk(inp, bucket, chain));
  }

  lemma WholeRegion(img: seq<Byte>, c: Chunk)
    requires In(img, c)
    ensures End(c) <= |img| && Sub(img, c.at, |c.bytes|) == c.bytes
  {
  }

  /** The entry stub of the image calls main, at the text's entry offset, and then the PLT entry
      of the last name, "exit", with main's result. */
  lemma StubWired(img: seq<Byte>, inp: Input, bucket: seq<nat>, chain: seq<nat>)
    requires Ready(img, inp, bucket, chain) && (inp.arch.AArch64? ==> inp.entry % 4 == 0)
    ensures var (l, n) := (LayoutFor(inp), |inp.names|);
      var (stub, main_, exit_) := (LOAD_BASE + l.stub, LOAD_BASE + l.text + inp.entry, PltAddr(inp.arch, l, n - 1));
      && l.stub + StubSize(inp.arch) <= |img|
      && if inp.arch.X86_64? then X86RoundTrip.DecodeAll(Sub(img, l.stub, 12)) == StubCode(stub, main_, exit_)
         else
           && CallTarget(AArch64, Sub(img, l.stub, 4), stub) == Some(main_)
           && CallTarget(AArch64, Sub(img, l.stub + 4, 4), stub + 4) == Some(exit_)
  {
    hide LayoutFor, HoldsRegions, Dynstr, GoodNames, StartStub, CallTarget, PltAddr, Chunks, StubCode, X86RoundTrip.DecodeAll;
    var (l, n) := (LayoutFor(inp), |inp.names|);
    var size := StubSize(inp.arch);
    StubBytes(img, inp, bucket, chain);
    StubDistances(inp);
    StartStubMeaning(inp.arch, LOAD_BASE + l.stub, LOAD_BASE + l.text + inp.entry, PltAddr(inp.arch, l, n - 1));
    if inp.arch.AArch64? {
      SubOfSlice(img, l.stub, l.stub + size, 0, 4);
      SubOfSlice(img, l.stub, l.stub + size, 4, 4);
    }
  }

  lemma StubBytes(img: seq<Byte>, inp: Input, bucket: seq<nat>, chain: seq<nat>)
    requires Ready(img, inp, bucket, chain)
    ensures var (l, n) := (LayoutFor(inp), |inp.names|);
      && l.stub + StubSize(inp.arch) <= |img|
      && img[l.stub..l.stub + StubSize(inp.arch)]
           == StartStub(inp.arch, LOAD_BASE + l.stub, LOAD_BASE + l.text + inp.entry, PltAddr(inp.arch, l, n - 1))
  {
    hide LayoutFor, HoldsRegions, Dynstr, GoodNames, StartStub, PltAddr, Chunks;
    hide HeaderChunk, SizesChunk, PhdrChunk, InterpChunk, DynamicChunk, GotChunk, Plt0Chunk;
    hide StubChunk, TextChunk, SymChunk, DynstrChunk, HashChunk, RelaChunk, PltChunk, SlotChunk;
    RegionsIn(img, inp, bucket, chain);
    StubChunkIs(inp);
  }

  lemma StubChunkIs(inp: Input)
    requires inp.names != []
    ensures var (l, n) := (LayoutFor(inp), |inp.names|);
      StubChunk(inp) == Chunk(l.stub,
        StartStub(inp.arch, LOAD_BASE + l.stub, LOAD_BASE + l.text + inp.entry, PltAddr(inp.arch, l, n - 1)))
  {
    hide LayoutFor, StartStub, PltAddr;
  }

  lemma StubDistances(inp: Input)
    requires InputOk(inp) && (inp.arch.AArch64? ==> inp.entry % 4 == 0)
    ensures var (l, n) := (LayoutFor(inp), |inp.names|);
      var (stub, main_, exit_) := (LOAD_BASE + l.stub, LOAD_BASE + l.text + inp.entry, PltAddr(inp.arch, l, n - 1));
      && stub + 12 < 0x80_0000 && main_ < 0x80_0000 && exit_ < 0x80_0000
      && (inp.arch.AArch64? ==> stub % 4 == 0 && main_ % 4 == 0 && exit_ % 4 == 0)
  {
    hide LayoutFor, Dynstr, GoodNames, PltAddr, SlotAddr;
    var l := LayoutFor(inp);
    StubNear(inp);
    AddressesNear(inp, |inp.names| - 1);
    if inp.arch.AArch64? {
      Aligned(inp);
      FourFromSixteen(l.stub);
      FourFromSixteen(LOAD_BASE + l.text);
      FourMore(LOAD_BASE, l.stub);
      FourMore(LOAD_BASE + l.text, inp.entry);
    }
  }

  lemma StubNear(inp: Input)
    requires InputOk(inp)
    ensures LOAD_BASE + LayoutFor(inp).stub + 12 < 0x80_0000
  {
    hide LayoutFor, Dynstr, GoodNames;
    RegionsOrdered(inp);
  }

  lemma FourMore(x: nat, y: nat)
    requires x % 4 == 0 && y % 4 == 0
    ensures (x + y) % 4 == 0
  {
    DivModUnique(x + y, 4, x / 4 + y / 4, 0);
  }

  lemma FourFromSixteen(x: nat)
    requires x % 16 == 0
    ensures x % 4 == 0
  {
    assert x == 4 * (4 * (x / 16));
    DivModUnique(x, 4, 4 * (x / 16), 0);
  }
}
