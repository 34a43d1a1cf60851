// How the loader binds the calls of the image: every import through its symbol, relocation and
// slot, at once or on the first call.
module ElfBound {
  import opened Words
  import opened TypeSys
  import opened SysvHash
  import opened ElfBytes
  import opened ElfArch
  import opened ElfImage
  import opened ElfPath
  import opened ElfLoader
  import opened ElfLoaded
  import X86RoundTrip

  // ---- Names ----

  lemma ByteReads(img: seq<Byte>, inp: Input, at: nat)
    requires Mapped(img, inp) && at < LayoutFor(inp).text
    ensures at < |img| && Read(img, LOAD_BASE + at, 1) == img[at]
  {
    hide LayoutFor, Read, Mapped;
    MappedInside(img, inp);
    CodeRead(img, inp, at, 1);
    assert Sub(img, at, 1) == [img[at]];
    OneByte(img[at]);
  }

  lemma MappedInside(img: seq<Byte>, inp: Input)
    requires Mapped(img, inp)
    ensures LayoutFor(inp).text + |inp.text| <= |img|
  {
    hide LayoutFor, SegmentsAre;
  }

  lemma OneByte(b: Byte)
    ensures FromLE([b]) == b
  {
    assert [b][1..] == [];
  }

  /** A terminated string of the image is read back. */
  lemma {:induction false} TextReads(img: seq<Byte>, inp: Input, at: nat, end: nat, name: Name)
    requires Mapped(img, inp) && at + |name| + 1 <= end <= LayoutFor(inp).text <= |img|
    requires Sub(img, at, |name| + 1) == CString(name) && 0 !in name
    ensures Text(img, LOAD_BASE + at, LOAD_BASE + end) == Some(name)
    decreases |name|
  {
    hide LayoutFor, Read, Mapped;
    ByteReads(img, inp, at);
    assert img[at] == CString(name)[0];
    if name != [] {
      var rest := name[1..];
      assert Sub(img, at + 1, |rest| + 1) == Sub(img, at, |name| + 1)[1..] == CString(rest);
      TextReads(img, inp, at + 1, end, rest);
      assert Text(img, LOAD_BASE + at + 1, LOAD_BASE + end) == Some(rest);
      assert img[at] == name[0] && name[0] in name;
      assert [name[0]] + rest == name;
    }
  }

  /** Symbol i + 1 is import i. */
  lemma SymbolReads(img: seq<Byte>, inp: Input, bucket: seq<nat>, chain: seq<nat>, i: nat)
    requires Ready(img, inp, bucket, chain) && Mapped(img, inp) && DynamicIs(img, inp) && i < |inp.names|
    ensures Wants(img, i + 1, inp.names[i])
  {
    hide In, HoldsRegions, LayoutFor, Dynstr, Writable, Mapped, Read, Sub, LE, FromLE, Number, NameOff, Text, Dyn, GoodNames;
    var l := LayoutFor(inp);
    var at := l.dynsym + 24 * (i + 1);
    ReadyInput(img, inp, bucket, chain);
    RegionsOrdered(inp);
    SymWired(img, inp, bucket, chain, i);
    NameWired(img, inp, bucket, chain, i);
    CodeRead(img, inp, at, 4);
    CodeRead(img, inp, at + 4, 1);
    CodeRead(img, inp, at + 6, 2);
    CodeRead(img, inp, at + 8, 8);
    NameGood(inp, i);
    TextReads(img, inp, l.dynstr + NameOff(inp.names, i), l.dynstr + |Dynstr(inp.names)|, inp.names[i]);
  }

  lemma NameGood(inp: Input, i: nat)
    requires GoodNames(inp.names) && i < |inp.names|
    ensures 0 !in inp.names[i]
  {
  }

  /** Relocation i fills slot i with the address of import i. */
  lemma RelocationReads(img: seq<Byte>, inp: Input, bucket: seq<nat>, chain: seq<nat>, i: nat)
    requires Ready(img, inp, bucket, chain) && Mapped(img, inp) && DynamicIs(img, inp) && i < |inp.names|
    ensures Binds(inp.arch, img, i, SlotAddr(LayoutFor(inp), i), inp.names[i])
  {
    hide In, HoldsRegions, LayoutFor, Dynstr, Writable, Mapped, Read, LE, FromLE, Number, Dyn, GoodNames, Wants, CanWrite;
    var l := LayoutFor(inp);
    var at := l.rela + 24 * i;
    ReadyInput(img, inp, bucket, chain);
    RegionsOrdered(inp);
    RelaWired(img, inp, bucket, chain, i);
    CodeRead(img, inp, at, 8);
    CodeRead(img, inp, at + 8, 8);
    CodeRead(img, inp, at + 16, 8);
    DataPlace(img, inp, SlotAddr(l, i) - LOAD_BASE, 8);
    SymbolReads(img, inp, bucket, chain, i);
    InfoParts(i + 1, JumpSlot(inp.arch));
  }

  lemma InfoParts(symbol: nat, kind: nat)
    requires kind < P32
    ensures var v := symbol * P32 + kind; v / 0x1_0000_0000 == symbol && v % 0x1_0000_0000 == kind
  {
  }

  /** A jump through slot i before it is filled has the resolver told to do relocation i. */
  lemma SlotReads(img: seq<Byte>, inp: Input, bucket: seq<nat>, chain: seq<nat>, i: nat)
    requires Ready(img, inp, bucket, chain) && Mapped(img, inp) && i < |inp.names|
    ensures var got := LOAD_BASE + LayoutFor(inp).got;
      Unresolved(inp.arch, img, SlotAddr(LayoutFor(inp), i)) == Some(Handover(i, got + 8, got + 16))
  {
    hide In, HoldsRegions, LayoutFor, Dynstr, Writable, Mapped, Read, Fetch, LE, FromLE, Number, GoodNames, Sub,
      PushAndJump, PushAndJumpThrough, SaveAndJumpThrough, JumpsThrough;
    var l := LayoutFor(inp);
    ReadyInput(img, inp, bucket, chain);
    RegionsOrdered(inp);
    SlotWired(img, inp, bucket, chain, i);
    PltWired(img, inp, bucket, chain, i);
    Plt0Wired(img, inp, bucket, chain);
    DataPlace(img, inp, SlotAddr(l, i) - LOAD_BASE, 8);
    match inp.arch {
      case X86_64 =>
        CodeFetch(img, inp, l.plt + Plt0Size(inp.arch) + 16 * i + 6, 10);
        CodeFetch(img, inp, l.plt, 12);
      case AArch64 =>
        CodeFetch(img, inp, l.plt, 20);
        SlotNumber(l, i);
    }
  }

  lemma SlotNumber(l: Layout, i: nat)
    ensures (SlotAddr(l, i) - (LOAD_BASE + l.got + 16)) / 8 - 1 == i
  {
  }

  /** Every import is wired: PLT entry i jumps through slot i, which relocation i fills with the
      function of that name, and which has the resolver do so as long as it is not filled. */
  lemma ImportsWired(img: seq<Byte>, inp: Input, bucket: seq<nat>, chain: seq<nat>, i: nat)
    requires Ready(img, inp, bucket, chain) && i < |inp.names|
    ensures EntryLeads(inp.arch, img, PltAddr(inp.arch, LayoutFor(inp), i), SlotAddr(LayoutFor(inp), i))
    ensures SlotOf(inp.arch, img, i, SlotAddr(LayoutFor(inp), i), inp.names[i])
  {
    hide In, HoldsRegions, LayoutFor, Dynstr, Writable, Mapped, GoodNames, Sub, Binds, Unresolved, JumpsThrough, Dyn, Fetch, Ready;
    var l := LayoutFor(inp);
    HeadersRead(img, inp, bucket, chain);
    DynamicReads(img, inp, bucket, chain);
    RelocationReads(img, inp, bucket, chain, i);
    SlotReads(img, inp, bucket, chain, i);
    PltWired(img, inp, bucket, chain, i);
    CodeFetch(img, inp, l.plt + Plt0Size(inp.arch) + 16 * i, 16);
  }

  // ---- The file as a whole ----

  /** The kernel runs the interpreter of that path. */
  predicate Interprets(img: seq<Byte>, path: string) {
    match InterpPath(img) case Some(p) => Spells(p, path) case None => false
  }

  lemma InterpreterReads(img: seq<Byte>, inp: Input, bucket: seq<nat>, chain: seq<nat>)
    requires Ready(img, inp, bucket, chain) && Mapped(img, inp)
    ensures Interprets(img, if inp.arch.X86_64? then "/lib64/ld-linux-x86-64.so.2" else "/lib/ld-linux-aarch64.so.1")
  {
    hide In, HoldsRegions, LayoutFor, Dynstr, Writable, Mapped, GoodNames, AsciiBytes, Ready;
    var (at, path) := (LayoutFor(inp).interp, AsciiBytes(Interp(inp.arch)));
    PathAt(img, inp, bucket, chain);
    DynSegment(img, inp);
    AsciiSpells(Interp(inp.arch));
    var whole := Sub(img, at, |path| + 1);
    assert whole[..|path|] == path && img[at + |path|] == whole[|path|] == 0;
    assert img[at..at + |path|] == whole[..|path|];
  }

  lemma PathAt(img: seq<Byte>, inp: Input, bucket: seq<nat>, chain: seq<nat>)
    requires Ready(img, inp, bucket, chain)
    ensures var (at, path) := (LayoutFor(inp).interp, AsciiBytes(Interp(inp.arch)));
      at + |path| + 1 <= |img| && Sub(img, at, |path| + 1) == path + [0]
  {
    hide In, HoldsRegions, LayoutFor, Dynstr, Writable, GoodNames, AsciiBytes, Ready, Interp, Sub;
    hide HeaderChunk, SizesChunk, PhdrChunk, SymChunk, DynstrChunk, HashChunk, RelaChunk, DynamicChunk, StubChunk, GotChunk, Plt0Chunk,
      PltChunk, SlotChunk, TextChunk;
    RegionsIn(img, inp, bucket, chain);
    WholeRegion(img, InterpChunk(inp));
  }

  /** The one library asked for (DT_NEEDED is 1) is libc.so.6. */
  lemma LibraryReads(img: seq<Byte>, inp: Input, bucket: seq<nat>, chain: seq<nat>)
    requires Ready(img, inp, bucket, chain) && Mapped(img, inp) && DynamicIs(img, inp)
    ensures StringOf(img, Dyn(img, 1)) == Some([0x6c, 0x69, 0x62, 0x63, 0x2e, 0x73, 0x6f, 0x2e, 0x36])
  {
    hide In, HoldsRegions, LayoutFor, Writable, Mapped, GoodNames, Ready, Dyn, Text, Dynstr, Sub;
    var l := LayoutFor(inp);
    var lib: Name := [0x6c, 0x69, 0x62, 0x63, 0x2e, 0x73, 0x6f, 0x2e, 0x36];
    ReadyInput(img, inp, bucket, chain);
    RegionsOrdered(inp);
    LibraryAt(img, inp, bucket, chain);
    assert lib + [0] == CString(lib);
    TextReads(img, inp, l.dynstr + 1, l.dynstr + |Dynstr(inp.names)|, lib);
  }

  lemma LibraryAt(img: seq<Byte>, inp: Input, bucket: seq<nat>, chain: seq<nat>)
    requires Ready(img, inp, bucket, chain)
    ensures |Dynstr(inp.names)| >= 11 && LayoutFor(inp).dynstr + 11 <= |img|
    ensures Sub(img, LayoutFor(inp).dynstr + 1, 10) == [0x6c, 0x69, 0x62, 0x63, 0x2e, 0x73, 0x6f, 0x2e, 0x36, 0]
  {
    hide In, HoldsRegions, LayoutFor, Writable, GoodNames, Ready, Dynstr, Sub;
    hide HeaderChunk, SizesChunk, PhdrChunk, InterpChunk, SymChunk, HashChunk, RelaChunk, DynamicChunk, StubChunk, GotChunk, Plt0Chunk,
      PltChunk, SlotChunk, TextChunk;
    RegionsIn(img, inp, bucket, chain);
    LibraryFirst(inp.names);
    FromRegion(img, DynstrChunk(inp), 1, 10);
  }

  lemma {:induction false} LibraryFirst(names: seq<Name>)
    ensures |Dynstr(names)| >= 11 && Sub(Dynstr(names), 1, 10) == [0x6c, 0x69, 0x62, 0x63, 0x2e, 0x73, 0x6f, 0x2e, 0x36, 0]
  {
    if names != [] {
      LibraryFirst(names[..|names| - 1]);
      SubOfJoined(Dynstr(names[..|names| - 1]), CString(names[|names| - 1]), 1, 10);
    } else {
      assert AsciiBytes(LIBNAME) == [0x6c, 0x69, 0x62, 0x63, 0x2e, 0x73, 0x6f, 0x2e, 0x36];
    }
  }

  /** The hash table that the loader finds is the gABI table of the symbols' names. */
  lemma HashTableReads(img: seq<Byte>, inp: Input, bucket: seq<nat>, chain: seq<nat>)
    requires Ready(img, inp, bucket, chain) && Mapped(img, inp) && DynamicIs(img, inp) && HashOf(inp.names, bucket, chain)
    ensures HashReads(img, bucket, chain)
  {
    hide In, HoldsRegions, LayoutFor, Dynstr, Writable, Mapped, GoodNames, Ready, Dyn, Read, Number, LEWords, Chained, Sub;
    var (h, n) := (LayoutFor(inp).hash, |inp.names|);
    ReadyInput(img, inp, bucket, chain);
    RegionsOrdered(inp);
    HashWired(img, inp, bucket, chain);
    HashWords(inp.names, bucket, chain);
    NamesFew(inp);
    WordsRead(img, inp, h, [|bucket|, |chain|] + bucket + chain);
    ThreeParts(img, LOAD_BASE + h, bucket, chain);
  }

  /** The words stand one after the other at h. */
  predicate WordsAt(img: seq<Byte>, h: nat, ws: seq<nat>) {
    h + 4 * |ws| <= |img| && Sub(img, h, 4 * |ws|) == LEWords(ws)
  }

  lemma WordsRead(img: seq<Byte>, inp: Input, h: nat, ws: seq<nat>)
    requires Mapped(img, inp) && h + 4 * |ws| <= LayoutFor(inp).text <= |img| && WordsAt(img, h, ws)
    requires forall k :: 0 <= k < |ws| ==> ws[k] < P32
    ensures forall k :: 0 <= k < |ws| ==> Read(img, LOAD_BASE + h + 4 * k, 4) == ws[k]
  {
    hide LayoutFor, Mapped, Read, Number, WordsAt;
    forall k | 0 <= k < |ws| ensures Read(img, LOAD_BASE + h + 4 * k, 4) == ws[k] {
      HashWord(img, h, ws, k);
      WordReads(img, inp, h + 4 * k, ws[k]);
    }
  }

  lemma WordReads(img: seq<Byte>, inp: Input, at: nat, w: nat)
    requires Mapped(img, inp) && at + 4 <= LayoutFor(inp).text && at + 4 <= |img| && Number(img, at, 4) == w
    ensures Read(img, LOAD_BASE + at, 4) == w
  {
    hide LayoutFor, Mapped, Read, Number, Place, Fetch;
    CodeRead(img, inp, at, 4);
  }

  lemma ThreeParts(img: seq<Byte>, a: int, bucket: seq<nat>, chain: seq<nat>)
    requires var ws := [|bucket|, |chain|] + bucket + chain; forall k :: 0 <= k < |ws| ==> Read(img, a + 4 * k, 4) == ws[k]
    ensures Read(img, a, 4) == |bucket| && Read(img, a + 4, 4) == |chain|
    ensures forall k :: 0 <= k < |bucket| ==> Read(img, a + 8 + 4 * k, 4) == bucket[k]
    ensures forall k :: 0 <= k < |chain| ==> Read(img, a + 8 + 4 * |bucket| + 4 * k, 4) == chain[k]
  {
    hide Read;
    var ws := [|bucket|, |chain|] + bucket + chain;
    assert Read(img, a + 4 * 0, 4) == ws[0] && Read(img, a + 4 * 1, 4) == ws[1];
    forall k | 0 <= k < |bucket| ensures Read(img, a + 8 + 4 * k, 4) == bucket[k] {
      assert ws[2 + k] == bucket[k] && a + 8 + 4 * k == a + 4 * (2 + k);
    }
    forall k | 0 <= k < |chain| ensures Read(img, a + 8 + 4 * |bucket| + 4 * k, 4) == chain[k] {
      assert ws[2 + |bucket| + k] == chain[k] && a + 8 + 4 * |bucket| + 4 * k == a + 4 * (2 + |bucket| + k);
    }
  }

  lemma HashWords(names: seq<Name>, bucket: seq<nat>, chain: seq<nat>)
    requires HashOf(names, bucket, chain)
    ensures |bucket| == |names| && |chain| == |names| + 1
    ensures (forall k :: 0 <= k < |bucket| ==> bucket[k] <= |names|) && forall k :: 0 <= k < |chain| ==> chain[k] <= |names|
  {
    hide Bucket;
  }

  lemma HashWord(img: seq<Byte>, h: nat, ws: seq<nat>, k: nat)
    requires k < |ws| && WordsAt(img, h, ws) && ws[k] < P32
    ensures h + 4 * k + 4 <= |img| && Number(img, h + 4 * k, 4) == ws[k]
  {
    hide LE, FromLE, LEWords, Sub;
    WordBytes(ws, k);
    SubOfSub(img, h, 4 * |ws|, 4 * k, 4);
    SubIsSlice(LEWords(ws), 4 * k, 4);
    WordBack(ws[k]);
  }

  /** The first GOT word tells the loader where the dynamic section is. */
  lemma GotReads(img: seq<Byte>, inp: Input, bucket: seq<nat>, chain: seq<nat>)
    requires Ready(img, inp, bucket, chain) && Mapped(img, inp) && DynamicIs(img, inp)
    ensures FindSegment(img, 2, 0).Some? && Read(img, Dyn(img, 3), 8) == FindSegment(img, 2, 0).value.vaddr
  {
    hide In, HoldsRegions, LayoutFor, Dynstr, Writable, Mapped, GoodNames, Ready, Dyn, Read, Number, FindSegment, ElfPath.Header, Place, SegmentAt;
    ReadyInput(img, inp, bucket, chain);
    RegionsOrdered(inp);
    Plt0Wired(img, inp, bucket, chain);
    DynSegment(img, inp);
    DataPlace(img, inp, LayoutFor(inp).got, 8);
  }

  /** Every segment can be mapped page by page, and the program headers are where they say. */
  lemma SegmentsMap(img: seq<Byte>, inp: Input)
    requires Mapped(img, inp)
    ensures forall k :: 0 <= k < HeaderCount(img) ==> Mappable(SegmentAt(img, k))
    ensures FindSegment(img, 6, 0).Some? && FindSegment(img, 6, 0).value.vaddr == 0x40_0000 + HeaderAt(img, 0)
  {
    hide LayoutFor, LayoutOf, SegmentAt, HeaderCount, HeaderAt;
    DataOnPage(inp);
    var l := LayoutFor(inp);
    OnPage(l.dynamic);
    forall k | 0 <= k < HeaderCount(img) ensures Mappable(SegmentAt(img, k)) {
      assert k == 0 || k == 1 || k == 2 || k == 3 || k == 4;
    }
  }

  lemma DataOnPage(inp: Input)
    ensures LayoutFor(inp).dynamic % 0x1000 == 0
  {
    hide LayoutOf;
    LayoutAligned(inp.arch, |inp.names|, |Dynstr(inp.names)|, |inp.text|);
  }

  lemma OnPage(at: nat)
    requires at % 0x1000 == 0
    ensures (LOAD_BASE + at) % 0x1000 == 0 && (LOAD_BASE + at) % 8 == at % 8
  {
    DivModUnique(LOAD_BASE + at, 0x1000, 0x400 + at / 0x1000, 0);
    DivModUnique(at, 8, 512 * (at / 0x1000), 0);
    DivModUnique(LOAD_BASE + at, 8, 0x8_0000 + 512 * (at / 0x1000), 0);
  }

  // ---- Calls and the start ----

  /** External call k ends in the function of its import's name. */
  lemma CallBound(img: seq<Byte>, inp: Input, bucket: seq<nat>, chain: seq<nat>, k: nat)
    requires Ready(img, inp, bucket, chain) && CallsOk(inp) && k < |inp.calls|
    ensures inp.calls[k].import_ < |inp.names|
    ensures CallBinds(inp.arch, img, LOAD_BASE + LayoutFor(inp).text + inp.calls[k].site, inp.names[inp.calls[k].import_])
  {
    hide HoldsRegions, LayoutFor, Dynstr, GoodNames, CallTarget, IsCall, Writable, Sub, Mapped, Fetch, EntryLeads, SlotOf, PltAddr, SlotAddr;
    var (l, e) := (LayoutFor(inp), inp.calls[k]);
    HeadersRead(img, inp, bucket, chain);
    CallReachesPlt(img, inp, bucket, chain, k);
    ImportsWired(img, inp, bucket, chain, e.import_);
    CodeFetch(img, inp, l.text + e.site, 4);
    assert CallsThrough(inp.arch, img, LOAD_BASE + l.text + e.site, SlotAddr(l, e.import_));
  }

  /** Text that no external call covers is in memory as it was linked. */
  lemma TextHeld(img: seq<Byte>, inp: Input, bucket: seq<nat>, chain: seq<nat>, at: nat, n: nat)
    requires Ready(img, inp, bucket, chain) && 0 < n && at + n <= |inp.text|
    requires forall k :: 0 <= k < |inp.calls| ==> inp.calls[k].site + 4 <= at || at + n <= inp.calls[k].site
    ensures var a := LOAD_BASE + LayoutFor(inp).text + at;
      Holds(img, a, inp.text[at..at + n], X) && Holds(img, a, inp.text[at..at + n], R)
  {
    hide HoldsRegions, LayoutFor, Dynstr, GoodNames, Writable, Mapped, PatchCalls, In, Place, Fetch, Read;
    hide HeaderChunk, SizesChunk, PhdrChunk, InterpChunk, SymChunk, DynstrChunk, HashChunk, RelaChunk, DynamicChunk, StubChunk, GotChunk,
      Plt0Chunk, PltChunk, SlotChunk, TextChunk, End;
    var l := LayoutFor(inp);
    HeadersRead(img, inp, bucket, chain);
    MappedInside(img, inp);
    RegionsIn(img, inp, bucket, chain);
    ReadyInput(img, inp, bucket, chain);
    TextFits(inp);
    TextChunkIs(inp);
    TextKept(inp.arch, l, inp.text, inp.calls, at, n);
    FromRegion(img, TextChunk(inp), at, n);
    CodePlace(img, inp, l.text + at, n);
  }

  lemma TextFits(inp: Input)
    requires Writable(inp)
    ensures SitesFit(inp.calls, |inp.text|)
  {
  }

  /** The stub at the entry point calls main and then the last PLT entry. */
  lemma StubReads(img: seq<Byte>, inp: Input, bucket: seq<nat>, chain: seq<nat>)
    requires Ready(img, inp, bucket, chain) && Mapped(img, inp) && (inp.arch.AArch64? ==> inp.entry % 4 == 0)
    ensures var l := LayoutFor(inp);
      inp.names != [] && CallsInTurn(inp.arch, img, LOAD_BASE + l.stub, LOAD_BASE + l.text + inp.entry, PltAddr(inp.arch, l, |inp.names| - 1))
  {
    hide HoldsRegions, LayoutFor, Dynstr, GoodNames, CallTarget, Writable, Sub, Mapped, Fetch, PltAddr, SlotAddr, StubCode,
      X86RoundTrip.DecodeAll, Read, Number;
    var l := LayoutFor(inp);
    ReadyInput(img, inp, bucket, chain);
    RegionsOrdered(inp);
    StubWired(img, inp, bucket, chain);
    if inp.arch.X86_64? {
      CodeFetch(img, inp, l.stub, 12);
    } else {
      CodeFetch(img, inp, l.stub, 4);
      CodeFetch(img, inp, l.stub + 4, 4);
    }
  }

  /** The process starts with main, at the text's entry offset, and exits with its result. */
  lemma StartBound(img: seq<Byte>, inp: Input, bucket: seq<nat>, chain: seq<nat>)
    requires Ready(img, inp, bucket, chain) && (inp.arch.AArch64? ==> inp.entry % 4 == 0)
    requires inp.names != [] && inp.names[|inp.names| - 1] == [0x65, 0x78, 0x69, 0x74]
    ensures StartsWith(inp.arch, img, LOAD_BASE + LayoutFor(inp).text + inp.entry)
  {
    hide Ready, LayoutFor, Mapped, CallsInTurn, EntryLeads, SlotOf, PltAddr, SlotAddr, EntryPoint;
    HeadersRead(img, inp, bucket, chain);
    StubReads(img, inp, bucket, chain);
    ImportsWired(img, inp, bucket, chain, |inp.names| - 1);
  }

  /** The file is one that the kernel and the loader accept: headers, mappings, interpreter, library,
      the loader's own GOT word, and a hash table of the symbols' names. */
  lemma FileReads(img: seq<Byte>, inp: Input, bucket: seq<nat>, chain: seq<nat>)
    requires Ready(img, inp, bucket, chain) && HashOf(inp.names, bucket, chain)
    ensures Accepted(inp.arch, img) && forall k :: 0 <= k < HeaderCount(img) ==> Mappable(SegmentAt(img, k))
    ensures Interprets(img, if inp.arch.X86_64? then "/lib64/ld-linux-x86-64.so.2" else "/lib/ld-linux-aarch64.so.1")
    ensures StringOf(img, Dyn(img, 1)) == Some([0x6c, 0x69, 0x62, 0x63, 0x2e, 0x73, 0x6f, 0x2e, 0x36])
    ensures FindSegment(img, 2, 0).Some? && Read(img, Dyn(img, 3), 8) == FindSegment(img, 2, 0).value.vaddr
    ensures Chained(inp.names, bucket, chain) && HashReads(img, bucket, chain)
  {
    hide Ready, Mapped, DynamicIs, Accepted, Mappable, SegmentAt, Interprets, StringOf, Dyn, FindSegment, Read, Chained, HashReads;
    HeadersRead(img, inp, bucket, chain);
    DynamicReads(img, inp, bucket, chain);
    SegmentsMap(img, inp);
    InterpreterReads(img, inp, bucket, chain);
    LibraryReads(img, inp, bucket, chain);
    GotReads(img, inp, bucket, chain);
    HashTableReads(img, inp, bucket, chain);
  }
}
