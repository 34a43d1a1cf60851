// Writing the dynamic image into its buffer, region by region.
module ElfWriter {
  import opened Words
  import opened LinkLayout
  import opened SysvHash
  import opened ElfBytes
  import opened ElfArch
  import opened ElfImage
  import opened ElfPath

  /** TableOverrun: the source writes past its table of name offsets before it looks at the
      number of names; nothing is known of it after that. */
  datatype Outcome = Written | Refused | TableOverrun

  const NAME_OFFS := 64

  class Writer {
    const img: array<Byte>
    var failed: bool

    ghost predicate Valid()
      reads this
    {
      img.Length == IMG_SIZE
    }

    constructor ()
      ensures Valid() && fresh(img) && !failed
    {
      img := new Byte[IMG_SIZE](_ => 0);
      failed := false;
    }

    method Put(at: nat, bs: seq<Byte>)
      requires at + |bs| <= img.Length
      modifies img
      ensures img[..] == Overlay(old(img[..]), at, bs)
    {
      forall k | 0 <= k < |bs| { img[at + k] := bs[k]; }
    }

    /** Entries of one size, one after the other. */
    method PutNext(ghost b: seq<Byte>, at: nat, n: nat, ghost done: seq<seq<Byte>>, e: seq<Byte>, cur: nat)
      requires |e| == n && forall k :: 0 <= k < |done| ==> |done[k]| == n
      requires cur == at + n * |done| && cur + n <= img.Length == |b|
      requires img[..] == Overlay(b, at, Table(done, n))
      modifies img
      ensures at + |Table(done + [e], n)| <= |b| && img[..] == Overlay(b, at, Table(done + [e], n))
    {
      hide Table, Overlay;
      Put(cur, e);
      TableSnoc(done, n, e);
      OverlayAppend(b, at, Table(done, n), e);
      assert |Table(done + [e], n)| == n * |done| + n;
    }

    method PutSyms(names: seq<Name>, offs: seq<nat>, dynsym: nat)
      requires |offs| == |names| && forall i :: 0 <= i < |offs| ==> offs[i] == NameOff(names, i)
      requires dynsym + 24 + 24 * |names| <= img.Length
      modifies img
      ensures img[..] == Overlay(old(img[..]), dynsym + 24, Table(SymEntries(names, |names|), 24))
    {
      hide Table, Overlay, NameOff, SymEntry;
      ghost var b := img[..];
      OverlayNothing(b, dynsym + 24);
      NoEntries(24);
      assert SymEntries(names, 0) == [];
      for i := 0 to |names|
        invariant img[..] == Overlay(b, dynsym + 24, Table(SymEntries(names, i), 24))
      {
        PutNext(b, dynsym + 24, 24, SymEntries(names, i), SymEntry(offs[i]), dynsym + 24 * (i + 1));
        assert SymEntries(names, i + 1) == SymEntries(names, i) + [SymEntry(offs[i])];
      }
    }

    method PutRela(arch: Arch, l: Layout, n: nat)
      requires l.rela + 24 * n <= img.Length
      modifies img
      ensures img[..] == Overlay(old(img[..]), l.rela, Table(RelaEntries(arch, l, n), 24))
    {
      hide Table, Overlay, RelaEntry;
      ghost var b := img[..];
      OverlayNothing(b, l.rela);
      NoEntries(24);
      assert RelaEntries(arch, l, 0) == [];
      for i := 0 to n
        invariant img[..] == Overlay(b, l.rela, Table(RelaEntries(arch, l, i), 24))
      {
        PutNext(b, l.rela, 24, RelaEntries(arch, l, i), RelaEntry(arch, l, i), l.rela + 24 * i);
        assert RelaEntries(arch, l, i + 1) == RelaEntries(arch, l, i) + [RelaEntry(arch, l, i)];
      }
    }

    /** The PLT entry's address decides what its GOT slot first holds. */
    method BuildPltEntry(p: nat, arch: Arch, index: nat, plt: int, plt0: int, slot: int) returns (initial: int)
      requires p + 16 <= img.Length
      modifies img
      ensures img[..] == Overlay(old(img[..]), p, PltEntry(arch, index, plt, plt0, slot))
      ensures initial == GotInitial(arch, plt, plt0)
    {
      Put(p, PltEntry(arch, index, plt, plt0, slot));
      return if arch.X86_64? then plt + 6 else plt0;
    }

    /** Both tables after i entries: PLT and GOT are filled together. */
    ghost predicate Filled(b: seq<Byte>, arch: Arch, l: Layout, i: nat)
      reads img
    {
      var (pa, ga) := (l.plt + Plt0Size(arch), l.got + GOT_RESERVED * 8);
      && pa + 16 * i <= ga && ga + 8 * i <= |b|
      && img[..] == Overlay(Overlay(b, pa, Table(PltEntries(arch, l, i), 16)), ga, Table(GotEntries(arch, l, i), 8))
    }

    method PutPltAndGot(arch: Arch, l: Layout, n: nat)
      requires l.plt + Plt0Size(arch) + 16 * n <= l.got && l.got + GOT_RESERVED * 8 + 8 * n <= img.Length
      modifies img
      ensures Filled(old(img[..]), arch, l, n)
    {
      hide Filled, PltAddr, SlotAddr, PltEntry;
      ghost var b := img[..];
      NothingFilled(b, arch, l);
      for i := 0 to n
        invariant Filled(b, arch, l, i)
      {
        PutOnePlt(b, arch, l, i, n);
      }
    }

    lemma NothingFilled(b: seq<Byte>, arch: Arch, l: Layout)
      requires img[..] == b && l.plt + Plt0Size(arch) <= l.got && l.got + GOT_RESERVED * 8 <= |b|
      ensures Filled(b, arch, l, 0)
    {
      hide Table, Overlay;
      NoEntries(16);
      NoEntries(8);
      assert PltEntries(arch, l, 0) == [] && GotEntries(arch, l, 0) == [];
      OverlayNothing(b, l.plt + Plt0Size(arch));
      OverlayNothing(b, l.got + GOT_RESERVED * 8);
    }

    method PutOnePlt(ghost b: seq<Byte>, arch: Arch, l: Layout, i: nat, n: nat)
      requires i < n && l.plt + Plt0Size(arch) + 16 * n <= l.got && l.got + GOT_RESERVED * 8 + 8 * n <= img.Length == |b|
      requires Filled(b, arch, l, i)
      modifies img
      ensures Filled(b, arch, l, i + 1)
    {
      hide Table, Overlay, PltEntry, PltAddr, SlotAddr;
      var entryOff := l.plt + Plt0Size(arch) + i * 16;
      var slot := SlotAddr(l, i);
      var initial := BuildPltEntry(entryOff, arch, i, PltAddr(arch, l, i), LOAD_BASE + l.plt, slot);
      Put(l.got + (GOT_RESERVED + i) * 8, LE(initial, 8));
      TwoTablesGrow(b, arch, l, i, PltEntry(arch, i, PltAddr(arch, l, i), LOAD_BASE + l.plt, slot), LE(initial, 8));
    }

    /** Redirect every external call. */
    method PatchExtCalls(ghost b: seq<Byte>, arch: Arch, l: Layout, text: seq<Byte>, calls: seq<ExtCall>)
      requires SitesFit(calls, |text|) && l.text + |text| <= img.Length == |b|
      requires img[..] == Overlay(b, l.text, text)
      modifies img
      ensures img[..] == Overlay(b, l.text, PatchCalls(arch, l, text, calls))
    {
      hide Overlay, PatchedCall, PltAddr, PatchCalls;
      NoCalls(arch, l, text);
      for i := 0 to |calls|
        invariant SitesFit(calls[..i], |text|) && img[..] == Overlay(b, l.text, PatchCalls(arch, l, text, calls[..i]))
      {
        var e := calls[i];
        ghost var t := PatchCalls(arch, l, text, calls[..i]);
        var stub := LOAD_BASE + l.plt + Plt0Size(arch) + e.import_ * PLT_ENTRY_SIZE;
        var site := LOAD_BASE + l.text + e.site;
        assert stub == PltAddr(arch, l, e.import_) by { PltAddrIs(arch, l, e.import_); }
        var field := img[l.text + e.site..l.text + e.site + 4];
        FieldOfText(b, l.text, t, e.site);
        assert field == t[e.site..e.site + 4];
        Put(l.text + e.site, PatchedCall(arch, field, site, stub));
        OverlayWithin(b, l.text, t, e.site, PatchedCall(arch, field, site, stub));
        OneMoreCall(arch, l, text, calls, i);
      }
      assert calls[..|calls|] == calls;
    }

    /** The image so far is the first k regions over b. */
    ghost predicate WrittenUpTo(b: seq<Byte>, cs: seq<Chunk>, k: nat)
      reads img
    {
      k <= |cs| && Fit(cs[..k], |b|) && img[..] == Compose(b, cs[..k])
    }

    method PutChunk(ghost b: seq<Byte>, ghost cs: seq<Chunk>, ghost k: nat, at: nat, bs: seq<Byte>)
      requires Valid() && k < |cs| && |b| == img.Length && Fit(cs, |b|) && WrittenUpTo(b, cs, k) && cs[k] == Chunk(at, bs)
      modifies img
      ensures WrittenUpTo(b, cs, k + 1)
    {
      hide Compose, Overlay;
      assert End(cs[k]) <= |b|;
      NextChunk(b, cs, k);
      Put(at, bs);
    }

    /** Region k as another method wrote it. */
    lemma Chunked(b: seq<Byte>, was: seq<Byte>, cs: seq<Chunk>, k: nat)
      requires k < |cs| && Fit(cs, |b|) && Fit(cs[..k], |b|) && was == Compose(b, cs[..k])
      requires End(cs[k]) <= |b| && img[..] == Overlay(was, cs[k].at, cs[k].bytes)
      ensures WrittenUpTo(b, cs, k + 1)
    {
      hide Compose, Overlay;
      NextChunk(b, cs, k);
    }

    /** File and program headers, and the interpreter's path. */
    method PutHeaders(ghost b: seq<Byte>, inp: Input, l: Layout, ghost bucket: seq<nat>, ghost chain: seq<nat>)
      requires Valid() && |b| == img.Length && img[..] == b
      requires Writable(inp) && |bucket| == |inp.names| && |chain| == |inp.names| + 1
      requires l == LayoutFor(inp) && l.end <= img.Length
      modifies img
      ensures WrittenUpTo(b, Chunks(inp, bucket, chain), 4)
    {
      hide WrittenUpTo, Compose, Overlay, LayoutFor, Dynstr, Table, FileHeader, HeaderSizes, Phdrs, Chunks, AsciiBytes, CString;
      hide SymChunk, DynstrChunk, HashChunk, RelaChunk, DynamicChunk, StubChunk, GotChunk, Plt0Chunk, PltChunk, SlotChunk,
        TextChunk;
      ghost var cs := Chunks(inp, bucket, chain);
      ChunkList(inp, bucket, chain);
      RegionsDisjoint(inp, bucket, chain);
      RegionsOrdered(inp);
      NothingWritten(b, cs);
      PutChunk(b, cs, 0, 0, FileHeader(inp.arch, l.stub));
      PutChunk(b, cs, 1, 52, HeaderSizes());
      PutChunk(b, cs, 2, 64, Table(Phdrs(inp.arch, l, |inp.names|, |inp.text|), 56));
      PutChunk(b, cs, 3, l.interp, CString(AsciiBytes(Interp(inp.arch))));
    }

    /** Symbols and strings. */
    method PutNames(ghost b: seq<Byte>, inp: Input, l: Layout, dynstr: seq<Byte>, offs: seq<nat>, ghost bucket: seq<nat>, ghost chain: seq<nat>)
      requires Valid() && |b| == img.Length
      requires Writable(inp) && |bucket| == |inp.names| && |chain| == |inp.names| + 1
      requires l == LayoutFor(inp) && l.end <= img.Length && dynstr == Dynstr(inp.names)
      requires |offs| == |inp.names| && forall i :: 0 <= i < |offs| ==> offs[i] == NameOff(inp.names, i)
      requires WrittenUpTo(b, Chunks(inp, bucket, chain), 4)
      modifies img
      ensures WrittenUpTo(b, Chunks(inp, bucket, chain), 6)
    {
      hide WrittenUpTo, Compose, Overlay, LayoutFor, Dynstr, NameOff, Table, SymEntries, Chunks, SymEntry;
      hide HeaderChunk, SizesChunk, PhdrChunk, InterpChunk, HashChunk, RelaChunk, DynamicChunk, StubChunk, GotChunk, Plt0Chunk, PltChunk, SlotChunk,
        TextChunk;
      ghost var cs := Chunks(inp, bucket, chain);
      ChunkList(inp, bucket, chain);
      RegionsDisjoint(inp, bucket, chain);
      RegionsOrdered(inp);
      WrittenIs(b, cs, 4);
      ghost var was := img[..];
      PutSyms(inp.names, offs, l.dynsym);
      Chunked(b, was, cs, 4);
      PutChunk(b, cs, 5, l.dynstr, dynstr);
    }

    /** Hash table and relocations. */
    method PutTables(ghost b: seq<Byte>, inp: Input, l: Layout, bucket: seq<nat>, chain: seq<nat>)
      requires Valid() && |b| == img.Length
      requires Writable(inp) && |bucket| == |inp.names| && |chain| == |inp.names| + 1
      requires l == LayoutFor(inp) && l.end <= img.Length
      requires WrittenUpTo(b, Chunks(inp, bucket, chain), 6)
      modifies img
      ensures WrittenUpTo(b, Chunks(inp, bucket, chain), 8)
    {
      hide WrittenUpTo, Compose, Overlay, LayoutFor, Dynstr, HashBytes, Table, RelaEntries, Chunks;
      hide HeaderChunk, SizesChunk, PhdrChunk, InterpChunk, SymChunk, DynstrChunk, DynamicChunk, StubChunk, GotChunk, Plt0Chunk, PltChunk,
        SlotChunk, TextChunk;
      ghost var cs := Chunks(inp, bucket, chain);
      ChunkList(inp, bucket, chain);
      RegionsDisjoint(inp, bucket, chain);
      RegionsOrdered(inp);
      PutChunk(b, cs, 6, l.hash, HashBytes(bucket, chain));
      WrittenIs(b, cs, 7);
      ghost var was := img[..];
      PutRela(inp.arch, l, |inp.names|);
      Chunked(b, was, cs, 7);
    }

    lemma WrittenIs(b: seq<Byte>, cs: seq<Chunk>, k: nat)
      requires WrittenUpTo(b, cs, k)
      ensures k <= |cs| && Fit(cs[..k], |b|) && img[..] == Compose(b, cs[..k])
    {
    }

    lemma NothingWritten(b: seq<Byte>, cs: seq<Chunk>)
      requires img[..] == b
      ensures WrittenUpTo(b, cs, 0)
    {
    }

    /** Dynamic section, stub and the reserved parts of GOT and PLT. */
    method PutCode(ghost b: seq<Byte>, inp: Input, l: Layout, dynstrLen: nat, ghost bucket: seq<nat>, ghost chain: seq<nat>)
      requires Valid() && |b| == img.Length
      requires Writable(inp) && |bucket| == |inp.names| && |chain| == |inp.names| + 1
      requires l == LayoutFor(inp) && l.end <= img.Length && dynstrLen == |Dynstr(inp.names)|
      requires WrittenUpTo(b, Chunks(inp, bucket, chain), 8)
      modifies img
      ensures WrittenUpTo(b, Chunks(inp, bucket, chain), 12)
    {
      hide WrittenUpTo, Compose, Overlay, LayoutFor, Dynstr, Dynamic, StartStub, Plt0, Table, PltEntries, GotEntries, Chunks, PltAddr;
      hide HeaderChunk, SizesChunk, PhdrChunk, InterpChunk, SymChunk, DynstrChunk, HashChunk, RelaChunk, PltChunk, SlotChunk, TextChunk;
      var (arch, n) := (inp.arch, |inp.names|);
      ghost var cs := Chunks(inp, bucket, chain);
      ChunkList(inp, bucket, chain);
      RegionsDisjoint(inp, bucket, chain);
      RegionsOrdered(inp);
      PutChunk(b, cs, 8, l.dynamic, Dynamic(l, n, dynstrLen));
      PutChunk(b, cs, 9, l.stub, StartStub(arch, LOAD_BASE + l.stub, LOAD_BASE + l.text + inp.entry, PltAddr(arch, l, n - 1)));
      PutChunk(b, cs, 10, l.got, LE(LOAD_BASE + l.dynamic, 8));
      PutChunk(b, cs, 11, l.plt, Plt0(arch, LOAD_BASE + l.plt, LOAD_BASE + l.got));
    }

    method PutImports(ghost b: seq<Byte>, inp: Input, l: Layout, ghost bucket: seq<nat>, ghost chain: seq<nat>)
      requires Valid() && |b| == img.Length
      requires Writable(inp) && |bucket| == |inp.names| && |chain| == |inp.names| + 1
      requires l == LayoutFor(inp) && l.end <= img.Length
      requires WrittenUpTo(b, Chunks(inp, bucket, chain), 12)
      modifies img
      ensures WrittenUpTo(b, Chunks(inp, bucket, chain), 14)
    {
      hide WrittenUpTo, Compose, Overlay, LayoutFor, Dynstr, Table, PltEntries, GotEntries, Chunks;
      hide HeaderChunk, SizesChunk, PhdrChunk, InterpChunk, SymChunk, DynstrChunk, HashChunk, RelaChunk, DynamicChunk, StubChunk,
        GotChunk, Plt0Chunk, TextChunk;
      ghost var cs := Chunks(inp, bucket, chain);
      ChunkList(inp, bucket, chain);
      RegionsDisjoint(inp, bucket, chain);
      RegionsOrdered(inp);
      WrittenIs(b, cs, 12);
      ghost var was := img[..];
      PutPltAndGot(inp.arch, l, |inp.names|);
      TwoChunks(b, was, cs, 12);
    }

    lemma TwoChunks(b: seq<Byte>, was: seq<Byte>, cs: seq<Chunk>, k: nat)
      requires k + 1 < |cs| && Fit(cs, |b|) && Fit(cs[..k], |b|) && was == Compose(b, cs[..k])
      requires End(cs[k]) <= |b| && End(cs[k + 1]) <= |b|
      requires img[..] == Overlay(Overlay(was, cs[k].at, cs[k].bytes), cs[k + 1].at, cs[k + 1].bytes)
      ensures WrittenUpTo(b, cs, k + 2)
    {
      hide Compose, Overlay;
      NextChunk(b, cs, k);
      NextChunk(b, cs, k + 1);
    }

    method PutText(ghost b: seq<Byte>, inp: Input, l: Layout, ghost bucket: seq<nat>, ghost chain: seq<nat>)
      requires Valid() && |b| == img.Length
      requires Writable(inp) && |bucket| == |inp.names| && |chain| == |inp.names| + 1
      requires l == LayoutFor(inp) && l.end <= img.Length
      requires WrittenUpTo(b, Chunks(inp, bucket, chain), 14)
      modifies img
      ensures WrittenUpTo(b, Chunks(inp, bucket, chain), 15)
    {
      hide WrittenUpTo, Compose, Overlay, LayoutFor, PatchCalls, Chunks, Dynstr;
      hide HeaderChunk, SizesChunk, PhdrChunk, InterpChunk, SymChunk, DynstrChunk, HashChunk, RelaChunk, DynamicChunk, StubChunk,
        GotChunk, Plt0Chunk, PltChunk, SlotChunk;
      ghost var cs := Chunks(inp, bucket, chain);
      ChunkList(inp, bucket, chain);
      RegionsDisjoint(inp, bucket, chain);
      RegionsOrdered(inp);
      WrittenIs(b, cs, 14);
      ghost var was := img[..];
      Put(l.text, inp.text);
      PatchExtCalls(was, inp.arch, l, inp.text, inp.calls);
      Chunked(b, was, cs, 14);
    }

    /** The whole file; refused when it does not fit its buffer or has too many imports. */
    method WriteDynamicElf(inp: Input) returns (outcome: Outcome, file: seq<Byte>, ghost bucket: seq<nat>, ghost chain: seq<nat>)
      requires Valid() && Writable(inp) && GoodNames(inp.names) && inp.entry < |inp.text|
      requires forall k :: 0 <= k < |inp.calls| ==> inp.calls[k].import_ < |inp.names|
      modifies this, img
      ensures outcome == TableOverrun <==> |inp.names| > NAME_OFFS
      ensures outcome == Written <==> LayoutFor(inp).total <= IMG_SIZE && |inp.names| <= 62
      ensures failed == (old(failed) || outcome == Refused)
      ensures outcome == Written ==>
        HashOf(inp.names, bucket, chain) && Ready(file, inp, bucket, chain) && |file| == LayoutFor(inp).total
    {
      hide WrittenUpTo, Compose, Overlay, LayoutOf, Dynstr, Chunks, GoodNames, NameOff, HoldsRegions, Chained;
      file, bucket, chain := [], [], [];
      if |inp.names| > NAME_OFFS {
        return TableOverrun, file, bucket, chain;
      }
      var dynstr, offs := BuildDynstr(inp.names);
      var l := LayoutOf(inp.arch, |inp.names|, |dynstr|, |inp.text|);
      if l.total > img.Length || |dynstr| > DYNSTR_CAP || |inp.names| > 62 {
        failed := true;
        return Refused, file, bucket, chain;
      }
      RegionsOrdered(inp);
      forall k | 0 <= k < l.total { img[k] := 0; }
      ghost var b := img[..];
      var bs, cs := BuildHash(inp.names);
      bucket, chain := bs, cs;
      ChainLength(inp.names, bucket, chain);
      PutHeaders(b, inp, l, bucket, chain);
      PutNames(b, inp, l, dynstr, offs, bucket, chain);
      PutTables(b, inp, l, bs, cs);
      PutCode(b, inp, l, |dynstr|, bucket, chain);
      PutImports(b, inp, l, bucket, chain);
      PutText(b, inp, l, bucket, chain);
      WholeImage(b, inp, bucket, chain);
      file := img[..l.total];
      FileHolds(img[..], file, inp, bucket, chain);
      return Written, file, bucket, chain;
    }

    lemma WholeImage(b: seq<Byte>, inp: Input, bucket: seq<nat>, chain: seq<nat>)
      requires Writable(inp) && |bucket| == |inp.names| && |chain| == |inp.names| + 1
      requires LayoutFor(inp).end <= |b| && WrittenUpTo(b, Chunks(inp, bucket, chain), 15)
      ensures HoldsRegions(img[..], inp, bucket, chain)
    {
      hide Compose, LayoutFor, Chunks, HoldsRegions;
      ghost var cs := Chunks(inp, bucket, chain);
      assert cs[..15] == cs;
      ComposedHoldsRegions(b, inp, bucket, chain);
    }
  }

  /** The regions end within the part of the buffer that is written out. */
  lemma FileHolds(img: seq<Byte>, file: seq<Byte>, inp: Input, bucket: seq<nat>, chain: seq<nat>)
    requires Writable(inp) && |bucket| == |inp.names| && |chain| == |inp.names| + 1 && HoldsRegions(img, inp, bucket, chain)
    requires LayoutFor(inp).end <= |file| && file <= img
    ensures HoldsRegions(file, inp, bucket, chain)
  {
    hide Chunks, LayoutFor, Disjoint;
    RegionsDisjoint(inp, bucket, chain);
    var cs := Chunks(inp, bucket, chain);
    forall k | 0 <= k < 15 ensures RegionKept(file, inp, bucket, chain, k) {
      assert RegionKept(img, inp, bucket, chain, k) && End(cs[k]) <= LayoutFor(inp).end;
      assert file[cs[k].at..End(cs[k])] == img[cs[k].at..End(cs[k])];
    }
  }

  lemma ChainLength(names: seq<Name>, bucket: seq<nat>, chain: seq<nat>)
    requires HashOf(names, bucket, chain)
    ensures |bucket| == |names| && |chain| == |names| + 1
  {
  }

  lemma ChunkList(inp: Input, bucket: seq<nat>, chain: seq<nat>)
    requires Writable(inp) && |bucket| == |inp.names| && |chain| == |inp.names| + 1
    ensures var cs := Chunks(inp, bucket, chain);
      && |cs| == 15 && cs[0] == HeaderChunk(inp) && cs[1] == SizesChunk() && cs[2] == PhdrChunk(inp)
      && cs[3] == InterpChunk(inp) && cs[4] == SymChunk(inp) && cs[5] == DynstrChunk(inp)
      && cs[6] == HashChunk(inp, bucket, chain) && cs[7] == RelaChunk(inp) && cs[8] == DynamicChunk(inp)
      && cs[9] == StubChunk(inp) && cs[10] == GotChunk(inp) && cs[11] == Plt0Chunk(inp)
      && cs[12] == PltChunk(inp, |inp.names|) && cs[13] == SlotChunk(inp, |inp.names|) && cs[14] == TextChunk(inp)
  {
    hide LayoutFor, HeaderChunk, SizesChunk, PhdrChunk, InterpChunk, SymChunk, DynstrChunk, HashChunk, RelaChunk, DynamicChunk, StubChunk,
      GotChunk, Plt0Chunk, PltChunk, SlotChunk, TextChunk;
  }

  /** The string table and the offset of every name in it. */
  method BuildDynstr(names: seq<Name>) returns (dynstr: seq<Byte>, offs: seq<nat>)
    requires GoodNames(names) && |names| <= NAME_OFFS
    ensures dynstr == Dynstr(names) && |dynstr| <= DYNSTR_CAP
    ensures |offs| == |names| && forall i :: 0 <= i < |names| ==> offs[i] == NameOff(names, i)
  {
    hide GoodNames;
    var symNameOff := new nat[NAME_OFFS](_ => 0);
    dynstr := [0] + CString(AsciiBytes(LIBNAME));
    for i := 0 to |names|
      invariant dynstr == Dynstr(names[..i])
      invariant forall k :: 0 <= k < i ==> symNameOff[k] == NameOff(names, k)
    {
      assert names[..i + 1][..i] == names[..i];
      symNameOff[i] := |dynstr|;
      dynstr := dynstr + CString(names[i]);
    }
    assert names[..|names|] == names;
    DynstrBound(names);
    offs := symNameOff[..|names|];
  }

  /** The hash section's bucket and chain words, one bucket for each name. */
  method BuildHash(names: seq<Name>) returns (bucket: seq<nat>, chain: seq<nat>)
    requires names != []
    ensures HashOf(names, bucket, chain)
  {
    var b := new nat[|names|](_ => 0);
    var c := new nat[|names| + 1](_ => 0);
    FillTable(names, b, c);
    return b[..], c[..];
  }

  lemma NextChunk(b: seq<Byte>, cs: seq<Chunk>, k: nat)
    requires k < |cs| && Fit(cs, |b|)
    ensures Fit(cs[..k], |b|) && Fit(cs[..k + 1], |b|)
    ensures Compose(b, cs[..k + 1]) == Overlay(Compose(b, cs[..k]), cs[k].at, cs[k].bytes)
  {
    hide Compose, Overlay, End;
    assert cs[..k + 1] == cs[..k] + [cs[k]];
    ComposeSnoc(b, cs[..k], cs[k]);
  }

  lemma PltAddrIs(arch: Arch, l: Layout, i: nat)
    ensures PltAddr(arch, l, i) == LOAD_BASE + l.plt + Plt0Size(arch) + i * PLT_ENTRY_SIZE
  {
  }

  lemma NoCalls(arch: Arch, l: Layout, text: seq<Byte>)
    ensures PatchCalls(arch, l, text, []) == text
  {
  }

  lemma OneMoreCall(arch: Arch, l: Layout, text: seq<Byte>, calls: seq<ExtCall>, i: nat)
    requires i < |calls| && SitesFit(calls, |text|)
    ensures SitesFit(calls[..i], |text|) && SitesFit(calls[..i + 1], |text|)
    ensures var (t, e) := (PatchCalls(arch, l, text, calls[..i]), calls[i]);
      PatchCalls(arch, l, text, calls[..i + 1])
        == Overlay(t, e.site, PatchedCall(arch, t[e.site..e.site + 4], LOAD_BASE + l.text + e.site, PltAddr(arch, l, e.import_)))
  {
    hide Overlay, PatchedCall, PltAddr;
    assert calls[..i + 1][..i] == calls[..i];
  }

  lemma FieldOfText(b: seq<Byte>, at: nat, t: seq<Byte>, s: nat)
    requires at + |t| <= |b| && s + 4 <= |t|
    ensures Overlay(b, at, t)[at + s..at + s + 4] == t[s..s + 4]
  {
  }

  lemma NoEntries(n: nat)
    ensures Table([], n) == []
  {
  }

  /** One entry more in each of two tables written over the same image. */
  lemma TwoTablesGrow(b: seq<Byte>, arch: Arch, l: Layout, i: nat, e: seq<Byte>, g: seq<Byte>)
    requires e == PltEntry(arch, i, PltAddr(arch, l, i), LOAD_BASE + l.plt, SlotAddr(l, i))
    requires g == LE(GotInitial(arch, PltAddr(arch, l, i), LOAD_BASE + l.plt), 8)
    requires l.plt + Plt0Size(arch) + 16 * (i + 1) <= l.got && l.got + GOT_RESERVED * 8 + 8 * (i + 1) <= |b|
    ensures var (pa, ga, ps, gs) := (l.plt + Plt0Size(arch), l.got + GOT_RESERVED * 8,
        Table(PltEntries(arch, l, i), 16), Table(GotEntries(arch, l, i), 8));
      Overlay(Overlay(Overlay(Overlay(b, pa, ps), ga, gs), pa + 16 * i, e), ga + 8 * i, g)
        == Overlay(Overlay(b, pa, Table(PltEntries(arch, l, i + 1), 16)), ga, Table(GotEntries(arch, l, i + 1), 8))
  {
    hide Table, Overlay, PltEntry, PltAddr, SlotAddr, LE;
    var (pa, ga, ps, gs) := (l.plt + Plt0Size(arch), l.got + GOT_RESERVED * 8,
      Table(PltEntries(arch, l, i), 16), Table(GotEntries(arch, l, i), 8));
    assert PltEntries(arch, l, i + 1) == PltEntries(arch, l, i) + [e];
    assert GotEntries(arch, l, i + 1) == GotEntries(arch, l, i) + [g];
    TableSnoc(PltEntries(arch, l, i), 16, e);
    TableSnoc(GotEntries(arch, l, i), 8, g);
    OverlayCommute(Overlay(b, pa, ps), ga, gs, pa + 16 * i, e);
    OverlayAppend(b, pa, ps, e);
    OverlayAppend(Overlay(b, pa, ps + e), ga, gs, g);
  }
}
