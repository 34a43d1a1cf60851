// The dynamically linked image: where its regions lie, what they hold, and the path of an
// external call through them.
module ElfImage {
  import opened Words
  import opened LinkLayout
  import opened SysvHash
  import opened ElfBytes
  import opened ElfArch

  const LOAD_BASE := 0x40_0000
  const IMG_SIZE := 0x8_0000
  const GOT_RESERVED := 3
  const NDYN := 11
  const NPHDR := 5
  const DYNSTR_CAP := 0x2000

  function AsciiBytes(s: string): Name { seq(|s|, k requires 0 <= k < |s| => s[k] as int % 256) }

  /** Character for character; what a character above 255 becomes is left open. */
  predicate Spells(bs: Name, s: string) {
    |bs| == |s| && forall k :: 0 <= k < |s| && s[k] as int < 256 ==> bs[k] == s[k] as int
  }

  lemma AsciiSpells(s: string)
    ensures Spells(AsciiBytes(s), s)
  {
  }

  /** A terminated string. */
  function CString(name: Name): Name { name + [0] }

  const LIBNAME := "libc.so.6"

  function Interp(arch: Arch): string {
    if arch.X86_64? then "/lib64/ld-linux-x86-64.so.2" else "/lib/ld-linux-aarch64.so.1"
  }

  /** A name the tables can hold: no terminator inside, and short as a label key. */
  predicate GoodName(name: Name) { 0 !in name && |name| < 96 }

  predicate GoodNames(names: seq<Name>) { forall i :: 0 <= i < |names| ==> GoodName(names[i]) }

  // ---- The string table ----

  /** An empty string, the library name, and the imported names. */
  function Dynstr(names: seq<Name>): (bs: seq<Byte>) {
    if names == [] then [0] + CString(AsciiBytes(LIBNAME))
    else Dynstr(names[..|names| - 1]) + CString(names[|names| - 1])
  }

  function NameOff(names: seq<Name>, i: nat): nat
    requires i <= |names|
  {
    |Dynstr(names[..i])|
  }

  lemma {:induction false} DynstrBound(names: seq<Name>)
    requires GoodNames(names)
    ensures |Dynstr(names)| <= 11 + 96 * |names|
  {
    if names != [] {
      DynstrBound(names[..|names| - 1]);
    }
  }

  /** Each name stands at its offset, terminated. */
  lemma {:induction false} NameInDynstr(names: seq<Name>, i: nat)
    requires i < |names|
    ensures NameOff(names, i) + |names[i]| + 1 <= |Dynstr(names)|
    ensures Dynstr(names)[NameOff(names, i)..NameOff(names, i) + |names[i]| + 1] == CString(names[i])
  {
    var front := names[..|names| - 1];
    if i < |front| {
      NameInDynstr(front, i);
      assert front[..i] == names[..i];
      var (o, n) := (NameOff(names, i), |names[i]| + 1);
      assert Dynstr(names)[o..o + n] == Dynstr(front)[o..o + n];
    } else {
      assert names[..i] == front;
    }
  }

  // ---- Layout ----

  datatype Layout = Layout(interp: nat, dynsym: nat, dynstr: nat, hash: nat, rela: nat, stub: nat, plt: nat, text: nat,
                           dynamic: nat, got: nat, end: nat, total: nat)

  function AlignUp(x: nat, a: nat): (y: nat)
    requires a > 0
    ensures x <= y < x + a && y % a == 0
  {
    DivModUnique((x + a - 1) / a * a, a, (x + a - 1) / a, 0);
    (x + a - 1) / a * a
  }

  function HashSize(nimp: nat): nat { (2 + nimp + (nimp + 1)) * 4 }

  function LayoutOf(arch: Arch, nimp: nat, dynstrLen: nat, textLen: nat): Layout {
    var interp := 64 + 5 * 56;
    var dynsym := AlignUp(interp + |Interp(arch)| + 1, 8);
    var dynstr := dynsym + (nimp + 1) * 24;
    var hash := AlignUp(dynstr + dynstrLen, 8);
    var rela := AlignUp(hash + HashSize(nimp), 8);
    var stub := AlignUp(rela + nimp * 24, 16);
    var plt := stub + StubSize(arch);
    var text := AlignUp(plt + Plt0Size(arch) + nimp * PLT_ENTRY_SIZE, 16);
    var dynamic := AlignUp(text + textLen, 0x1000);
    var got := dynamic + NDYN * 16;
    var end := got + (GOT_RESERVED + nimp) * 8;
    Layout(interp, dynsym, dynstr, hash, rela, stub, plt, text, dynamic, got, end, AlignUp(end + 22, 8) + 4 * 64)
  }

  function PltAddr(arch: Arch, l: Layout, i: nat): nat { LOAD_BASE + l.plt + Plt0Size(arch) + i * PLT_ENTRY_SIZE }
  function SlotAddr(l: Layout, i: nat): nat { LOAD_BASE + l.got + (GOT_RESERVED + i) * 8 }

  // ---- Contents of the regions ----

  /** A global function, undefined here. */
  function SymEntry(nameOff: nat): (bs: seq<Byte>)
    ensures |bs| == 24
  {
    LE(nameOff, 4) + [0x12, 0] + LE(0, 2) + LE(0, 8) + LE(0, 8)
  }

  function RelaEntry(arch: Arch, l: Layout, i: nat): (bs: seq<Byte>)
    ensures |bs| == 24
  {
    LE(SlotAddr(l, i), 8) + LE((i + 1) * P32 + JumpSlot(arch), 8) + LE(0, 8)
  }

  function SymEntries(names: seq<Name>, n: nat): (r: seq<seq<Byte>>)
    requires n <= |names|
    ensures |r| == n && forall i :: 0 <= i < n ==> r[i] == SymEntry(NameOff(names, i))
  {
    seq(n, i requires 0 <= i < n => SymEntry(NameOff(names, i)))
  }

  function RelaEntries(arch: Arch, l: Layout, n: nat): (r: seq<seq<Byte>>)
    ensures |r| == n && forall i :: 0 <= i < n ==> r[i] == RelaEntry(arch, l, i)
  {
    seq(n, i requires 0 <= i < n => RelaEntry(arch, l, i))
  }

  function PltEntries(arch: Arch, l: Layout, n: nat): (r: seq<seq<Byte>>)
    ensures |r| == n && forall i :: 0 <= i < n ==>
      r[i] == PltEntry(arch, i, PltAddr(arch, l, i), LOAD_BASE + l.plt, SlotAddr(l, i))
  {
    seq(n, i requires 0 <= i < n => PltEntry(arch, i, PltAddr(arch, l, i), LOAD_BASE + l.plt, SlotAddr(l, i)))
  }

  function GotEntries(arch: Arch, l: Layout, n: nat): (r: seq<seq<Byte>>)
    ensures |r| == n && forall i :: 0 <= i < n ==> r[i] == LE(GotInitial(arch, PltAddr(arch, l, i), LOAD_BASE + l.plt), 8)
  {
    seq(n, i requires 0 <= i < n => LE(GotInitial(arch, PltAddr(arch, l, i), LOAD_BASE + l.plt), 8))
  }

  /** A segment, loaded where LOAD_BASE puts its place in the file. */
  function Phdr(kind: nat, flags: nat, at: nat, size: nat, align: nat): (bs: seq<Byte>)
    ensures |bs| == 56
  {
    LE(kind, 4) + LE(flags, 4) + LE(at, 8) + LE(LOAD_BASE + at, 8) + LE(LOAD_BASE + at, 8) + LE(size, 8) + LE(size, 8) + LE(align, 8)
  }

  /** PHDR, INTERP, the code (LOAD), the data (LOAD), DYNAMIC. */
  function Phdrs(arch: Arch, l: Layout, nimp: nat, textLen: nat): (r: seq<seq<Byte>>)
    ensures |r| == NPHDR && forall k :: 0 <= k < NPHDR ==> |r[k]| == 56
  {
    [Phdr(6, 4, 64, NPHDR * 56, 8), Phdr(3, 4, l.interp, |Interp(arch)| + 1, 1), Phdr(1, 5, 0, l.text + textLen, 0x1000),
     Phdr(1, 6, l.dynamic, NDYN * 16 + (GOT_RESERVED + nimp) * 8, 0x1000), Phdr(2, 6, l.dynamic, NDYN * 16, 8)]
  }

  /** The file header up to the place of the section headers: identification, type, machine,
      version, entry point, program headers. */
  function FileHeader(arch: Arch, stub: nat): (bs: seq<Byte>)
    ensures |bs| == 40
  {
    [0x7f, 0x45, 0x4c, 0x46, 2, 1, 1, 0] + LE(0, 8) + LE(2, 2) + LE(if arch.X86_64? then 62 else 183, 2) + LE(1, 4)
    + LE(LOAD_BASE + stub, 8) + LE(64, 8)
  }

  /** Sizes of the file header and of a program header, and their number. */
  function HeaderSizes(): (bs: seq<Byte>)
    ensures |bs| == 6
  {
    LE(64, 2) + LE(56, 2) + LE(NPHDR, 2)
  }

  function DynEntry(tag: nat, val: nat): (bs: seq<Byte>)
    ensures |bs| == 16
  {
    LE(tag, 8) + LE(val, 8)
  }

  /** NEEDED, HASH, STRTAB, SYMTAB, STRSZ, SYMENT, PLTGOT, PLTRELSZ, PLTREL, JMPREL, NULL. */
  function DynPairs(l: Layout, nimp: nat, dynstrLen: nat): (r: seq<(nat, nat)>)
    ensures |r| == NDYN
  {
    [(1, 1), (4, LOAD_BASE + l.hash), (5, LOAD_BASE + l.dynstr), (6, LOAD_BASE + l.dynsym), (10, dynstrLen), (11, 24),
     (3, LOAD_BASE + l.got), (2, nimp * 24), (20, 7), (23, LOAD_BASE + l.rela), (0, 0)]
  }

  function DynEntries(pairs: seq<(nat, nat)>): (r: seq<seq<Byte>>)
    ensures |r| == |pairs| && forall k :: 0 <= k < |r| ==> r[k] == DynEntry(pairs[k].0, pairs[k].1)
  {
    seq(|pairs|, k requires 0 <= k < |pairs| => DynEntry(pairs[k].0, pairs[k].1))
  }

  function Dynamic(l: Layout, nimp: nat, dynstrLen: nat): (bs: seq<Byte>)
    ensures |bs| == NDYN * 16
  {
    Table(DynEntries(DynPairs(l, nimp, dynstrLen)), 16)
  }

  /** Calls patched in order; sites are offsets in the text. */
  predicate SitesFit(calls: seq<ExtCall>, size: nat) { forall k :: 0 <= k < |calls| ==> calls[k].site + 4 <= size }

  function PatchCalls(arch: Arch, l: Layout, text: seq<Byte>, calls: seq<ExtCall>): (r: seq<Byte>)
    requires SitesFit(calls, |text|)
    ensures |r| == |text|
  {
    if calls == [] then text
    else
      var (t, e) := (PatchCalls(arch, l, text, calls[..|calls| - 1]), calls[|calls| - 1]);
      Overlay(t, e.site, PatchedCall(arch, t[e.site..e.site + 4], LOAD_BASE + l.text + e.site, PltAddr(arch, l, e.import_)))
  }

  /** The input of the writer: linked text with its external calls; names include "exit" last. */
  datatype Input = Input(arch: Arch, text: seq<Byte>, entry: nat, names: seq<Name>, calls: seq<ExtCall>)

  function LayoutFor(inp: Input): Layout { LayoutOf(inp.arch, |inp.names|, |Dynstr(inp.names)|, |inp.text|) }

  /** Bucket and chain arrays as the gABI hash section. */
  function HashBytes(bucket: seq<nat>, chain: seq<nat>): seq<Byte> { LEWords([|bucket|, |chain|] + bucket + chain) }

  predicate HashOf(names: seq<Name>, bucket: seq<nat>, chain: seq<nat>) { Chained(names, bucket, chain) && |bucket| == |names| }

  lemma LayoutOrdered(arch: Arch, nimp: nat, dynstrLen: nat, textLen: nat)
    requires nimp > 0
    ensures var l := LayoutOf(arch, nimp, dynstrLen, textLen);
      && l.interp == 344 && l.interp + |Interp(arch)| + 1 <= l.dynsym && l.dynsym + (nimp + 1) * 24 == l.dynstr
      && l.dynstr + dynstrLen <= l.hash && l.hash + HashSize(nimp) <= l.rela && l.rela + nimp * 24 <= l.stub
      && l.stub + StubSize(arch) == l.plt && l.plt + Plt0Size(arch) + nimp * PLT_ENTRY_SIZE <= l.text
      && l.text + textLen <= l.dynamic && l.dynamic + NDYN * 16 == l.got && l.got + (GOT_RESERVED + nimp) * 8 == l.end <= l.total
  {
    hide AlignUp;
  }

  lemma LayoutAligned(arch: Arch, nimp: nat, dynstrLen: nat, textLen: nat)
    ensures var l := LayoutOf(arch, nimp, dynstrLen, textLen);
      && l.dynsym % 8 == 0 && l.hash % 8 == 0 && l.rela % 8 == 0
      && l.stub % 16 == 0 && l.text % 16 == 0 && l.dynamic % 0x1000 == 0 && l.got % 8 == 0
  {
    hide AlignUp;
    var l := LayoutOf(arch, nimp, dynstrLen, textLen);
    GotAligned(l.dynamic);
  }

  lemma GotAligned(dynamic: nat)
    requires dynamic % 0x1000 == 0
    ensures (dynamic + NDYN * 16) % 8 == 0
  {
    DivModUnique(dynamic + NDYN * 16, 8, 512 * (dynamic / 0x1000) + 22, 0);
  }

  // ---- The regions, each inside its place ----

  predicate Writable(inp: Input) { inp.names != [] && SitesFit(inp.calls, |inp.text|) }

  function HeaderChunk(inp: Input): (c: Chunk)
    ensures c.at == 0 && End(c) == 40
  {
    Chunk(0, FileHeader(inp.arch, LayoutFor(inp).stub))
  }

  function SizesChunk(): (c: Chunk)
    ensures c.at == 52 && End(c) == 58
  {
    Chunk(52, HeaderSizes())
  }

  function PhdrChunk(inp: Input): (c: Chunk)
    ensures c.at == 64 && End(c) == 64 + NPHDR * 56
  {
    Chunk(64, Table(Phdrs(inp.arch, LayoutFor(inp), |inp.names|, |inp.text|), 56))
  }

  function InterpChunk(inp: Input): (c: Chunk)
    ensures c.at == LayoutFor(inp).interp && End(c) == c.at + |Interp(inp.arch)| + 1
  {
    Chunk(LayoutFor(inp).interp, CString(AsciiBytes(Interp(inp.arch))))
  }

  /** After the all-zero entry 0. */
  function SymChunk(inp: Input): (c: Chunk)
    ensures c.at == LayoutFor(inp).dynsym + 24 && End(c) == c.at + |inp.names| * 24
  {
    Chunk(LayoutFor(inp).dynsym + 24, Table(SymEntries(inp.names, |inp.names|), 24))
  }

  function DynstrChunk(inp: Input): (c: Chunk)
    ensures c.at == LayoutFor(inp).dynstr && End(c) == c.at + |Dynstr(inp.names)|
  {
    Chunk(LayoutFor(inp).dynstr, Dynstr(inp.names))
  }

  function HashChunk(inp: Input, bucket: seq<nat>, chain: seq<nat>): (c: Chunk)
    requires |bucket| == |inp.names| && |chain| == |inp.names| + 1
    ensures c.at == LayoutFor(inp).hash && End(c) == c.at + HashSize(|inp.names|)
  {
    Chunk(LayoutFor(inp).hash, HashBytes(bucket, chain))
  }

  function RelaChunk(inp: Input): (c: Chunk)
    ensures c.at == LayoutFor(inp).rela && End(c) == c.at + |inp.names| * 24
  {
    Chunk(LayoutFor(inp).rela, Table(RelaEntries(inp.arch, LayoutFor(inp), |inp.names|), 24))
  }

  function DynamicChunk(inp: Input): (c: Chunk)
    ensures c.at == LayoutFor(inp).dynamic && End(c) == c.at + NDYN * 16
  {
    Chunk(LayoutFor(inp).dynamic, Dynamic(LayoutFor(inp), |inp.names|, |Dynstr(inp.names)|))
  }

  function StubChunk(inp: Input): (c: Chunk)
    requires inp.names != []
    ensures c.at == LayoutFor(inp).stub && End(c) == c.at + StubSize(inp.arch)
  {
    var l := LayoutFor(inp);
    Chunk(l.stub, StartStub(inp.arch, LOAD_BASE + l.stub, LOAD_BASE + l.text + inp.entry, PltAddr(inp.arch, l, |inp.names| - 1)))
  }

  function GotChunk(inp: Input): (c: Chunk)
    ensures c.at == LayoutFor(inp).got && End(c) == c.at + 8
  {
    Chunk(LayoutFor(inp).got, LE(LOAD_BASE + LayoutFor(inp).dynamic, 8))
  }

  function Plt0Chunk(inp: Input): (c: Chunk)
    ensures c.at == LayoutFor(inp).plt && End(c) == c.at + Plt0Size(inp.arch)
  {
    Chunk(LayoutFor(inp).plt, Plt0(inp.arch, LOAD_BASE + LayoutFor(inp).plt, LOAD_BASE + LayoutFor(inp).got))
  }

  function PltChunk(inp: Input, n: nat): (c: Chunk)
    ensures c.at == LayoutFor(inp).plt + Plt0Size(inp.arch) && End(c) == c.at + n * PLT_ENTRY_SIZE
  {
    Chunk(LayoutFor(inp).plt + Plt0Size(inp.arch), Table(PltEntries(inp.arch, LayoutFor(inp), n), PLT_ENTRY_SIZE))
  }

  function SlotChunk(inp: Input, n: nat): (c: Chunk)
    ensures c.at == LayoutFor(inp).got + GOT_RESERVED * 8 && End(c) == c.at + n * 8
  {
    Chunk(LayoutFor(inp).got + GOT_RESERVED * 8, Table(GotEntries(inp.arch, LayoutFor(inp), n), 8))
  }

  function TextChunk(inp: Input): (c: Chunk)
    requires Writable(inp)
    ensures c.at == LayoutFor(inp).text && End(c) == c.at + |inp.text|
  {
    Chunk(LayoutFor(inp).text, PatchCalls(inp.arch, LayoutFor(inp), inp.text, inp.calls))
  }

  /** All regions, in the order they are written. */
  function Chunks(inp: Input, bucket: seq<nat>, chain: seq<nat>): (cs: seq<Chunk>)
    requires Writable(inp) && |bucket| == |inp.names| && |chain| == |inp.names| + 1
    ensures |cs| == 15
  {
    [HeaderChunk(inp), SizesChunk(), PhdrChunk(inp),
     InterpChunk(inp), SymChunk(inp), DynstrChunk(inp), HashChunk(inp, bucket, chain), RelaChunk(inp), DynamicChunk(inp),
     StubChunk(inp), GotChunk(inp), Plt0Chunk(inp), PltChunk(inp, |inp.names|), SlotChunk(inp, |inp.names|), TextChunk(inp)]
  }

  /** No two regions overlap and all lie inside the image. */
  lemma RegionsDisjoint(inp: Input, bucket: seq<nat>, chain: seq<nat>)
    requires Writable(inp) && |bucket| == |inp.names| && |chain| == |inp.names| + 1
    ensures Fit(Chunks(inp, bucket, chain), LayoutFor(inp).end) && Disjoint(Chunks(inp, bucket, chain))
  {
    hide LayoutFor, HeaderChunk, SizesChunk, PhdrChunk, InterpChunk, SymChunk, DynstrChunk, HashChunk, RelaChunk, DynamicChunk, StubChunk,
      GotChunk, Plt0Chunk,
      PltChunk, SlotChunk, TextChunk, End, Dynstr, ApartFrom;
    RegionsOrdered(inp);
    var cs := Chunks(inp, bucket, chain);
    forall i, j | 0 <= i < j < |cs| ensures ApartFrom(cs[i], cs[j]) {
      if i < 8 {
        TablesApart(inp, bucket, chain, i, j);
      } else {
        CodeApart(inp, bucket, chain, i, j);
      }
    }
  }

  /** Headers and tables stand in the order they are written. */
  lemma TablesApart(inp: Input, bucket: seq<nat>, chain: seq<nat>, i: nat, j: nat)
    requires Writable(inp) && |bucket| == |inp.names| && |chain| == |inp.names| + 1 && i < j < 15 && i < 8
    ensures ApartFrom(Chunks(inp, bucket, chain)[i], Chunks(inp, bucket, chain)[j])
  {
    hide LayoutFor, HeaderChunk, SizesChunk, PhdrChunk, InterpChunk, SymChunk, DynstrChunk, HashChunk, RelaChunk, DynamicChunk, StubChunk,
      GotChunk, Plt0Chunk, PltChunk, SlotChunk, TextChunk, End, Dynstr;
    RegionsOrdered(inp);
    var cs := Chunks(inp, bucket, chain);
    assert End(cs[i]) <= cs[j].at;
  }

  /** The dynamic section and the GOT follow the text. */
  lemma CodeApart(inp: Input, bucket: seq<nat>, chain: seq<nat>, i: nat, j: nat)
    requires Writable(inp) && |bucket| == |inp.names| && |chain| == |inp.names| + 1 && 8 <= i < j < 15
    ensures ApartFrom(Chunks(inp, bucket, chain)[i], Chunks(inp, bucket, chain)[j])
  {
    hide LayoutFor, HeaderChunk, SizesChunk, PhdrChunk, InterpChunk, SymChunk, DynstrChunk, HashChunk, RelaChunk, DynamicChunk, StubChunk,
      GotChunk, Plt0Chunk, PltChunk, SlotChunk, TextChunk, End, Dynstr;
    RegionsOrdered(inp);
    var cs := Chunks(inp, bucket, chain);
    if i == 8 {
      assert if j == 10 || j == 13 then End(cs[8]) <= cs[j].at else End(cs[j]) <= cs[8].at;
    }
  }

  lemma RegionsOrdered(inp: Input)
    requires Writable(inp)
    ensures var (l, n) := (LayoutFor(inp), |inp.names|);
      && l.interp == 344 && l.interp + |Interp(inp.arch)| + 1 <= l.dynsym && l.dynsym + (n + 1) * 24 == l.dynstr
      && l.dynstr + |Dynstr(inp.names)| <= l.hash && l.hash + HashSize(n) <= l.rela && l.rela + n * 24 <= l.stub
      && l.stub + StubSize(inp.arch) == l.plt && l.plt + Plt0Size(inp.arch) + n * PLT_ENTRY_SIZE <= l.text
      && l.text + |inp.text| <= l.dynamic && l.dynamic + NDYN * 16 == l.got && l.got + (GOT_RESERVED + n) * 8 == l.end <= l.total
  {
    LayoutOrdered(inp.arch, |inp.names|, |Dynstr(inp.names)|, |inp.text|);
  }
}
