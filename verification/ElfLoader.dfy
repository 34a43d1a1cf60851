// What the kernel and the dynamic loader read in an ELF file, from its bytes alone: segments
// (gABI, chapter 5, "Program Header"), the dynamic section, symbols, relocations and the hash
// table, and what lazy binding hands to the resolver.
module ElfLoader {
  import opened Words
  import opened TypeSys
  import opened SysvHash
  import opened ElfArch
  import X86RoundTrip

  /** n bytes of the file as a number; -1 outside it. */
  function Num(img: seq<Byte>, at: int, n: nat): int {
    if 0 <= at && at + n <= |img| then FromLE(img[at..at + n]) else -1
  }

  // ---- File and program headers ----

  /** A 64-bit little-endian executable for the machine, of the current version, with program
      headers of the usual size. */
  predicate Accepted(arch: Arch, img: seq<Byte>) {
    && |img| >= 64 && img[..7] == [0x7f, 0x45, 0x4c, 0x46, 2, 1, 1]
    && Num(img, 16, 2) == 2 && Num(img, 18, 2) == (if arch.X86_64? then 0x3e else 0xb7) && Num(img, 20, 4) == 1
    && Num(img, 52, 2) == 64 && Num(img, 54, 2) == 56
  }

  function EntryPoint(img: seq<Byte>): int { Num(img, 24, 8) }

  function HeaderCount(img: seq<Byte>): int { Num(img, 56, 2) }

  /** Where program header k stands. */
  function HeaderAt(img: seq<Byte>, k: nat): int { Num(img, 32, 8) + 56 * k }

  datatype Segment = Segment(kind: int, rights: int, offset: int, vaddr: int, filesz: int, memsz: int, align: int)

  function SegmentAt(img: seq<Byte>, k: nat): Segment {
    var at := HeaderAt(img, k);
    Segment(Num(img, at, 4), Num(img, at + 4, 4), Num(img, at + 8, 8), Num(img, at + 16, 8), Num(img, at + 32, 8), Num(img, at + 40, 8),
      Num(img, at + 48, 8))
  }

  /** Memory is the file's bytes and nothing more, at an address and a place in the file that agree
      below the alignment. */
  predicate Mappable(s: Segment) { s.filesz == s.memsz && s.align > 0 && s.vaddr % s.align == s.offset % s.align }

  /** Rights: execute, write, read. */
  const X := 1
  const W := 2
  const R := 4

  predicate Covers(s: Segment, a: int, n: nat, right: nat)
    requires right > 0
  {
    s.kind == 1 && s.rights / right % 2 == 1 && s.vaddr <= a && a + n <= s.vaddr + s.filesz
  }

  /** Where in the file the n bytes at address a are loaded from, with the right: from the first
      such segment from the k-th on; -1 when there is none. */
  function Place(img: seq<Byte>, a: int, n: nat, right: nat, k: nat): int
    requires right > 0
    decreases HeaderCount(img) - k
  {
    if k >= HeaderCount(img) then -1
    else
      var s := SegmentAt(img, k);
      if Covers(s, a, n, right) then s.offset + (a - s.vaddr) else Place(img, a, n, right, k + 1)
  }

  /** The number in n bytes of memory; -1 where nothing is loaded. */
  function Read(img: seq<Byte>, a: int, n: nat): int { Num(img, Place(img, a, n, R, 0), n) }

  /** Instruction bytes. */
  function Fetch(img: seq<Byte>, a: int, n: nat): Option<seq<Byte>> {
    var at := Place(img, a, n, X, 0);
    if 0 <= at && at + n <= |img| then Some(img[at..at + n]) else None
  }

  predicate CanWrite(img: seq<Byte>, a: int, n: nat) { Place(img, a, n, W, 0) >= 0 }

  /** The first program header of a kind, from the k-th on. */
  function FindSegment(img: seq<Byte>, kind: int, k: nat): Option<Segment>
    decreases HeaderCount(img) - k
  {
    if k >= HeaderCount(img) then None
    else if SegmentAt(img, k).kind == kind then Some(SegmentAt(img, k))
    else FindSegment(img, kind, k + 1)
  }

  /** The interpreter's path: the kernel reads it from the file, with its terminator. */
  function InterpPath(img: seq<Byte>): Option<Name> {
    match FindSegment(img, 3, 0)
    case Some(s) =>
      if 0 <= s.offset && 0 < s.filesz && s.offset + s.filesz <= |img| && img[s.offset + s.filesz - 1] == 0
      then Some(img[s.offset..s.offset + s.filesz - 1]) else None
    case None => None
  }

  // ---- The dynamic section ----

  /** The value of the first entry with the tag, before the entry of tag 0. */
  function Tagged(img: seq<Byte>, a: int, left: nat, tag: int): int
    decreases left
  {
    if left == 0 then -1
    else if Read(img, a, 8) == tag then Read(img, a + 8, 8)
    else if Read(img, a, 8) == 0 then -1
    else Tagged(img, a + 16, left - 1, tag)
  }

  function Dyn(img: seq<Byte>, tag: int): int {
    match FindSegment(img, 2, 0)
    case Some(s) => if s.filesz < 0 then -1 else Tagged(img, s.vaddr, s.filesz / 16, tag)
    case None => -1
  }

  /** The string at address a, which ends before `end`. */
  function Text(img: seq<Byte>, a: int, end: int): Option<Name>
    decreases end - a
  {
    var b := Read(img, a, 1);
    if a >= end || b < 0 || b >= 256 then None
    else if b == 0 then Some([])
    else match Text(img, a + 1, end) {
      case Some(rest) => Some([b] + rest)
      case None => None
    }
  }

  /** A name in the string table: DT_STRTAB is 5, DT_STRSZ 10. */
  function StringOf(img: seq<Byte>, offset: int): Option<Name> { Text(img, Dyn(img, 5) + offset, Dyn(img, 5) + Dyn(img, 10)) }

  /** Symbol s is a global function of that name, not defined here: DT_SYMTAB is 6, DT_SYMENT 11. */
  predicate Wants(img: seq<Byte>, s: int, name: Name) {
    var e := Dyn(img, 6) + Dyn(img, 11) * s;
    && StringOf(img, Read(img, e, 4)) == Some(name)
    && Read(img, e + 4, 1) == 0x12 && Read(img, e + 6, 2) == 0 && Read(img, e + 8, 8) == 0
  }

  /** Relocation n of the table for the PLT (DT_JMPREL 23, DT_PLTRELSZ 2, DT_PLTREL 20 with the value
      of DT_RELA) fills the word at `slot` with the address of the function of that name. */
  predicate Binds(arch: Arch, img: seq<Byte>, n: nat, slot: int, name: Name) {
    var (r, jumpSlot) := (Dyn(img, 23) + 24 * n, if arch.X86_64? then 7 else 1026);
    && Dyn(img, 20) == 7 && 24 * n + 24 <= Dyn(img, 2)
    && Read(img, r, 8) == slot && CanWrite(img, slot, 8) && Read(img, r + 16, 8) == 0
    && Read(img, r + 8, 8) % 0x1_0000_0000 == jumpSlot && Wants(img, Read(img, r + 8, 8) / 0x1_0000_0000, name)
  }

  /** The words of the hash table at DT_HASH, 4. */
  predicate HashReads(img: seq<Byte>, bucket: seq<nat>, chain: seq<nat>) {
    var a := Dyn(img, 4);
    && Read(img, a, 4) == |bucket| && Read(img, a + 4, 4) == |chain|
    && (forall k :: 0 <= k < |bucket| ==> Read(img, a + 8 + 4 * k, 4) == bucket[k])
    && (forall k :: 0 <= k < |chain| ==> Read(img, a + 8 + 4 * |bucket| + 4 * k, 4) == chain[k])
  }

  // ---- Lazy binding ----

  /** The resolver in the word at `resolver` is entered with a relocation's number and the word at
      `linkMap`. */
  datatype Handover = Handover(number: int, linkMap: int, resolver: int)

  /** What a jump through `slot` comes to while it still holds its first value. On x86-64 the number
      is pushed; on AArch64 the resolver takes it from the distance between the slot, which x16 holds
      on the way, and the word it was itself found in. */
  function Unresolved(arch: Arch, img: seq<Byte>, slot: int): Option<Handover> {
    var v := Read(img, slot, 8);
    match arch
    case X86_64 =>
      (match Fetch(img, v, 10) case None => None case Some(code) =>
       match PushAndJump(code, v) case None => None case Some((number, first)) =>
       match Fetch(img, first, 12) case None => None case Some(head) =>
       match PushAndJumpThrough(head, first) case None => None case Some((linkMap, resolver)) =>
         Some(Handover(number, linkMap, resolver)))
    case AArch64 =>
      (match Fetch(img, v, 20) case None => None case Some(head) =>
       match SaveAndJumpThrough(head, v) case None => None case Some(resolver) =>
         Some(Handover((slot - resolver) / 8 - 1, resolver - 8, resolver)))
  }

  // ---- Calls ----

  /** The code at p jumps through `slot`. */
  predicate EntryLeads(arch: Arch, img: seq<Byte>, p: int, slot: int) {
    match Fetch(img, p, 16)
    case None => false
    case Some(entry) => JumpsThrough(arch, entry, p) == Some(slot)
  }

  /** A call whose last four bytes are at address a leads to a jump through `slot`. */
  predicate CallsThrough(arch: Arch, img: seq<Byte>, a: int, slot: int) {
    match Fetch(img, a, 4)
    case None => false
    case Some(field) =>
      match CallTarget(arch, field, a)
      case None => false
      case Some(p) => EntryLeads(arch, img, p, slot)
  }

  /** Slot n of the table at DT_PLTGOT, 3, after three reserved words, the first of which is the
      address of the dynamic section: relocation n fills it with the function of that name, and
      until then a jump through it has the resolver told to do relocation n. */
  predicate SlotOf(arch: Arch, img: seq<Byte>, n: nat, slot: int, name: Name) {
    var got := Dyn(img, 3);
    && slot == got + 8 * (3 + n) && Binds(arch, img, n, slot, name)
    && Unresolved(arch, img, slot) == Some(Handover(n, got + 8, got + 16))
  }

  /** The call ends in the function of that name, bound at once or on the first call. */
  ghost predicate CallBinds(arch: Arch, img: seq<Byte>, a: int, name: Name) {
    exists n: nat, slot: int :: CallsThrough(arch, img, a, slot) && SlotOf(arch, img, n, slot, name)
  }

  // ---- The start ----

  /** These bytes are in memory, to be executed or read, at address a. */
  predicate Holds(img: seq<Byte>, a: int, bs: seq<Byte>, right: nat)
    requires right > 0
  {
    var at := Place(img, a, |bs|, right, 0);
    0 <= at && at + |bs| <= |img| && img[at..at + |bs|] == bs
  }

  /** The code at e calls the code at `main_` and then, with its result, the code at p. */
  predicate CallsInTurn(arch: Arch, img: seq<Byte>, e: int, main_: int, p: int) {
    match arch
    case X86_64 =>
      (match Fetch(img, e, 12) case None => false case Some(stub) => X86RoundTrip.DecodeAll(stub) == StubCode(e, main_, p))
    case AArch64 =>
      match (Fetch(img, e, 4), Fetch(img, e + 4, 4)) {
        case (Some(first), Some(second)) => CallTarget(arch, first, e) == Some(main_) && CallTarget(arch, second, e + 4) == Some(p)
        case _ => false
      }
  }

  /** The process starts with a call of the code at `main_`, and then of the C library's exit. */
  ghost predicate StartsWith(arch: Arch, img: seq<Byte>, main_: int) {
    exists p: int, n: nat, slot: int ::
      CallsInTurn(arch, img, EntryPoint(img), main_, p) && EntryLeads(arch, img, p, slot)
      && SlotOf(arch, img, n, slot, [0x65, 0x78, 0x69, 0x74])
  }
}
