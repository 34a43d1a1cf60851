// The machine-dependent pieces of the dynamic image: entry stub, procedure linkage table and
// call patching.
module ElfArch {
  import opened Words
  import opened TypeSys
  import opened A64Instr
  import opened Registers
  import X86Instr
  import X86RoundTrip

  datatype Arch = X86_64 | AArch64

  function StubSize(arch: Arch): nat { if arch.X86_64? then 12 else 8 }
  function Plt0Size(arch: Arch): nat { if arch.X86_64? then 16 else 32 }

  const PLT_ENTRY_SIZE := 16

  /** R_X86_64_JUMP_SLOT and R_AARCH64_JUMP_SLOT. */
  function JumpSlot(arch: Arch): nat { if arch.X86_64? then 7 else 1026 }

  /** A 32-bit displacement. */
  function Rel32(from: int, to: int): seq<Byte> { LE(to - from, 4) }

  // ---- A64 words ----

  function EncBL(pc: int, target: int): int { 0x94000000 + (target - pc) / 4 % 0x400_0000 }

  function Page(a: int): int { a / 4096 }

  function EncAdrp(rd: RegNo, pc: int, target: int): int {
    var imm := (Page(target) - Page(pc)) % 0x20_0000;
    0x90000000 + imm % 4 * 0x2000_0000 + imm / 4 % 0x8_0000 * 32 + rd
  }

  function EncLdr64(rt: RegNo, rn: RegNo, target: int): int { 0xF9400000 + target % 4096 / 8 * 1024 + rn * 32 + rt }

  function EncAdd64(rd: RegNo, rn: RegNo, target: int): int { 0x91000000 + target % 4096 * 1024 + rn * 32 + rd }

  const BR_X17 := 0xD61F0220
  const STP_X16_X30_PRE := 0xA9BF7BF0
  const NOP := 0xD503201F

  // ---- What is built ----

  function StartStub(arch: Arch, stub: int, main_: int, exit_: int): (bs: seq<Byte>)
    ensures |bs| == StubSize(arch)
  {
    match arch
    case X86_64 => [0xe8] + Rel32(stub + 5, main_) + [0x89, 0xc7] + [0xe8] + Rel32(stub + 12, exit_)
    case AArch64 => LE(EncBL(stub, main_), 4) + LE(EncBL(stub + 4, exit_), 4)
  }

  function Plt0(arch: Arch, plt0: int, got: int): (bs: seq<Byte>)
    ensures |bs| == Plt0Size(arch)
  {
    match arch
    case X86_64 =>
      [0xff, 0x35] + Rel32(plt0 + 6, got + 8) + [0xff, 0x25] + Rel32(plt0 + 12, got + 16) + [0x0f, 0x1f, 0x40, 0x00]
    case AArch64 =>
      LE(STP_X16_X30_PRE, 4) + LE(EncAdrp(16, plt0 + 4, got + 16), 4) + LE(EncLdr64(17, 16, got + 16), 4)
      + LE(EncAdd64(16, 16, got + 16), 4) + LE(BR_X17, 4) + LE(NOP, 4) + LE(NOP, 4) + LE(NOP, 4)
  }

  function PltEntry(arch: Arch, index: nat, plt: int, plt0: int, slot: int): (bs: seq<Byte>)
    ensures |bs| == PLT_ENTRY_SIZE
  {
    match arch
    case X86_64 => [0xff, 0x25] + Rel32(plt + 6, slot) + [0x68] + LE(index, 4) + [0xe9] + Rel32(plt + 16, plt0)
    case AArch64 =>
      LE(EncAdrp(16, plt, slot), 4) + LE(EncLdr64(17, 16, slot), 4) + LE(EncAdd64(16, 16, slot), 4) + LE(BR_X17, 4)
  }

  /** What an unresolved GOT slot holds: where its PLT entry starts lazy binding. */
  function GotInitial(arch: Arch, plt: int, plt0: int): int { if arch.X86_64? then plt + 6 else plt0 }

  /** The four bytes of a call site, redirected. */
  function PatchedCall(arch: Arch, old_: seq<Byte>, site: int, target: int): (bs: seq<Byte>)
    requires |old_| == 4
    ensures |bs| == 4
  {
    match arch
    case X86_64 => Rel32(site + 4, target)
    case AArch64 => LE(FromLE(old_) / 0x400_0000 * 0x400_0000 + (target - site) / 4 % 0x400_0000, 4)
  }

  // ---- What the machine makes of it ----

  function Word(bs: seq<Byte>, k: nat): nat
    requires 4 * k + 4 <= |bs|
  {
    FromLE(bs[4 * k..4 * k + 4])
  }

  function Disp(bs: seq<Byte>): int { Signed(4, FromLE(bs)) }

  /** Where a call whose last four bytes are at `site` goes (on AArch64 those bytes are the
      whole instruction). */
  function CallTarget(arch: Arch, bs: seq<Byte>, site: int): Option<int>
    requires |bs| == 4
  {
    match arch
    case X86_64 => Some(site + 4 + Disp(bs))
    case AArch64 =>
      if FromLE(bs) >= P32 then None
      else match Decode(FromLE(bs)) {
        case Some(i) => if i.Branch? && i.link then Some(site + 4 * i.imm26) else None
        case None => None
      }
  }

  /** ADRP: the page its result starts at, counted in pages. */
  function AdrpPage(w: nat, rd: RegNo, pc: int): Option<int> {
    if w / 0x8000_0000 == 1 && w / 0x100_0000 % 32 == 16 && w % 32 == rd
    then Some(Page(pc) + SignExt(w / 32 % 0x8_0000 * 4 + w / 0x2000_0000 % 4, 0x20_0000))
    else None
  }

  /** The address of the pointer that a PLT entry at `pc` jumps through; on AArch64 x16 is left
      with it. */
  function JumpsThrough(arch: Arch, bs: seq<Byte>, pc: int): Option<int>
    requires |bs| == PLT_ENTRY_SIZE
  {
    match arch
    case X86_64 => if bs[0] == 0xff && bs[1] == 0x25 then Some(pc + 6 + Disp(bs[2..6])) else None
    case AArch64 =>
      var (w0, w1, w2) := (Word(bs, 0), Word(bs, 1), Word(bs, 2));
      if w1 >= P32 || w2 >= P32 || Word(bs, 3) != 0xd61f0220 then None   // BR X17
      else match (AdrpPage(w0, 16, pc), Decode(w1), Decode(w2)) {
        case (Some(page), Some(LdStScaled(3, 1, imm12, 16, 17)), Some(AddSubImm(true, false, false, false, low, 16, 16))) =>
          // the load's address, which must also be what x16 is left with
          if 8 * imm12 == low then Some(4096 * page + 8 * imm12) else None
        case _ => None
      }
  }

  /** PUSH imm32 and JMP rel32: the number pushed, and where the jump goes. */
  function PushAndJump(bs: seq<Byte>, pc: int): Option<(int, int)>
    requires |bs| == 10
  {
    if bs[0] == 0x68 && bs[5] == 0xe9 then Some((Disp(bs[1..5]), pc + 10 + Disp(bs[6..10]))) else None
  }

  /** PUSH and JMP, both of memory relative to the next instruction: the two addresses. */
  function PushAndJumpThrough(bs: seq<Byte>, pc: int): Option<(int, int)>
    requires |bs| == 12
  {
    if bs[0] == 0xff && bs[1] == 0x35 && bs[6] == 0xff && bs[7] == 0x25
    then Some((pc + 6 + Disp(bs[2..6]), pc + 12 + Disp(bs[8..12])))
    else None
  }

  /** STP x16, x30, [sp, -16]!, then a jump like that of a PLT entry: the pointer's address. */
  function SaveAndJumpThrough(bs: seq<Byte>, pc: int): Option<int>
    requires |bs| == 20
  {
    var w := Word(bs, 0);
    if w < P32 && Decode(w) == Some(Pair(false, PreIndex, -2, 30, 31, 16)) then JumpsThrough(AArch64, bs[4..], pc + 4) else None
  }

  // ---- Displacements are exact ----

  predicate Near(a: int) { 0 <= a < 0x4000_0000 }

  lemma Rel32Exact(from: int, to: int)
    requires Near(from) && Near(to)
    ensures Disp(Rel32(from, to)) == to - from
  {
    FromLERoundTrip(to - from, 4);
    Pow256Sizes();
    SignedLow(4, to - from);
    SignedFits(4, to - from);
  }

  lemma AdrpExact(pc: int, target: int)
    requires Near(pc) && Near(target)
    ensures 0 <= EncAdrp(16, pc, target) < P32 && AdrpPage(EncAdrp(16, pc, target), 16, pc) == Some(Page(target))
  {
    var d := Page(target) - Page(pc);
    var imm := d % 0x20_0000;
    var (lo, hi, w) := (imm % 4, imm / 4, EncAdrp(16, pc, target));
    assert imm / 4 % 0x8_0000 == hi;
    assert w == 16 + 32 * (hi + 0x8_0000 * (16 + 32 * (lo + 4)));
    AdrpFields(hi, lo);
    assert SignExt(hi * 4 + lo, 0x20_0000) == d;
  }

  lemma AdrpFields(hi: nat, lo: nat)
    requires hi < 0x8_0000 && lo < 4
    ensures var w := 16 + 32 * (hi + 0x8_0000 * (16 + 32 * (lo + 4)));
      w % 32 == 16 && w / 32 % 0x8_0000 == hi && w / 0x100_0000 % 32 == 16 && w / 0x2000_0000 % 4 == lo && w / 0x8000_0000 == 1
  {
    var u := hi + 0x8_0000 * (16 + 32 * (lo + 4));
    var w := 16 + 32 * u;
    assert w / 32 == u && w % 32 == 16;
    assert w / 0x100_0000 == 16 + 32 * (lo + 4);
    assert w / 0x2000_0000 == lo + 4;
  }

  lemma LdrWord(target: int)
    requires Near(target) && target % 8 == 0
    ensures 0 <= EncLdr64(17, 16, target) < P32
    ensures Decode(EncLdr64(17, 16, target)) == Some(LdStScaled(3, 1, target % 4096 / 8, 16, 17))
  {
    var i := LdStScaled(3, 1, target % 4096 / 8, 16, 17);
    assert EncLdr64(17, 16, target) == Encode(i);
    RoundTrip(i, 0);
  }

  lemma AddWord(target: int)
    requires Near(target)
    ensures 0 <= EncAdd64(16, 16, target) < P32
    ensures Decode(EncAdd64(16, 16, target)) == Some(AddSubImm(true, false, false, false, target % 4096, 16, 16))
  {
    var i := AddSubImm(true, false, false, false, target % 4096, 16, 16);
    assert EncAdd64(16, 16, target) == Encode(i);
    RoundTrip(i, 0);
  }

  lemma FourWords(a: seq<Byte>, b: seq<Byte>, c: seq<Byte>, d: seq<Byte>)
    requires |a| == 4 && |b| == 4 && |c| == 4 && |d| == 4
    ensures var bs := a + b + c + d;
      bs[0..4] == a && bs[4..8] == b && bs[8..12] == c && bs[12..16] == d
  {
  }

  /** Every PLT entry jumps through its own GOT slot. On x86-64 the code after that jump pushes the
      entry's number and goes to the first entry. */
  lemma PltEntryMeaning(arch: Arch, index: nat, plt: int, plt0: int, slot: int)
    requires Near(plt + 16) && Near(plt) && Near(plt0) && Near(slot) && (arch.AArch64? ==> slot % 8 == 0) && index < 0x8000_0000
    ensures var bs := PltEntry(arch, index, plt, plt0, slot);
      && JumpsThrough(arch, bs, plt) == Some(slot)
      && (arch.X86_64? ==> PushAndJump(bs[6..], plt + 6) == Some((index, plt0)))
  {
    hide LE, FromLE, Decode, EncAdrp, EncLdr64, EncAdd64, AdrpPage, Signed;
    var bs := PltEntry(arch, index, plt, plt0, slot);
    match arch {
      case X86_64 =>
        Rel32Exact(plt + 6, slot);
        Rel32Exact(plt + 16, plt0);
        NumberExact(index);
        assert bs[2..6] == Rel32(plt + 6, slot);
        assert bs[6..] == [0x68] + LE(index, 4) + [0xe9] + Rel32(plt + 16, plt0);
        assert bs[6..][1..5] == LE(index, 4) && bs[6..][6..10] == Rel32(plt + 16, plt0);
      case AArch64 =>
        FourWords(LE(EncAdrp(16, plt, slot), 4), LE(EncLdr64(17, 16, slot), 4), LE(EncAdd64(16, 16, slot), 4), LE(BR_X17, 4));
        JumpWords(bs, plt, slot);
    }
  }

  lemma NumberExact(v: nat)
    requires v < 0x8000_0000
    ensures Disp(LE(v, 4)) == v
  {
    FromLERoundTrip(v, 4);
    Pow256Sizes();
    SignedLow(4, v);
    SignedFits(4, v);
  }

  /** ADRP, LDR, ADD and BR in a row. */
  lemma JumpWords(bs: seq<Byte>, pc: int, slot: int)
    requires Near(pc) && Near(slot) && slot % 8 == 0 && |bs| == 16
    requires bs[0..4] == LE(EncAdrp(16, pc, slot), 4) && bs[4..8] == LE(EncLdr64(17, 16, slot), 4)
      && bs[8..12] == LE(EncAdd64(16, 16, slot), 4) && bs[12..16] == LE(BR_X17, 4)
    ensures JumpsThrough(AArch64, bs, pc) == Some(slot)
  {
    hide LE, FromLE, Decode, EncAdrp, EncLdr64, EncAdd64, AdrpPage, Signed;
    AdrpExact(pc, slot);
    LdrWord(slot);
    AddWord(slot);
    WordBack(EncAdrp(16, pc, slot));
    WordBack(EncLdr64(17, 16, slot));
    WordBack(EncAdd64(16, 16, slot));
    WordBack(BR_X17);
    assert slot % 4096 % 8 == 0;
  }

  /** The first PLT entry hands over to the address in the third GOT word: on x86-64 after pushing
      the second word, on AArch64 after saving the x16 it was entered with. */
  lemma Plt0Meaning(arch: Arch, plt0: int, got: int)
    requires Near(plt0) && Near(plt0 + 32) && Near(got) && Near(got + 16) && (arch.AArch64? ==> got % 8 == 0)
    ensures var bs := Plt0(arch, plt0, got);
      match arch
      case X86_64 => PushAndJumpThrough(bs[..12], plt0) == Some((got + 8, got + 16))
      case AArch64 => SaveAndJumpThrough(bs[..20], plt0) == Some(got + 16)
  {
    hide LE, FromLE, Decode, EncAdrp, EncLdr64, EncAdd64, AdrpPage, Signed, JumpsThrough;
    var bs := Plt0(arch, plt0, got);
    match arch {
      case X86_64 =>
        Rel32Exact(plt0 + 6, got + 8);
        Rel32Exact(plt0 + 12, got + 16);
        assert bs[..12][2..6] == Rel32(plt0 + 6, got + 8) && bs[..12][8..12] == Rel32(plt0 + 12, got + 16);
      case AArch64 =>
        var (g2, q) := (got + 16, bs[..20]);
        assert g2 % 8 == 0;
        assert q == LE(STP_X16_X30_PRE, 4) + LE(EncAdrp(16, plt0 + 4, g2), 4) + LE(EncLdr64(17, 16, g2), 4)
          + LE(EncAdd64(16, 16, g2), 4) + LE(BR_X17, 4);
        var j := q[4..];
        assert j == LE(EncAdrp(16, plt0 + 4, g2), 4) + LE(EncLdr64(17, 16, g2), 4) + LE(EncAdd64(16, 16, g2), 4) + LE(BR_X17, 4);
        FourWords(LE(EncAdrp(16, plt0 + 4, g2), 4), LE(EncLdr64(17, 16, g2), 4), LE(EncAdd64(16, 16, g2), 4), LE(BR_X17, 4));
        JumpWords(j, plt0 + 4, g2);
        assert q[0..4] == LE(STP_X16_X30_PRE, 4);
        WordBack(STP_X16_X30_PRE);
        StpWord();
    }
  }

  lemma StpWord()
    ensures Decode(STP_X16_X30_PRE) == Some(Pair(false, PreIndex, -2, 30, 31, 16))
  {
    hide Decode;
    var i := Pair(false, PreIndex, -2, 30, 31, 16);
    assert STP_X16_X30_PRE == Encode(i);
    RoundTrip(i, 0);
  }

  /** The call site holds a call instruction (on AArch64 the word itself, BL with any
      displacement). */
  predicate IsCall(arch: Arch, old_: seq<Byte>) {
    |old_| == 4 && (arch.AArch64? ==> FromLE(old_) / 0x400_0000 == 0x25)
  }

  lemma BLWord(rel: int)
    requires -0x200_0000 <= rel < 0x200_0000
    ensures 0x94000000 + rel % 0x400_0000 < P32
    ensures Decode(0x94000000 + rel % 0x400_0000) == Some(Branch(true, rel))
  {
    assert 0x94000000 + rel % 0x400_0000 == Encode(Branch(true, rel));
    RoundTrip(Branch(true, rel), 0);
  }

  /** A patched call goes exactly to its target. */
  lemma PatchedCallMeaning(arch: Arch, old_: seq<Byte>, site: int, target: int)
    requires IsCall(arch, old_) && Near(site) && Near(site + 4) && Near(target)
    requires arch.AArch64? ==> (target - site) % 4 == 0 && -0x800_0000 <= target - site < 0x800_0000
    ensures CallTarget(arch, PatchedCall(arch, old_, site, target), site) == Some(target)
  {
    hide LE, FromLE, Decode, Signed;
    match arch
    case X86_64 => Rel32Exact(site + 4, target);
    case AArch64 =>
      var rel := (target - site) / 4;
      BLWord(rel);
      WordBack(0x94000000 + rel % 0x400_0000);
  }

  /** What the x86-64 stub is as instructions: main's result is handed on as exit's argument. */
  function StubCode(stub: int, main_: int, exit_: int): seq<X86Instr.Instr> {
    [X86Instr.Call(main_ - (stub + 5)), X86Instr.RR(0x89, 4, X86No(Reg(RetReg, 0, 4, NoType)), X86No(Reg(Param, 0, 4, NoType))),
     X86Instr.Call(exit_ - (stub + 12))]
  }

  /** The entry stub calls main and then exit with main's result: on x86-64 it is moved from the
      result register to the first parameter, on AArch64 these are one register. */
  lemma StartStubMeaning(arch: Arch, stub: int, main_: int, exit_: int)
    requires Near(stub) && Near(stub + 12) && Near(main_) && Near(exit_)
    requires arch.AArch64? ==>
      && stub % 4 == 0 && main_ % 4 == 0 && exit_ % 4 == 0
      && -0x400_0000 <= main_ - stub < 0x400_0000 && -0x400_0000 <= exit_ - stub < 0x400_0000
    ensures var bs := StartStub(arch, stub, main_, exit_);
      if arch.X86_64? then X86RoundTrip.DecodeAll(bs) == StubCode(stub, main_, exit_)
      else
        && CallTarget(arch, bs[0..4], stub) == Some(main_) && CallTarget(arch, bs[4..8], stub + 4) == Some(exit_)
        && A64Raw(Reg(RetReg, 0, 4, NoType)) == A64Raw(Reg(Param, 0, 4, NoType)) == 0
  {
    hide LE, FromLE, Decode, Signed;
    var bs := StartStub(arch, stub, main_, exit_);
    match arch {
      case X86_64 =>
        StubBytes(stub, main_, exit_);
        X86RoundTrip.StreamRoundTrip(StubCode(stub, main_, exit_));
      case AArch64 =>
        BLWord((main_ - stub) / 4);
        BLWord((exit_ - (stub + 4)) / 4);
        WordBack(EncBL(stub, main_));
        WordBack(EncBL(stub + 4, exit_));
        assert bs[0..4] == LE(EncBL(stub, main_), 4) && bs[4..8] == LE(EncBL(stub + 4, exit_), 4);
    }
  }

  lemma MoveBytes()
    ensures X86Instr.Encode(X86Instr.RR(0x89, 4, X86No(Reg(RetReg, 0, 4, NoType)), X86No(Reg(Param, 0, 4, NoType)))) == [0x89, 0xc7]
  {
    var i := X86Instr.RR(0x89, 4, 0, 7);
    assert X86Instr.Parse(i) == X86Instr.Parts(4, 0, 0, 7, false, 0x89, [0xc7]);
    assert X86Instr.Prefix66(4) + X86Instr.RexBytes(false, false, false, false, false) == [];
  }

  lemma CallBytes(rel: int)
    ensures X86Instr.Encode(X86Instr.Call(rel)) == [0xe8] + LE(rel, 4)
  {
    assert X86Instr.Prefix66(4) + X86Instr.RexBytes(false, false, false, false, false) == [];
  }

  lemma StubBytes(stub: int, main_: int, exit_: int)
    ensures X86Instr.EncodeAll(StubCode(stub, main_, exit_)) == StartStub(X86_64, stub, main_, exit_)
  {
    hide LE, X86Instr.Encode, X86No;
    var code := StubCode(stub, main_, exit_);
    assert code[1..] == [code[1], code[2]] && [code[1], code[2]][1..] == [code[2]] && [code[2]][1..] == [];
    CallBytes(main_ - (stub + 5));
    MoveBytes();
    CallBytes(exit_ - (stub + 12));
    assert X86Instr.EncodeAll([code[2]]) == X86Instr.Encode(code[2]);
    assert X86Instr.EncodeAll([code[1], code[2]]) == X86Instr.Encode(code[1]) + X86Instr.Encode(code[2]);
    assert X86Instr.EncodeAll(code) == X86Instr.Encode(code[0]) + (X86Instr.Encode(code[1]) + X86Instr.Encode(code[2]));
  }
}
