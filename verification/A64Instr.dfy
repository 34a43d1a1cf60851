// A64 instruction words: the part of the base instruction set that the backend emits, as
// laid out in section C4.1 of the Arm Architecture Reference Manual.
module A64Instr {
  import opened Words
  import opened TypeSys

  type RegNo = x: int | 0 <= x < 32

  datatype Wide = MovN | MovZ | MovK
  datatype BitKind = Sbfm | Bfm | Ubfm
  datatype Mode = PostIndex | Offset | PreIndex

  datatype Instr =
    | MoveWide(x: bool, kind: Wide, hw: nat, imm16: nat, rd: RegNo)
    | AddSubImm(x: bool, sub: bool, flags: bool, lsl12: bool, imm12: nat, rn: RegNo, rd: RegNo)
    | AddSubReg(x: bool, sub: bool, flags: bool, rm: RegNo, lsl: nat, rn: RegNo, rd: RegNo)
    | AddSubExt(x: bool, sub: bool, flags: bool, rm: RegNo, option: nat, imm3: nat, rn: RegNo, rd: RegNo)
    | AndImm(x: bool, n: nat, immr: nat, imms: nat, rn: RegNo, rd: RegNo)
    | OrrReg(x: bool, rm: RegNo, rn: RegNo, rd: RegNo)
    | Bitfield(x: bool, bits: BitKind, immr: nat, imms: nat, rn: RegNo, rd: RegNo)
    | Csinc(x: bool, rm: RegNo, cond: nat, rn: RegNo, rd: RegNo)
    | LdStScaled(size: nat, opc: nat, imm12: nat, rn: RegNo, rt: RegNo)
    | LdStOff(size: nat, opc: nat, mode: Mode, imm9: int, rn: RegNo, rt: RegNo)
    | LdStReg(size: nat, opc: nat, rm: RegNo, option: nat, scaled: bool, rn: RegNo, rt: RegNo)
    | Pair(load: bool, mode: Mode, imm7: int, rt2: RegNo, rn: RegNo, rt: RegNo)
    | Branch(link: bool, imm26: int)
    | BranchCond(cond: nat, imm19: int)
    | Adr(rd: RegNo, imm21: int)
    | Ret

  predicate WellFormed(i: Instr) {
    match i
    case MoveWide(x, _, hw, imm16, _) => imm16 < P16 && hw < (if x then 4 else 2)
    case AddSubImm(_, _, _, _, imm12, _, _) => imm12 < 4096
    case AddSubReg(x, _, _, _, lsl, _, _) => lsl < (if x then 64 else 32)
    case AddSubExt(_, _, _, _, option, imm3, _, _) => option < 8 && imm3 <= 4
    case AndImm(x, n, immr, imms, _, _) => n < 2 && immr < 64 && imms < 64 && (n == 1 ==> x)
    case Bitfield(x, _, immr, imms, _, _) => immr < (if x then 64 else 32) && imms < (if x then 64 else 32)
    case Csinc(_, _, cond, _, _) => cond < 16
    case LdStScaled(size, opc, imm12, _, _) => size < 4 && opc < 4 && imm12 < 4096
    case LdStOff(size, opc, _, imm9, _, _) => size < 4 && opc < 4 && -256 <= imm9 < 256
    case LdStReg(size, opc, _, option, _, _, _) => size < 4 && opc < 4 && option < 8
    case Pair(_, _, imm7, _, _, _) => -64 <= imm7 < 64
    case Branch(_, imm26) => -0x200_0000 <= imm26 < 0x200_0000
    case BranchCond(cond, imm19) => cond < 16 && -0x4_0000 <= imm19 < 0x4_0000
    case Adr(_, imm21) => -0x10_0000 <= imm21 < 0x10_0000
    case _ => true
  }

  /** Field a of modulus m below the fields of rest. */
  function Join(a: nat, m: nat, rest: nat): nat { a + m * rest }

  function Flag(b: bool): nat { if b then 1 else 0 }

  /** Bits 31..29, 28..24 and 23..0 of an instruction word. */
  datatype Split = Split(top: nat, key: nat, lo: nat)

  function Word(s: Split): nat { Join(s.lo, 0x100_0000, Join(s.key, 32, s.top)) }

  function Parts(w: nat): Split { Split(w / 0x100_0000 / 32, w / 0x100_0000 % 32, w % 0x100_0000) }

  function ModeNo(m: Mode): nat { match m case PostIndex => 1 case Offset => 2 case PreIndex => 3 }
  function Index9(m: Mode): nat { match m case PostIndex => 1 case Offset => 0 case PreIndex => 3 }

  /** Rd, Rn and what is above them. */
  function DN(d: RegNo, n: RegNo, rest: nat): int { Join(d, 32, Join(n, 32, rest)) }

  function Layout(i: Instr): Split {
    match i
    case MoveWide(x, kind, hw, imm16, rd) =>
      Split(4 * Flag(x) + (match kind case MovN => 0 case MovZ => 2 case MovK => 3), 18,
        Join(rd, 32, Join(imm16, P16, Join(hw, 4, 1))))
    case AddSubImm(x, sub, flags, lsl12, imm12, rn, rd) =>
      Split(4 * Flag(x) + 2 * Flag(sub) + Flag(flags), 17, DN(rd, rn, Join(imm12, 4096, Flag(lsl12))))
    case AddSubReg(x, sub, flags, rm, lsl, rn, rd) =>
      Split(4 * Flag(x) + 2 * Flag(sub) + Flag(flags), 11, DN(rd, rn, Join(lsl, 64, Join(rm, 32, 0))))
    case AddSubExt(x, sub, flags, rm, option, imm3, rn, rd) =>
      Split(4 * Flag(x) + 2 * Flag(sub) + Flag(flags), 11, DN(rd, rn, Join(Join(imm3, 8, option), 64, Join(rm, 32, 1))))
    case AndImm(x, n, immr, imms, rn, rd) =>
      Split(4 * Flag(x), 18, DN(rd, rn, Join(imms, 64, Join(immr, 64, n))))
    case OrrReg(x, rm, rn, rd) =>
      Split(4 * Flag(x) + 1, 10, DN(rd, rn, Join(0, 64, Join(rm, 32, 0))))
    case Bitfield(x, bits, immr, imms, rn, rd) =>
      Split(4 * Flag(x) + (match bits case Sbfm => 0 case Bfm => 1 case Ubfm => 2), 19,
        DN(rd, rn, Join(imms, 64, Join(immr, 64, Flag(x)))))
    case Csinc(x, rm, cond, rn, rd) =>
      Split(4 * Flag(x), 26, DN(rd, rn, Join(Join(1, 4, cond), 64, Join(rm, 32, 4))))
    case LdStScaled(size, opc, imm12, rn, rt) =>
      Split(2 * size + 1, 25, DN(rt, rn, Join(imm12, 4096, opc)))
    case LdStOff(size, opc, mode, imm9, rn, rt) =>
      Split(2 * size + 1, 24, DN(rt, rn, Join(Index9(mode), 4, Join(imm9 % 512, 512, 2 * opc))))
    case LdStReg(size, opc, rm, option, scaled, rn, rt) =>
      Split(2 * size + 1, 24, DN(rt, rn, Join(2, 4, Join(Join(Flag(scaled), 2, Join(option, 8, rm)), 512, 2 * opc + 1))))
    case Pair(load, mode, imm7, rt2, rn, rt) =>
      Split(5, 8 + ModeNo(mode) / 2, DN(rt, rn, Join(rt2, 32, Join(imm7 % 128, 128, Join(Flag(load), 2, ModeNo(mode) % 2)))))
    case Branch(link, imm26) =>
      var u := imm26 % 0x400_0000;
      Split(4 * Flag(link), 20 + u / 0x100_0000, u % 0x100_0000)
    case BranchCond(cond, imm19) => Split(2, 20, Join(cond, 32, imm19 % 0x8_0000))
    case Adr(rd, imm21) => Split(imm21 % 4, 16, Join(rd, 32, imm21 / 4 % 0x8_0000))
    case Ret => Split(6, 22, 0x5f03c0)
  }

  function Encode(i: Instr): nat { Word(Layout(i)) }

  // ---- Decoding ----

  function SignExt(u: nat, m: nat): int { if u < m / 2 then u else u - m }

  function DecodeParts(p: Split): Option<Instr> {
    var (top, lo) := (p.top, p.lo);
    var (x, d, n, rest) := (top / 4 == 1, lo % 32, lo / 32 % 32, lo / 32 / 32);
    match p.key
    case 18 => if lo >= 0x80_0000 then DecodeMoveWide(top, lo) else DecodeAnd(top, d, n, rest)
    case 17 =>
      if rest / 4096 < 2 then Some(AddSubImm(x, top / 2 % 2 == 1, top % 2 == 1, rest / 4096 == 1, rest % 4096, n, d)) else None
    case 11 => DecodeAddSub(x, top / 2 % 2 == 1, top % 2 == 1, rest, n, d)
    case 10 =>
      if top % 4 == 1 && rest % 64 == 0 && rest / 64 / 32 == 0 then Some(OrrReg(x, rest / 64 % 32, n, d)) else None
    case 19 => DecodeBitfield(top, d, n, rest)
    case 26 =>
      if top % 4 == 0 && rest % 4 == 1 && rest / 64 / 32 == 4
        then Some(Csinc(x, rest / 64 % 32, rest % 64 / 4, n, d)) else None
    case 25 => if top % 2 == 1 then Some(LdStScaled(top / 2, rest / 4096, rest % 4096, n, d)) else None
    case 24 => if top % 2 == 1 then DecodeLdSt(top / 2, rest, n, d) else None
    case 8 => if top == 5 then DecodePair(false, d, n, rest) else None
    case 9 => if top == 5 then DecodePair(true, d, n, rest) else None
    case 16 => if top < 4 then Some(Adr(d, SignExt(4 * (lo / 32) + top, 0x20_0000))) else None
    case _ =>
      if top == 2 && p.key == 20 then
        if lo % 32 < 16 then Some(BranchCond(d, SignExt(lo / 32, 0x8_0000))) else None
      else if p == Split(6, 22, 0x5f03c0) then Some(Ret)
      else if 20 <= p.key < 24 && top % 4 == 0 then
        Some(Branch(top == 4, SignExt((p.key - 20) * 0x100_0000 + lo, 0x400_0000)))
      else None
  }

  function DecodeMoveWide(top: nat, lo: nat): Option<Instr> {
    var (d, imm16, hw) := (lo % 32, lo / 32 % P16, lo / 32 / P16 % 4);
    if (top < 4 && hw >= 2) || top % 4 == 1 then None
    else Some(MoveWide(top / 4 == 1, if top % 4 == 0 then MovN else if top % 4 == 2 then MovZ else MovK, hw, imm16, d))
  }

  function DecodeAnd(top: nat, d: RegNo, n: RegNo, rest: nat): Option<Instr> {
    var (x, imms, immr, nb) := (top / 4 == 1, rest % 64, rest / 64 % 64, rest / 64 / 64);
    if top % 4 == 0 && nb < 2 && (nb == 1 ==> x) then Some(AndImm(x, nb, immr, imms, n, d)) else None
  }

  function DecodeAddSub(x: bool, sub: bool, flags: bool, rest: nat, n: RegNo, d: RegNo): Option<Instr> {
    var (six, rm, hi) := (rest % 64, rest / 64 % 32, rest / 64 / 32);
    if hi == 0 && (x || six < 32) then Some(AddSubReg(x, sub, flags, rm, six, n, d))
    else if hi == 1 && six % 8 <= 4 then Some(AddSubExt(x, sub, flags, rm, six / 8, six % 8, n, d))
    else None
  }

  function DecodeBitfield(top: nat, d: RegNo, n: RegNo, rest: nat): Option<Instr> {
    var (x, imms, immr, nb) := (top / 4 == 1, rest % 64, rest / 64 % 64, rest / 64 / 64);
    if top % 4 < 3 && nb == Flag(x) && (x || (imms < 32 && immr < 32))
    then Some(Bitfield(x, if top % 4 == 0 then Sbfm else if top % 4 == 1 then Bfm else Ubfm, immr, imms, n, d)) else None
  }

  function DecodeLdSt(size: nat, rest: nat, n: RegNo, t: RegNo): Option<Instr> {
    var (idx, nine, hi) := (rest % 4, rest / 4 % 512, rest / 4 / 512);
    if hi % 2 == 0 then
      if idx == 2 then None
      else Some(LdStOff(size, hi / 2, if idx == 0 then Offset else if idx == 1 then PostIndex else PreIndex, SignExt(nine, 512), n, t))
    else if idx == 2 then Some(LdStReg(size, hi / 2, nine / 2 / 8, nine / 2 % 8, nine % 2 == 1, n, t))
    else None
  }

  function DecodePair(high: bool, t: RegNo, n: RegNo, rest: nat): Option<Instr> {
    var (t2, seven, hi) := (rest % 32, rest / 32 % 128, rest / 32 / 128);
    if !high && hi / 2 == 0 then None
    else Some(Pair(hi % 2 == 1, if !high then PostIndex else if hi / 2 == 0 then Offset else PreIndex, SignExt(seven, 128), t2, n, t))
  }

  function Decode(w: U32): Option<Instr> { DecodeParts(Parts(w)) }

  // ---- Round trip ----

  predicate InRange(p: Split) { p.top < 8 && p.key < 32 && p.lo < 0x100_0000 }

  lemma PartsOfWord(p: Split)
    requires InRange(p)
    ensures Word(p) < P32 && Parts(Word(p)) == p
  {
  }

  lemma WordOfParts(w: U32)
    ensures InRange(Parts(w)) && Word(Parts(w)) == w
  {
  }

  lemma LayoutInRange(i: Instr)
    requires WellFormed(i)
    ensures InRange(Layout(i))
  {
  }

  lemma JoinParts(a: nat, m: nat, rest: nat)
    requires a < m
    ensures Join(a, m, rest) % m == a && Join(a, m, rest) / m == rest && Join(a, m, rest) < m * (rest + 1)
  {
    DivModUnique(Join(a, m, rest), m, rest, a);
    assert m * (rest + 1) == m * rest + m;
  }

  lemma DNParts(d: RegNo, n: RegNo, rest: nat)
    ensures var lo := DN(d, n, rest); lo % 32 == d && lo / 32 % 32 == n && lo / 32 / 32 == rest
  {
    JoinParts(d, 32, Join(n, 32, rest));
    JoinParts(n, 32, rest);
  }

  lemma MoveWideDecodes(i: Instr)
    requires WellFormed(i) && i.MoveWide?
    ensures DecodeParts(Layout(i)) == Some(i)
  {
  }

  lemma AddSubImmDecodes(i: Instr)
    requires WellFormed(i) && i.AddSubImm?
    ensures DecodeParts(Layout(i)) == Some(i)
  {
    hide Join, DN;
    JoinParts(i.imm12, 4096, Flag(i.lsl12));
    DNParts(i.rd, i.rn, Join(i.imm12, 4096, Flag(i.lsl12)));
  }

  lemma AddSubRegDecodes(i: Instr)
    requires WellFormed(i) && i.AddSubReg?
    ensures DecodeParts(Layout(i)) == Some(i)
  {
    hide Join, DN;
    JoinParts(i.lsl, 64, Join(i.rm, 32, 0));
    JoinParts(i.rm, 32, 0);
    DNParts(i.rd, i.rn, Join(i.lsl, 64, Join(i.rm, 32, 0)));
  }

  lemma AddSubExtDecodes(i: Instr)
    requires WellFormed(i) && i.AddSubExt?
    ensures DecodeParts(Layout(i)) == Some(i)
  {
    hide Join, DN;
    var six := Join(i.imm3, 8, i.option);
    JoinParts(i.imm3, 8, i.option);
    JoinParts(six, 64, Join(i.rm, 32, 1));
    JoinParts(i.rm, 32, 1);
    DNParts(i.rd, i.rn, Join(six, 64, Join(i.rm, 32, 1)));
  }

  lemma AndBelowMoveWide(i: Instr)
    requires WellFormed(i) && i.AndImm?
    ensures Layout(i).lo < 0x80_0000
  {
  }

  lemma AndImmDecodes(i: Instr)
    requires WellFormed(i) && i.AndImm?
    ensures DecodeParts(Layout(i)) == Some(i)
  {
    hide Join, DN;
    JoinParts(i.imms, 64, Join(i.immr, 64, i.n));
    JoinParts(i.immr, 64, i.n);
    DNParts(i.rd, i.rn, Join(i.imms, 64, Join(i.immr, 64, i.n)));
    AndBelowMoveWide(i);
  }

  lemma OrrRegDecodes(i: Instr)
    requires WellFormed(i) && i.OrrReg?
    ensures DecodeParts(Layout(i)) == Some(i)
  {
    hide Join, DN;
    JoinParts(0, 64, Join(i.rm, 32, 0));
    JoinParts(i.rm, 32, 0);
    DNParts(i.rd, i.rn, Join(0, 64, Join(i.rm, 32, 0)));
  }

  lemma BitfieldDecodes(i: Instr)
    requires WellFormed(i) && i.Bitfield?
    ensures DecodeParts(Layout(i)) == Some(i)
  {
    hide Join, DN;
    JoinParts(i.imms, 64, Join(i.immr, 64, Flag(i.x)));
    JoinParts(i.immr, 64, Flag(i.x));
    DNParts(i.rd, i.rn, Join(i.imms, 64, Join(i.immr, 64, Flag(i.x))));
  }

  lemma CsincDecodes(i: Instr)
    requires WellFormed(i) && i.Csinc?
    ensures DecodeParts(Layout(i)) == Some(i)
  {
    hide Join, DN;
    var six := Join(1, 4, i.cond);
    JoinParts(1, 4, i.cond);
    JoinParts(six, 64, Join(i.rm, 32, 4));
    JoinParts(i.rm, 32, 4);
    DNParts(i.rd, i.rn, Join(six, 64, Join(i.rm, 32, 4)));
    assert six % 4 == 1 && six / 4 == i.cond;
  }

  lemma LdStScaledDecodes(i: Instr)
    requires WellFormed(i) && i.LdStScaled?
    ensures DecodeParts(Layout(i)) == Some(i)
  {
    hide Join, DN;
    JoinParts(i.imm12, 4096, i.opc);
    DNParts(i.rt, i.rn, Join(i.imm12, 4096, i.opc));
  }

  lemma LdStOffDecodes(i: Instr)
    requires WellFormed(i) && i.LdStOff?
    ensures DecodeParts(Layout(i)) == Some(i)
  {
    hide Join, DN;
    var nine := i.imm9 % 512;
    JoinParts(Index9(i.mode), 4, Join(nine, 512, 2 * i.opc));
    JoinParts(nine, 512, 2 * i.opc);
    DNParts(i.rt, i.rn, Join(Index9(i.mode), 4, Join(nine, 512, 2 * i.opc)));
  }

  lemma LdStRegDecodes(i: Instr)
    requires WellFormed(i) && i.LdStReg?
    ensures DecodeParts(Layout(i)) == Some(i)
  {
    hide Join, DN;
    var seven := Join(i.option, 8, i.rm);
    var nine := Join(Flag(i.scaled), 2, seven);
    JoinParts(i.option, 8, i.rm);
    JoinParts(Flag(i.scaled), 2, seven);
    JoinParts(2, 4, Join(nine, 512, 2 * i.opc + 1));
    JoinParts(nine, 512, 2 * i.opc + 1);
    DNParts(i.rt, i.rn, Join(2, 4, Join(nine, 512, 2 * i.opc + 1)));
  }

  lemma PairDecodes(i: Instr)
    requires WellFormed(i) && i.Pair?
    ensures DecodeParts(Layout(i)) == Some(i)
  {
    hide Join, DN;
    var seven := i.imm7 % 128;
    var last := Join(Flag(i.load), 2, ModeNo(i.mode) % 2);
    JoinParts(i.rt2, 32, Join(seven, 128, last));
    JoinParts(seven, 128, last);
    JoinParts(Flag(i.load), 2, ModeNo(i.mode) % 2);
    DNParts(i.rt, i.rn, Join(i.rt2, 32, Join(seven, 128, last)));
  }

  lemma BranchDecodes(i: Instr)
    requires WellFormed(i) && i.Branch?
    ensures DecodeParts(Layout(i)) == Some(i)
  {
  }

  lemma BranchCondDecodes(i: Instr)
    requires WellFormed(i) && i.BranchCond?
    ensures DecodeParts(Layout(i)) == Some(i)
  {
    hide Join, DN;
    JoinParts(i.cond, 32, i.imm19 % 0x8_0000);
  }

  lemma AdrDecodes(i: Instr)
    requires WellFormed(i) && i.Adr?
    ensures DecodeParts(Layout(i)) == Some(i)
  {
    hide Join, DN;
    JoinParts(i.rd, 32, i.imm21 / 4 % 0x8_0000);
    assert i.imm21 % 0x20_0000 == 4 * (i.imm21 / 4 % 0x8_0000) + i.imm21 % 4;
  }

  lemma RetDecodes(i: Instr)
    requires WellFormed(i) && i.Ret?
    ensures DecodeParts(Layout(i)) == Some(i)
  {
  }

  lemma DecodeLayout(i: Instr)
    requires WellFormed(i)
    ensures DecodeParts(Layout(i)) == Some(i)
  {
    hide Layout, DecodeParts, WellFormed;
    match i
    case MoveWide(_, _, _, _, _) => MoveWideDecodes(i);
    case AddSubImm(_, _, _, _, _, _, _) => AddSubImmDecodes(i);
    case AddSubReg(_, _, _, _, _, _, _) => AddSubRegDecodes(i);
    case AddSubExt(_, _, _, _, _, _, _, _) => AddSubExtDecodes(i);
    case AndImm(_, _, _, _, _, _) => AndImmDecodes(i);
    case OrrReg(_, _, _, _) => OrrRegDecodes(i);
    case Bitfield(_, _, _, _, _, _) => BitfieldDecodes(i);
    case Csinc(_, _, _, _, _) => CsincDecodes(i);
    case LdStScaled(_, _, _, _, _) => LdStScaledDecodes(i);
    case LdStOff(_, _, _, _, _, _) => LdStOffDecodes(i);
    case LdStReg(_, _, _, _, _, _, _) => LdStRegDecodes(i);
    case Pair(_, _, _, _, _, _) => PairDecodes(i);
    case Branch(_, _) => BranchDecodes(i);
    case BranchCond(_, _) => BranchCondDecodes(i);
    case Adr(_, _) => AdrDecodes(i);
    case Ret => RetDecodes(i);
  }

  lemma SplitJoin(v: nat, m: nat)
    requires m > 0
    ensures Join(v % m, m, v / m) == v
  {
  }

  lemma SignExtBack(u: nat, m: nat)
    requires u < m && m % 2 == 0
    ensures SignExt(u, m) % m == u && -(m / 2) <= SignExt(u, m) < m / 2
  {
    if u >= m / 2 {
      DivModUnique(u - m, m, -1, u);
    } else {
      DivModUnique(u, m, 0, u);
    }
  }

  lemma SplitDN(lo: nat)
    ensures DN(lo % 32, lo / 32 % 32, lo / 32 / 32) == lo
  {
    SplitJoin(lo, 32);
    SplitJoin(lo / 32, 32);
  }

  lemma LayoutOfWideOrAnd(p: Split)
    requires InRange(p) && DecodeParts(p).Some? && p.key == 18
    ensures WellFormed(DecodeParts(p).value) && Layout(DecodeParts(p).value) == p
  {
    hide Join, DN;
    if p.lo >= 0x80_0000 {
      SplitJoin(p.lo, 32);
      SplitJoin(p.lo / 32, P16);
      SplitJoin(p.lo / 32 / P16, 4);
      assert p.lo / 32 / P16 / 4 == 1;
    } else {
      SplitDN(p.lo);
      SplitJoin(p.lo / 32 / 32, 64);
      SplitJoin(p.lo / 32 / 32 / 64, 64);
    }
  }

  lemma LayoutOfAddSubImm(p: Split)
    requires InRange(p) && DecodeParts(p).Some? && p.key == 17
    ensures WellFormed(DecodeParts(p).value) && Layout(DecodeParts(p).value) == p
  {
    hide Join, DN;
    SplitDN(p.lo);
    SplitJoin(p.lo / 32 / 32, 4096);
  }

  lemma LayoutOfAddSub(p: Split)
    requires InRange(p) && DecodeParts(p).Some? && p.key == 11
    ensures WellFormed(DecodeParts(p).value) && Layout(DecodeParts(p).value) == p
  {
    hide Join, DN;
    var rest := p.lo / 32 / 32;
    SplitDN(p.lo);
    SplitJoin(rest, 64);
    SplitJoin(rest / 64, 32);
    SplitJoin(rest % 64, 8);
  }

  lemma LayoutOfLogical(p: Split)
    requires InRange(p) && DecodeParts(p).Some? && (p.key == 10 || p.key == 26)
    ensures WellFormed(DecodeParts(p).value) && Layout(DecodeParts(p).value) == p
  {
    hide Join, DN;
    var rest := p.lo / 32 / 32;
    SplitDN(p.lo);
    SplitJoin(rest, 64);
    SplitJoin(rest / 64, 32);
    SplitJoin(rest % 64, 4);
    assert rest % 64 % 4 == rest % 4;
  }

  lemma LayoutOfBitfield(p: Split)
    requires InRange(p) && DecodeParts(p).Some? && p.key == 19
    ensures WellFormed(DecodeParts(p).value) && Layout(DecodeParts(p).value) == p
  {
    hide Join, DN;
    var rest := p.lo / 32 / 32;
    SplitDN(p.lo);
    SplitJoin(rest, 64);
    SplitJoin(rest / 64, 64);
  }

  lemma LayoutOfScaled(p: Split)
    requires InRange(p) && DecodeParts(p).Some? && p.key == 25
    ensures WellFormed(DecodeParts(p).value) && Layout(DecodeParts(p).value) == p
  {
    hide Join, DN;
    SplitDN(p.lo);
    SplitJoin(p.lo / 32 / 32, 4096);
  }

  lemma LayoutOfLdSt(p: Split)
    requires InRange(p) && DecodeParts(p).Some? && p.key == 24
    ensures WellFormed(DecodeParts(p).value) && Layout(DecodeParts(p).value) == p
  {
    hide Join, DN;
    var rest := p.lo / 32 / 32;
    var nine := rest / 4 % 512;
    SplitDN(p.lo);
    SplitJoin(rest, 4);
    SplitJoin(rest / 4, 512);
    SplitJoin(nine, 2);
    SplitJoin(nine / 2, 8);
    SignExtBack(nine, 512);
  }

  lemma LayoutOfPair(p: Split)
    requires InRange(p) && DecodeParts(p).Some? && (p.key == 8 || p.key == 9)
    ensures WellFormed(DecodeParts(p).value) && Layout(DecodeParts(p).value) == p
  {
    hide Join, DN;
    var rest := p.lo / 32 / 32;
    SplitDN(p.lo);
    SplitJoin(rest, 32);
    SplitJoin(rest / 32, 128);
    SplitJoin(rest / 32 / 128, 2);
    assert SignExt(rest / 32 % 128, 128) % 128 == rest / 32 % 128;
  }

  lemma LayoutOfCondBranch(p: Split)
    requires InRange(p) && DecodeParts(p).Some? && p.key == 20 && p.top == 2
    ensures WellFormed(DecodeParts(p).value) && Layout(DecodeParts(p).value) == p
  {
    hide Join, DN;
    SplitJoin(p.lo, 32);
  }

  lemma AdrFields(high: nat, low: nat)
    requires high < 0x8_0000 && low < 4
    ensures var v := SignExt(4 * high + low, 0x20_0000);
      v % 4 == low && v / 4 % 0x8_0000 == high && -0x10_0000 <= v < 0x10_0000
  {
    var u := 4 * high + low;
    if u < 0x10_0000 {
      DivModUnique(u, 4, high, low);
    } else {
      DivModUnique(u - 0x20_0000, 4, high - 0x8_0000, low);
      DivModUnique(high - 0x8_0000, 0x8_0000, -1, high);
    }
  }

  lemma LayoutOfAdr(p: Split)
    requires InRange(p) && DecodeParts(p).Some? && p.key == 16
    ensures WellFormed(DecodeParts(p).value) && Layout(DecodeParts(p).value) == p
  {
    hide Join, DN;
    SplitJoin(p.lo, 32);
    AdrFields(p.lo / 32, p.top);
  }

  lemma LayoutOfBranch(p: Split)
    requires InRange(p) && DecodeParts(p).Some? && p.key !in {18, 17, 11, 10, 26, 19, 25, 24, 8, 9, 16}
    requires !(p.key == 20 && p.top == 2)
    ensures WellFormed(DecodeParts(p).value) && Layout(DecodeParts(p).value) == p
  {
    if p != Split(6, 22, 0x5f03c0) {
      BranchField((p.key - 20) * 0x100_0000 + p.lo);
    }
  }

  lemma BranchField(u: nat)
    requires u < 0x400_0000
    ensures SignExt(u, 0x400_0000) % 0x400_0000 == u
  {
  }

  lemma LayoutDecode(p: Split)
    requires InRange(p) && DecodeParts(p).Some?
    ensures WellFormed(DecodeParts(p).value) && Layout(DecodeParts(p).value) == p
  {
    hide DecodeParts, WellFormed, Layout;
    match p.key
    case 18 => LayoutOfWideOrAnd(p);
    case 17 => LayoutOfAddSubImm(p);
    case 11 => LayoutOfAddSub(p);
    case 10 => LayoutOfLogical(p);
    case 26 => LayoutOfLogical(p);
    case 19 => LayoutOfBitfield(p);
    case 25 => LayoutOfScaled(p);
    case 24 => LayoutOfLdSt(p);
    case 8 => LayoutOfPair(p);
    case 9 => LayoutOfPair(p);
    case 16 => LayoutOfAdr(p);
    case _ =>
      if p.key == 20 && p.top == 2 {
        LayoutOfCondBranch(p);
      } else {
        LayoutOfBranch(p);
      }
  }

  /** Encoding and decoding are inverse: a word decodes to an instruction exactly when it is
      the encoding of that instruction. */
  lemma RoundTrip(i: Instr, w: U32)
    ensures WellFormed(i) ==> Encode(i) < P32 && Decode(Encode(i)) == Some(i)
    ensures Decode(w) == Some(i) <==> WellFormed(i) && Encode(i) == w
  {
    hide Layout, DecodeParts, WellFormed, Word, Parts;
    if WellFormed(i) {
      LayoutInRange(i);
      PartsOfWord(Layout(i));
      DecodeLayout(i);
    }
    if Decode(w) == Some(i) {
      WordOfParts(w);
      LayoutDecode(Parts(w));
    }
  }
}
