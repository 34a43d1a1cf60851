// What the straight-line A64 instructions do, after section C6.2 of the Arm Architecture
// Reference Manual.
module A64Machine {
  import opened Words
  import opened Memory
  import opened Bits
  import opened A64Instr

  type Regs = r: seq<U64> | |r| == 31 witness seq(31, i => 0)

  datatype Flags = Flags(n: bool, z: bool, c: bool, v: bool)

  datatype State = State(regs: Regs, sp: U64, flags: Flags, mem: Mem)

  /** Width of a register operand, in bytes. */
  function Bytes(x: bool): nat { if x then 8 else 4 }
  function Width(x: bool): nat { if x then 64 else 32 }

  /** Register 31 is zero... */
  ghost function Read(s: State, x: bool, r: RegNo): nat {
    if r == 31 then 0 else Low(Bytes(x), s.regs[r])
  }

  /** ...or, where the instruction says so, the stack pointer. */
  ghost function ReadSP(s: State, x: bool, r: RegNo): nat {
    if r == 31 then Low(Bytes(x), s.sp) else Read(s, x, r)
  }

  ghost function Write(s: State, x: bool, r: RegNo, v: int): State {
    if r == 31 then s else s.(regs := s.regs[r := Low(Bytes(x), v)])
  }

  ghost function WriteSP(s: State, x: bool, r: RegNo, v: int): State {
    if r == 31 then s.(sp := Low(Bytes(x), v)) else Write(s, x, r, v)
  }

  // ---- Arithmetic ----

  /** Flags of a + b (or a - b) at width w, for a and b below 2^w. */
  function AddSubFlags(w: nat, sub: bool, a: nat, b: nat): Flags
  {
    var r := Low(w, if sub then a - b else a + b);
    var exact := if sub then Signed(w, a) - Signed(w, b) else Signed(w, a) + Signed(w, b);
    Flags(Signed(w, r) < 0, r == 0, if sub then a >= b else a + b >= Modulus(w), Signed(w, r) != exact)
  }

  ghost function AddSub(s: State, x: bool, sub: bool, flags: bool, a: nat, b: nat): (int, State) {
    (if sub then a - b else a + b, if flags then s.(flags := AddSubFlags(Bytes(x), sub, a, b)) else s)
  }

  /** Extension by option: bit 2 is "signed", the rest selects the size. */
  function ExtSize(option: nat): nat {
    if option % 4 == 0 then 1 else if option % 4 == 1 then 2 else if option % 4 == 2 then 4 else 8
  }

  function Extended(option: nat, v: nat): int {
    if option >= 4 then Signed(ExtSize(option), v) else Low(ExtSize(option), v)
  }

  // ---- Moves ----

  function Lane(v: nat, hw: nat): (l: nat)
    ensures l < P16
  {
    if hw == 0 then v % P16 else if hw == 1 then v / P16 % P16 else if hw == 2 then v / P32 % P16 else v / P48 % P16
  }

  const P48: int := 0x1_0000_0000_0000

  function LaneUnit(hw: nat): nat { if hw == 0 then 1 else if hw == 1 then P16 else if hw == 2 then P32 else P48 }

  function Moved(kind: Wide, hw: nat, imm16: nat, old_: nat): int {
    match kind
    case MovZ => imm16 * LaneUnit(hw)
    case MovN => -1 - imm16 * LaneUnit(hw)
    case MovK => old_ + (imm16 - Lane(old_, hw)) * LaneUnit(hw)
  }

  // ---- Bit fields ----

  /** Bit k of a bit-field move: the source is rotated right by immr, wmask selects the bits
      that come from it and tmask the bits below the top of the field. */
  predicate BitfieldBit(kind: BitKind, d: nat, immr: nat, imms: nat, src: nat, dst: nat, k: nat)
    requires d > 0
  {
    var wmask := (k + immr) % d <= imms;
    var tmask := k <= (imms - immr) % d;
    var rotated := Bit(src, (k + immr) % d);
    match kind
    case Ubfm => tmask && wmask && rotated
    case Bfm => if tmask && wmask then rotated else Bit(dst, k)
    case Sbfm => if tmask then wmask && rotated else Bit(src, imms)
  }

  function BitfieldResult(kind: BitKind, d: nat, immr: nat, imms: nat, src: nat, dst: nat): nat
    requires d > 0
  {
    Num(seq(d, k requires 0 <= k => BitfieldBit(kind, d, immr, imms, src, dst, k)))
  }

  // ---- Conditions ----

  predicate BaseCond(cond: nat, f: Flags) {
    match cond / 2
    case 0 => f.z
    case 1 => f.c
    case 2 => f.n
    case 3 => f.v
    case 4 => f.c && !f.z
    case 5 => f.n == f.v
    case 6 => f.n == f.v && !f.z
    case _ => true
  }

  /** The odd conditions are the negations, except 15, which always holds. */
  predicate CondHolds(cond: nat, f: Flags) {
    if cond % 2 == 1 && cond != 15 then !BaseCond(cond, f) else BaseCond(cond, f)
  }

  // ---- Loads and stores ----

  function AccessSize(size: nat): nat { if size == 0 then 1 else if size == 1 then 2 else if size == 2 then 4 else 8 }

  ghost function Access(s: State, size: nat, opc: nat, a: int, rt: RegNo): State {
    var n := AccessSize(size);
    if opc == 0 then s.(mem := Store(s.mem, a, LE(Read(s, true, rt), n)))
    else if opc == 1 then Write(s, true, rt, FromLE(Load(s.mem, a, n)))
    else Write(s, opc == 2, rt, Signed(n, FromLE(Load(s.mem, a, n))))
  }

  ghost function AccessPair(s: State, load: bool, a: int, rt: RegNo, rt2: RegNo): State {
    if load then
      Write(Write(s, true, rt, FromLE(Load(s.mem, a, 8))), true, rt2, FromLE(Load(s.mem, a + 8, 8)))
    else
      s.(mem := Store(Store(s.mem, a, LE(Read(s, true, rt), 8)), a + 8, LE(Read(s, true, rt2), 8)))
  }

  function OffsetBefore(mode: Mode, imm: int): int { if mode == PostIndex then 0 else imm }
  ghost function WriteBack(s: State, mode: Mode, rn: RegNo, imm: int, base: int): State {
    if mode == Offset then s else WriteSP(s, true, rn, base + imm)
  }

  /** Instructions that fall through and whose effect the architecture defines. */
  predicate Straight(i: Instr) {
    WellFormed(i) &&
    match i
    case AndImm(x, n, immr, imms, _, _) => (n == 1 <==> x) && immr == 0 && imms < (if x then 63 else 31)
    case LdStScaled(size, opc, _, _, _) => opc < (if size == 3 then 2 else if size == 2 then 3 else 4)
    case LdStOff(size, opc, mode, _, rn, rt) =>
      opc < (if size == 3 then 2 else if size == 2 then 3 else 4) && (mode != Offset ==> rn != rt || rn == 31)
    case LdStReg(size, opc, _, option, _, _, _) => opc < (if size == 3 then 2 else if size == 2 then 3 else 4) && option == 3
    case Pair(load, mode, _, rt2, rn, rt) =>
      (load ==> rt != rt2) && (mode != Offset ==> rn == 31 || (rn != rt && rn != rt2))
    case Branch(_, _) => false
    case BranchCond(_, _) => false
    case Adr(_, _) => false
    case Ret => false
    case _ => true
  }

  ghost function Exec(i: Instr, s: State): State
    requires Straight(i)
  {
    match i
    case MoveWide(x, kind, hw, imm16, rd) => Write(s, x, rd, Moved(kind, hw, imm16, Read(s, x, rd)))
    case AddSubImm(x, sub, flags, lsl12, imm12, rn, rd) =>
      var (r, t) := AddSub(s, x, sub, flags, ReadSP(s, x, rn), if lsl12 then imm12 * 4096 else imm12);
      if flags then Write(t, x, rd, r) else WriteSP(t, x, rd, r)
    case AddSubReg(x, sub, flags, rm, lsl, rn, rd) =>
      var (r, t) := AddSub(s, x, sub, flags, Read(s, x, rn), Low(Bytes(x), Shl(Read(s, x, rm), lsl)));
      Write(t, x, rd, r)
    case AddSubExt(x, sub, flags, rm, option, imm3, rn, rd) =>
      var b := Low(Bytes(x), Shl(Extended(option, Read(s, true, rm)), imm3));
      var (r, t) := AddSub(s, x, sub, flags, ReadSP(s, x, rn), b);
      if flags then Write(t, x, rd, r) else WriteSP(t, x, rd, r)
    case AndImm(x, n, immr, imms, rn, rd) => WriteSP(s, x, rd, Read(s, x, rn) % Pow2(imms + 1))
    case OrrReg(x, rm, rn, rd) => Write(s, x, rd, BitOp(OrOp, Read(s, x, rn), Read(s, x, rm)))
    case Bitfield(x, bits, immr, imms, rn, rd) =>
      Write(s, x, rd, BitfieldResult(bits, Width(x), immr, imms, Read(s, x, rn), Read(s, x, rd)))
    case Csinc(x, rm, cond, rn, rd) =>
      Write(s, x, rd, if CondHolds(cond, s.flags) then Read(s, x, rn) else Read(s, x, rm) + 1)
    case LdStScaled(size, opc, imm12, rn, rt) =>
      Access(s, size, opc, ReadSP(s, true, rn) + imm12 * AccessSize(size), rt)
    case LdStOff(size, opc, mode, imm9, rn, rt) =>
      var base := ReadSP(s, true, rn);
      WriteBack(Access(s, size, opc, base + OffsetBefore(mode, imm9), rt), mode, rn, imm9, base)
    case LdStReg(size, opc, rm, option, scaled, rn, rt) =>
      var off := Read(s, true, rm);
      Access(s, size, opc, ReadSP(s, true, rn) + (if scaled then off * AccessSize(size) else off), rt)
    case Pair(load, mode, imm7, rt2, rn, rt) =>
      var base := ReadSP(s, true, rn);
      WriteBack(AccessPair(s, load, base + OffsetBefore(mode, imm7 * 8), rt, rt2), mode, rn, imm7 * 8, base)
  }

  predicate StraightCode(code: seq<Instr>) {
    forall k :: 0 <= k < |code| ==> Straight(code[k])
  }

  ghost function Run(code: seq<Instr>, s: State): State
    requires StraightCode(code)
  {
    if code == [] then s else Run(code[1..], Exec(code[0], s))
  }

  lemma {:induction false} RunAppend(a: seq<Instr>, b: seq<Instr>, s: State)
    requires StraightCode(a) && StraightCode(b)
    ensures StraightCode(a + b) && Run(a + b, s) == Run(b, Run(a, s))
  {
    hide Straight, Exec;
    if a == [] {
      assert a + b == b;
    } else {
      RunAppend(a[1..], b, Exec(a[0], s));
      assert (a + b)[1..] == a[1..] + b;
    }
  }

  lemma Run1(i: Instr, s: State)
    requires Straight(i)
    ensures StraightCode([i]) && Run([i], s) == Exec(i, s)
  {
    hide Straight, Exec;
    assert [i][1..] == [];
  }

  lemma RunCons(i: Instr, rest: seq<Instr>, s: State)
    requires Straight(i) && StraightCode(rest)
    ensures StraightCode([i] + rest) && Run([i] + rest, s) == Run(rest, Exec(i, s))
  {
    hide Straight, Exec;
    RunAppend([i], rest, s);
    Run1(i, s);
  }
}
