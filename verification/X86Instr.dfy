// The x86-64 instruction forms that the byte emitter produces, their encoding, and
// an independent decoder (Intel SDM volume 2, sections 2.1 and 2.2.1).
module X86Instr {
  import opened Words

  // The encoder's names; the decoder and the machine spell their own numbers.

  const OP_ADD_RM_R := 0x01
  const OP_SUB_RM_R := 0x29
  const OP_XOR_RM_R := 0x31
  const OP_CMP_RM_R := 0x39
  const OP_MOV_RM_R := 0x89
  const OP_MOV_R_RM := 0x8b
  const OP_LEA := 0x8d

  const ALU_ADD := 0
  const ALU_SUB := 5
  const ALU_XOR := 6
  const ALU_CMP := 7

  const SH_SHR := 5

  type RegNo = r: int | 0 <= r < 16
  type Bits3 = d: int | 0 <= d < 8

  datatype Index = NoIndex | Scaled(reg: RegNo, scale: int)

  datatype Instr =
    | RR(op: Byte, sz: int, reg: RegNo, rm: RegNo)
    | Mem(op: Byte, sz: int, reg: RegNo, base: RegNo, index: Index, disp: int)
    | AluI(digit: Bits3, sz: int, rm: RegNo, imm: int)
    | ShiftI(digit: Bits3, sz: int, rm: RegNo, amount: int)
    | Neg(sz: int, rm: RegNo)
    | MovI(sz: int, rm: RegNo, imm: int)
    | MovSxI(rm: RegNo, imm: int)
    | MovMemI(sz: int, base: RegNo, disp: int, imm: int)
    | Movsxd(reg: RegNo, rm: RegNo)
    | Extend(signed: bool, dsz: int, ssz: int, reg: RegNo, rm: RegNo)
    | ImulI(reg: RegNo, imm: int)
    | Push(rm: RegNo)
    | Pop(rm: RegNo)
    | SetCC(cc: int, rm: RegNo)
    | LeaRip(sz: int, reg: RegNo, rel: int)
    | Jmp(rel: int)
    | Jcc(cc: int, rel: int)
    | Call(rel: int)
    | Ret

  // ---- Encoding ----

  function B(x: int): Byte { x % 256 }

  function Prefix66(sz: int): seq<Byte> { if sz == 2 then [0x66] else [] }

  function RexBytes(w: bool, r: bool, x: bool, b: bool, force: bool): seq<Byte> {
    if w || r || x || b || force
    then [0x40 + (if w then 8 else 0) + (if r then 4 else 0) + (if x then 2 else 0) + (if b then 1 else 0)]
    else []
  }

  function ModRM(mod: int, reg: RegNo, rm: RegNo): Byte
    requires 0 <= mod < 4
  {
    mod * 64 + (reg % 8) * 8 + rm % 8
  }

  /** A byte-sized operand in registers 4..7 needs a REX prefix to mean SPL, BPL, SIL or DIL. */
  predicate NeedsRex(sz: int, r: RegNo) { sz == 1 && 4 <= r <= 7 }

  function ByteOp(sz: int, op: Byte): Byte { if sz == 1 then op - op % 2 else op }

  function ChooseMod(disp: int, base: RegNo): (mod: int)
    ensures 0 <= mod < 3
  {
    if disp == 0 && base % 8 != 5 then 0 else if IsI8(disp) then 1 else 2
  }

  function DispBytes(disp: int, mod: int): seq<Byte> {
    if mod == 1 then [B(disp)] else if mod == 2 then LE(disp, 4) else []
  }

  function ScaleBits(scale: int): (s: int)
    ensures 0 <= s < 4
  {
    if scale == 8 then 3 else if scale == 4 then 2 else if scale == 2 then 1 else 0
  }

  function IndexReg(index: Index): RegNo { if index.Scaled? then index.reg else 0 }

  /** ModRM, SIB and displacement of a memory operand. */
  function MemOperand(reg: RegNo, base: RegNo, index: Index, disp: int): seq<Byte> {
    var mod := ChooseMod(disp, base);
    if index.Scaled? || base % 8 == 4 then
      var idx3 := if index.Scaled? then index.reg % 8 else 4;
      var scale := if index.Scaled? then ScaleBits(index.scale) else 0;
      [ModRM(mod, reg, 4), scale * 64 + idx3 * 8 + base % 8] + DispBytes(disp, mod)
    else
      [ModRM(mod, reg, base)] + DispBytes(disp, mod)
  }

  /** Prefix-determining fields, first opcode byte, and everything after it. */
  datatype Parts = Parts(sz: int, reg: RegNo, index: RegNo, base: RegNo, force: bool, op: Byte, tail: seq<Byte>)

  function Assemble(q: Parts): seq<Byte> {
    Prefix66(q.sz) + RexBytes(q.sz == 8, q.reg >= 8, q.index >= 8, q.base >= 8, q.force) + ([q.op] + q.tail)
  }

  function Parse(i: Instr): Parts {
    match i
    case RR(op, sz, reg, rm) =>
      Parts(sz, reg, 0, rm, NeedsRex(sz, reg) || NeedsRex(sz, rm), ByteOp(sz, op), [ModRM(3, reg, rm)])
    case Mem(op, sz, reg, base, index, disp) =>
      Parts(sz, reg, IndexReg(index), base, NeedsRex(sz, reg), ByteOp(sz, op), MemOperand(reg, base, index, disp))
    case AluI(digit, sz, rm, imm) =>
      if sz == 1 then Parts(1, 0, 0, rm, NeedsRex(1, rm), 0x80, [ModRM(3, digit, rm), B(imm)])
      else if IsI8(imm) then Parts(sz, 0, 0, rm, false, 0x83, [ModRM(3, digit, rm), B(imm)])
      else Parts(sz, 0, 0, rm, false, 0x81, [ModRM(3, digit, rm)] + LE(imm, 4))
    case ShiftI(digit, sz, rm, amount) =>
      Parts(sz, 0, 0, rm, false, 0xc1, [ModRM(3, digit, rm), B(amount)])
    case Neg(sz, rm) =>
      Parts(sz, 0, 0, rm, false, ByteOp(sz, 0xf7), [ModRM(3, 3, rm)])
    case MovI(sz, rm, imm) =>
      if sz == 1 then Parts(1, 0, 0, rm, NeedsRex(1, rm), 0xb0 + rm % 8, [B(imm)])
      else Parts(sz, 0, 0, rm, false, 0xb8 + rm % 8, LE(imm, if sz == 2 then 2 else if sz == 8 then 8 else 4))
    case MovSxI(rm, imm) =>
      Parts(8, 0, 0, rm, false, 0xc7, [ModRM(3, 0, rm)] + LE(imm, 4))
    case MovMemI(sz, base, disp, imm) =>
      Parts(sz, 0, 0, base, false, ByteOp(sz, 0xc7),
            MemOperand(0, base, NoIndex, disp) + LE(imm, if sz == 1 then 1 else if sz == 2 then 2 else 4))
    case Movsxd(reg, rm) =>
      Parts(8, reg, 0, rm, false, 0x63, [ModRM(3, reg, rm)])
    case Extend(signed, dsz, ssz, reg, rm) =>
      Parts(dsz, reg, 0, rm, NeedsRex(ssz, rm), 0x0f,
            [(if signed then 0xbe else 0xb6) + (if ssz == 1 then 0 else 1), ModRM(3, reg, rm)])
    case ImulI(reg, imm) =>
      if 0 <= imm <= 127 then Parts(8, reg, 0, reg, false, 0x6b, [ModRM(3, reg, reg), B(imm)])
      else Parts(8, reg, 0, reg, false, 0x69, [ModRM(3, reg, reg)] + LE(imm, 4))
    case Push(rm) => Parts(4, 0, 0, rm, false, 0x50 + rm % 8, [])
    case Pop(rm) => Parts(4, 0, 0, rm, false, 0x58 + rm % 8, [])
    case SetCC(cc, rm) =>
      Parts(4, 0, 0, rm, NeedsRex(1, rm), 0x0f, [B(0x90 + cc), ModRM(3, 0, rm)])
    case LeaRip(sz, reg, rel) =>
      Parts(sz, reg, 0, 0, false, OP_LEA, [ModRM(0, reg, 5)] + LE(rel, 4))
    case Jmp(rel) => Parts(4, 0, 0, 0, false, 0xe9, LE(rel, 4))
    case Jcc(cc, rel) => Parts(4, 0, 0, 0, false, 0x0f, [B(0x80 + cc)] + LE(rel, 4))
    case Call(rel) => Parts(4, 0, 0, 0, false, 0xe8, LE(rel, 4))
    case Ret => Parts(4, 0, 0, 0, false, 0xc3, [])
  }

  function Encode(i: Instr): seq<Byte> { Assemble(Parse(i)) }

  function EncodeAll(code: seq<Instr>): seq<Byte> {
    if code == [] then [] else Encode(code[0]) + EncodeAll(code[1..])
  }

  // ---- Decoding ----

  datatype Prefixes = Prefixes(opsize: bool, rex: bool, w: bool, r: bool, x: bool, b: bool)
  datatype Decoded = Bad | Got(instr: Instr, rest: seq<Byte>)
  datatype Operand =
    | BadOperand
    | RegOperand(reg: RegNo, rm: RegNo, rest: seq<Byte>)
    | MemOperandOf(reg: RegNo, base: RegNo, index: Index, disp: int, rest: seq<Byte>)
    | RipOperand(reg: RegNo, disp: int, rest: seq<Byte>)

  function SByte(b: Byte): int { if b < 128 then b else b - 256 }

  function DecodeRex(opsize: bool, bs: seq<Byte>): (Prefixes, seq<Byte>) {
    if bs != [] && 0x40 <= bs[0] < 0x50 then
      var f := bs[0] - 0x40;
      (Prefixes(opsize, true, f >= 8, (f / 4) % 2 == 1, (f / 2) % 2 == 1, f % 2 == 1), bs[1..])
    else
      (Prefixes(opsize, false, false, false, false, false), bs)
  }

  function DecodePrefixes(bs: seq<Byte>): (Prefixes, seq<Byte>) {
    if bs != [] && bs[0] == 0x66 then DecodeRex(true, bs[1..]) else DecodeRex(false, bs)
  }

  function OperandSize(p: Prefixes): int { if p.w then 8 else if p.opsize then 2 else 4 }

  function Ext(high: bool, low: int): RegNo
    requires 0 <= low < 8
  {
    low + if high then 8 else 0
  }

  /** A sign-extended little-endian immediate of n bytes. */
  function SImm(bs: seq<Byte>, n: nat): int
    requires n <= |bs| && (n == 1 || n == 2 || n == 4 || n == 8)
  {
    Signed(n, FromLE(bs[..n]))
  }

  function DecodeDisp(mod: int, reg: RegNo, base: RegNo, index: Index, bs: seq<Byte>): Operand {
    if mod == 0 then MemOperandOf(reg, base, index, 0, bs)
    else if mod == 1 then
      if |bs| < 1 then BadOperand else MemOperandOf(reg, base, index, SByte(bs[0]), bs[1..])
    else
      if |bs| < 4 then BadOperand else MemOperandOf(reg, base, index, SImm(bs, 4), bs[4..])
  }

  function DecodeIndex(p: Prefixes, sib: Byte): Index {
    var scale, idx := sib / 64, Ext(p.x, (sib / 8) % 8);
    if idx == 4 then NoIndex
    else Scaled(idx, if scale == 3 then 8 else if scale == 2 then 4 else if scale == 1 then 2 else 1)
  }

  function DecodeSib(p: Prefixes, mod: int, reg: RegNo, sib: Byte, rest: seq<Byte>): Operand {
    if sib % 8 == 5 && mod == 0 then BadOperand
    else DecodeDisp(mod, reg, Ext(p.b, sib % 8), DecodeIndex(p, sib), rest)
  }

  function DecodeOperand(p: Prefixes, bs: seq<Byte>): Operand {
    if bs == [] then BadOperand else
    var mod, reg, rm := bs[0] / 64, Ext(p.r, (bs[0] / 8) % 8), bs[0] % 8;
    var rest := bs[1..];
    if mod == 3 then RegOperand(reg, Ext(p.b, rm), rest)
    else if rm == 4 then
      if rest == [] then BadOperand else DecodeSib(p, mod, reg, rest[0], rest[1..])
    else if rm == 5 && mod == 0 then
      if |rest| < 4 then BadOperand else RipOperand(reg, SImm(rest, 4), rest[4..])
    else DecodeDisp(mod, reg, Ext(p.b, rm), NoIndex, rest)
  }

  predicate IsAluOp(op: Byte) {
    op == 0x01 || op == 0x09 || op == 0x21 || op == 0x29
    || op == 0x31 || op == 0x39
  }

  /** Without a REX prefix a byte register numbered 4..7 is AH, CH, DH or BH. */
  predicate HighByte(p: Prefixes, sz: int, r: RegNo) { sz == 1 && !p.rex && 4 <= r <= 7 }

  function DecodeRR(p: Prefixes, op: Byte, sz: int, bs: seq<Byte>): Decoded {
    match DecodeOperand(p, bs)
    case RegOperand(reg, rm, rest) =>
      if HighByte(p, sz, reg) || HighByte(p, sz, rm) then Bad else Got(RR(op, sz, reg, rm), rest)
    case MemOperandOf(reg, base, index, disp, rest) =>
      if HighByte(p, sz, reg) || IsAluOp(op) then Bad else Got(Mem(op, sz, reg, base, index, disp), rest)
    case _ => Bad
  }

  function DecodeLoad(p: Prefixes, sz: int, bs: seq<Byte>): Decoded {
    match DecodeOperand(p, bs)
    case MemOperandOf(reg, base, index, disp, rest) =>
      if HighByte(p, sz, reg) then Bad else Got(Mem(0x8b, sz, reg, base, index, disp), rest)
    case _ => Bad
  }

  function DecodeLea(p: Prefixes, bs: seq<Byte>): Decoded {
    match DecodeOperand(p, bs)
    case MemOperandOf(reg, base, index, disp, rest) => Got(Mem(0x8d, OperandSize(p), reg, base, index, disp), rest)
    case RipOperand(reg, disp, rest) => Got(LeaRip(OperandSize(p), reg, disp), rest)
    case _ => Bad
  }

  function DecodeGroup1(p: Prefixes, sz: int, isz: int, bs: seq<Byte>): Decoded
    requires isz == 1 || isz == 2 || isz == 4
  {
    match DecodeOperand(p, bs)
    case RegOperand(reg, rm, rest) =>
      if HighByte(p, sz, rm) || |rest| < isz then Bad
      else Got(AluI(reg % 8, sz, rm, SImm(rest, isz)), rest[isz..])
    case _ => Bad
  }

  function DecodeShift(p: Prefixes, bs: seq<Byte>): Decoded {
    match DecodeOperand(p, bs)
    case RegOperand(reg, rm, rest) =>
      if rest == [] then Bad else Got(ShiftI(reg % 8, OperandSize(p), rm, rest[0]), rest[1..])
    case _ => Bad
  }

  function DecodeGroup3(p: Prefixes, sz: int, bs: seq<Byte>): Decoded {
    match DecodeOperand(p, bs)
    case RegOperand(reg, rm, rest) =>
      if HighByte(p, sz, rm) || reg % 8 != 3 then Bad else Got(Neg(sz, rm), rest)
    case _ => Bad
  }

  function DecodeMovImm(p: Prefixes, sz: int, bs: seq<Byte>): Decoded {
    match DecodeOperand(p, bs)
    case RegOperand(reg, rm, rest) =>
      if reg % 8 != 0 || sz != 8 || |rest| < 4 then Bad else Got(MovSxI(rm, SImm(rest, 4)), rest[4..])
    case MemOperandOf(reg, base, index, disp, rest) =>
      var isz := if sz == 8 then 4 else if sz == 4 then 4 else if sz == 2 then 2 else 1;
      if reg % 8 != 0 || index != NoIndex || |rest| < isz then Bad
      else Got(MovMemI(sz, base, disp, SImm(rest, isz)), rest[isz..])
    case _ => Bad
  }

  function DecodeExtend(p: Prefixes, signed: bool, ssz: int, bs: seq<Byte>): Decoded {
    match DecodeOperand(p, bs)
    case RegOperand(reg, rm, rest) =>
      if HighByte(p, ssz, rm) then Bad else Got(Extend(signed, OperandSize(p), ssz, reg, rm), rest)
    case _ => Bad
  }

  function DecodeTwoByte(p: Prefixes, bs: seq<Byte>): Decoded {
    if bs == [] then Bad else
    var op, rest := bs[0], bs[1..];
    if op == 0xb6 || op == 0xb7 || op == 0xbe || op == 0xbf then
      DecodeExtend(p, op >= 0xbe, if op % 2 == 0 then 1 else 2, rest)
    else if 0x80 <= op < 0x90 then
      if |rest| < 4 then Bad else Got(Jcc(op - 0x80, SImm(rest, 4)), rest[4..])
    else if 0x90 <= op < 0xa0 then
      match DecodeOperand(p, rest)
      case RegOperand(reg, rm, rest') => if HighByte(p, 1, rm) then Bad else Got(SetCC(op - 0x90, rm), rest')
      case _ => Bad
    else Bad
  }

  function DecodeImul(p: Prefixes, isz: int, bs: seq<Byte>): Decoded
    requires isz == 1 || isz == 4
  {
    match DecodeOperand(p, bs)
    case RegOperand(reg, rm, rest) =>
      if reg != rm || !p.w || |rest| < isz then Bad else Got(ImulI(reg, SImm(rest, isz)), rest[isz..])
    case _ => Bad
  }

  function DecodeOp(p: Prefixes, op: Byte, bs: seq<Byte>): Decoded {
    var sz := OperandSize(p);
    if IsAluOp(op) || op == 0x89 then DecodeRR(p, op, sz, bs)
    else if op < 255 && (IsAluOp(op + 1) || op + 1 == 0x89) then DecodeRR(p, op + 1, 1, bs)
    else if op == 0x8b then DecodeLoad(p, sz, bs)
    else if op == 0x8a then DecodeLoad(p, 1, bs)
    else if op == 0x8d then DecodeLea(p, bs)
    else if op == 0x80 then DecodeGroup1(p, 1, 1, bs)
    else if op == 0x81 then DecodeGroup1(p, sz, if sz == 2 then 2 else 4, bs)
    else if op == 0x83 then DecodeGroup1(p, sz, 1, bs)
    else if op == 0xc1 then DecodeShift(p, bs)
    else if op == 0xf6 then DecodeGroup3(p, 1, bs)
    else if op == 0xf7 then DecodeGroup3(p, sz, bs)
    else if op == 0xc6 then DecodeMovImm(p, 1, bs)
    else if op == 0xc7 then DecodeMovImm(p, sz, bs)
    else if op == 0x63 then
      match DecodeOperand(p, bs)
      case RegOperand(reg, rm, rest) => if p.w then Got(Movsxd(reg, rm), rest) else Bad
      case _ => Bad
    else if op == 0x6b then DecodeImul(p, 1, bs)
    else if op == 0x69 then DecodeImul(p, 4, bs)
    else if 0xb0 <= op < 0xb8 then
      if bs == [] || HighByte(p, 1, Ext(p.b, op - 0xb0)) then Bad
      else Got(MovI(1, Ext(p.b, op - 0xb0), bs[0]), bs[1..])
    else if 0xb8 <= op < 0xc0 then
      if |bs| < sz then Bad else Got(MovI(sz, Ext(p.b, op - 0xb8), FromLE(bs[..sz])), bs[sz..])
    else if 0x50 <= op < 0x58 then Got(Push(Ext(p.b, op - 0x50)), bs)
    else if 0x58 <= op < 0x60 then Got(Pop(Ext(p.b, op - 0x58)), bs)
    else if op == 0x0f then DecodeTwoByte(p, bs)
    else if op == 0xe9 || op == 0xe8 then
      if |bs| < 4 then Bad
      else Got(if op == 0xe9 then Jmp(SImm(bs, 4)) else Call(SImm(bs, 4)), bs[4..])
    else if op == 0xc3 then Got(Ret, bs)
    else Bad
  }

  function Decode(bs: seq<Byte>): Decoded {
    var (p, rest) := DecodePrefixes(bs);
    if rest == [] then Bad else DecodeOp(p, rest[0], rest[1..])
  }

  // ---- Round trip ----

  /** The values an instruction field can hold at all. */
  predicate WellFormed(i: Instr) {
    match i
    case RR(op, sz, _, _) => IsSize(sz) && (IsAluOp(op) || op == 0x89)
    case Mem(op, sz, _, _, index, disp) =>
      IsSize(sz) && (op == 0x89 || op == 0x8b || op == 0x8d) && IsI32(disp)
      && (index.Scaled? ==> IsSize(index.scale))
    case AluI(_, sz, _, imm) => IsSize(sz) && IsI32(imm) && (sz == 1 ==> IsI8(imm))
    case ShiftI(_, sz, _, amount) => IsSize(sz) && 0 <= amount < 256
    case Neg(sz, _) => IsSize(sz)
    case MovI(sz, _, imm) => IsSize(sz) && FitsU(sz, imm)
    case MovSxI(_, imm) => IsI32(imm)
    case MovMemI(sz, _, disp, imm) =>
      IsSize(sz) && IsI32(disp) && IsI32(imm) && FitsS(sz, imm)
    case Movsxd(_, _) => true
    case Extend(_, dsz, ssz, _, _) => IsSize(dsz) && (ssz == 1 || ssz == 2) && ssz < dsz
    case ImulI(_, imm) => IsI32(imm)
    case Push(_) => true
    case Pop(_) => true
    case SetCC(cc, _) => 0 <= cc < 16
    case LeaRip(sz, _, rel) => (sz == 4 || sz == 8) && IsI32(rel)
    case Jmp(rel) => IsI32(rel)
    case Jcc(cc, rel) => 0 <= cc < 16 && IsI32(rel)
    case Call(rel) => IsI32(rel)
    case Ret => true
  }

  /** The forms that the encoder gets right: the guard of each branch that is not handled. */
  predicate Faithful(i: Instr) {
    match i
    case Mem(op, sz, _, _, index, _) =>
      && !(index.Scaled? && index.reg == 4)     // RSP cannot be an index
      && !(op == 0x8d && sz == 1)             // there is no byte LEA
    case AluI(_, sz, _, imm) => sz == 2 ==> IsI8(imm)   // the 16-bit form gets a 4-byte immediate
    case ShiftI(_, sz, _, _) => sz != 1         // no byte form of the shift opcode
    case Neg(sz, rm) => !NeedsRex(sz, rm)       // REX is not forced
    case _ => true
  }
}
