// decode(encode(i) ++ rest) == (i, rest), exactly for the forms that the encoder handles.
module X86RoundTrip {
  import opened Words
  import opened X86Instr

  /** What the decoder reads back from the prefixes of an assembled instruction. */
  function PrefixesOf(q: Parts): Prefixes {
    Prefixes(q.sz == 2, q.sz == 8 || q.reg >= 8 || q.index >= 8 || q.base >= 8 || q.force,
             q.sz == 8, q.reg >= 8, q.index >= 8, q.base >= 8)
  }

  lemma RexRoundTrip(q: Parts, opsize: bool, bs: seq<Byte>)
    requires bs != [] && !(0x40 <= bs[0] < 0x50) && opsize == (q.sz == 2)
    ensures DecodeRex(opsize, RexBytes(q.sz == 8, q.reg >= 8, q.index >= 8, q.base >= 8, q.force) + bs) == (PrefixesOf(q), bs)
  {
    var rex := RexBytes(q.sz == 8, q.reg >= 8, q.index >= 8, q.base >= 8, q.force);
    if rex == [] {
      assert rex + bs == bs;
    } else {
      assert (rex + bs)[1..] == bs;
    }
  }

  lemma PrefixesRoundTrip(q: Parts, bs: seq<Byte>)
    requires bs != [] && bs[0] != 0x66 && !(0x40 <= bs[0] < 0x50)
    ensures DecodePrefixes(Prefix66(q.sz) + (RexBytes(q.sz == 8, q.reg >= 8, q.index >= 8, q.base >= 8, q.force) + bs))
         == (PrefixesOf(q), bs)
  {
    var rex := RexBytes(q.sz == 8, q.reg >= 8, q.index >= 8, q.base >= 8, q.force);
    RexRoundTrip(q, q.sz == 2, bs);
    if q.sz == 2 {
      assert (Prefix66(q.sz) + (rex + bs))[1..] == rex + bs;
    } else {
      assert Prefix66(q.sz) + (rex + bs) == rex + bs;
      assert (rex + bs)[0] != 0x66;
    }
  }

  lemma AssembleRoundTrip(q: Parts, rest: seq<Byte>)
    requires q.op != 0x66 && !(0x40 <= q.op < 0x50)
    ensures Decode(Assemble(q) + rest) == DecodeOp(PrefixesOf(q), q.op, q.tail + rest)
  {
    var body := [q.op] + (q.tail + rest);
    assert Assemble(q) + rest
        == Prefix66(q.sz) + (RexBytes(q.sz == 8, q.reg >= 8, q.index >= 8, q.base >= 8, q.force) + body);
    PrefixesRoundTrip(q, body);
    assert body[1..] == q.tail + rest;
  }

  lemma ImmRoundTrip(n: nat, x: int, rest: seq<Byte>)
    requires n == 1 || n == 2 || n == 4 || n == 8
    ensures LE(x, n) + rest != [] && (LE(x, n) + rest)[n..] == rest
    ensures FromLE((LE(x, n) + rest)[..n]) == x % Modulus(n)
    ensures SImm(LE(x, n) + rest, n) == Signed(n, x)
  {
    assert (LE(x, n) + rest)[..n] == LE(x, n);
    FromLERoundTrip(x, n);
    ModulusIsPow256(n);
    LowMod(n, x);
    SignedLow(n, x);
  }

  lemma SImmRoundTrip(n: nat, x: int, rest: seq<Byte>)
    requires n == 1 || n == 2 || n == 4
    requires FitsS(n, x)
    ensures |LE(x, n) + rest| >= n && (LE(x, n) + rest)[n..] == rest
    ensures SImm(LE(x, n) + rest, n) == x
  {
    ImmRoundTrip(n, x, rest);
    SignedFits(n, x);
  }

  lemma RegOperandRoundTrip(p: Prefixes, reg: RegNo, rm: RegNo, rest: seq<Byte>)
    requires p.r == (reg >= 8) && p.b == (rm >= 8)
    ensures DecodeOperand(p, [ModRM(3, reg, rm)] + rest) == RegOperand(reg, rm, rest)
  {
    var m := ModRM(3, reg, rm);
    ModRMFields(3, reg, rm);
    assert ([m] + rest)[1..] == rest;
  }

  lemma DispRoundTrip(reg: RegNo, base: RegNo, index: Index, disp: int, rest: seq<Byte>)
    requires IsI32(disp)
    ensures DecodeDisp(ChooseMod(disp, base), reg, base, index, DispBytes(disp, ChooseMod(disp, base)) + rest)
         == MemOperandOf(reg, base, index, disp, rest)
  {
    var mod := ChooseMod(disp, base);
    var ds := DispBytes(disp, mod);
    if mod == 0 {
      assert ds + rest == rest;
    } else if mod == 1 {
      assert (ds + rest)[1..] == rest;
    } else {
      SImmRoundTrip(4, disp, rest);
    }
  }

  /** The index that a memory operand decodes to: RSP's number means "none". */
  function SeenIndex(index: Index): Index {
    if index.Scaled? && index.reg != 4 then index else NoIndex
  }

  lemma ModRMFields(mod: int, reg: RegNo, rm: RegNo)
    requires 0 <= mod < 4
    ensures var m := ModRM(mod, reg, rm); m / 64 == mod && (m / 8) % 8 == reg % 8 && m % 8 == rm % 8
  {
    SibFields(mod, reg % 8, rm % 8);
  }

  lemma SibFields(scale: int, idx3: int, base3: int)
    requires 0 <= scale < 4 && 0 <= idx3 < 8 && 0 <= base3 < 8
    ensures var s := scale * 64 + idx3 * 8 + base3; s / 64 == scale && (s / 8) % 8 == idx3 && s % 8 == base3
  {
  }

  lemma PlainOperandRoundTrip(p: Prefixes, reg: RegNo, base: RegNo, disp: int, rest: seq<Byte>)
    requires p.r == (reg >= 8) && p.b == (base >= 8) && IsI32(disp) && base % 8 != 4
    ensures DecodeOperand(p, MemOperand(reg, base, NoIndex, disp) + rest)
         == MemOperandOf(reg, base, NoIndex, disp, rest)
  {
    var mod := ChooseMod(disp, base);
    var tail := DispBytes(disp, mod) + rest;
    DispRoundTrip(reg, base, NoIndex, disp, rest);
    ModRMFields(mod, reg, base);
    assert MemOperand(reg, base, NoIndex, disp) + rest == [ModRM(mod, reg, base)] + tail;
    assert ([ModRM(mod, reg, base)] + tail)[1..] == tail;
  }

  function SibByte(base: RegNo, index: Index): Byte {
    (if index.Scaled? then ScaleBits(index.scale) else 0) * 64
    + (if index.Scaled? then index.reg % 8 else 4) * 8 + base % 8
  }

  lemma SibRoundTrip(p: Prefixes, base: RegNo, index: Index)
    requires p.x == (IndexReg(index) >= 8)
    requires index.Scaled? ==> IsSize(index.scale)
    ensures SibByte(base, index) % 8 == base % 8 && DecodeIndex(p, SibByte(base, index)) == SeenIndex(index)
  {
    SibFields(if index.Scaled? then ScaleBits(index.scale) else 0,
              if index.Scaled? then index.reg % 8 else 4, base % 8);
  }

  lemma SibOperandRoundTrip(p: Prefixes, reg: RegNo, base: RegNo, index: Index, disp: int, rest: seq<Byte>)
    requires p.r == (reg >= 8) && p.b == (base >= 8) && p.x == (IndexReg(index) >= 8) && IsI32(disp)
    requires index.Scaled? ==> IsSize(index.scale)
    requires index.Scaled? || base % 8 == 4
    ensures DecodeOperand(p, MemOperand(reg, base, index, disp) + rest)
         == MemOperandOf(reg, base, SeenIndex(index), disp, rest)
  {
    hide DecodeOperand, DecodeSib, MemOperand, SibByte, DispBytes, ModRM, DecodeIndex, SeenIndex, LE, DecodeDisp;
    var mod := ChooseMod(disp, base);
    var tail := DispBytes(disp, mod) + rest;
    SibOperandBytes(reg, base, index, disp, rest);
    SibRoundTrip(p, base, index);
    DispRoundTrip(reg, base, SeenIndex(index), disp, rest);
    ThroughSib(p, mod, reg, SibByte(base, index), tail);
    SibBase(p, mod, reg, base, SibByte(base, index), tail);
  }

  /** A ModRM byte with 4 in its low bits leads to the SIB byte. */
  lemma ThroughSib(p: Prefixes, mod: int, reg: RegNo, sib: Byte, tail: seq<Byte>)
    requires p.r == (reg >= 8) && 0 <= mod < 3
    ensures DecodeOperand(p, [ModRM(mod, reg, 4), sib] + tail) == DecodeSib(p, mod, reg, sib, tail)
  {
    hide DecodeSib, ModRM;
    ModRMFields(mod, reg, 4);
    var bs := [ModRM(mod, reg, 4), sib] + tail;
    assert bs[1..] == [sib] + tail && ([sib] + tail)[1..] == tail;
  }

  lemma SibBase(p: Prefixes, mod: int, reg: RegNo, base: RegNo, sib: Byte, tail: seq<Byte>)
    requires p.b == (base >= 8) && sib % 8 == base % 8 && (base % 8 == 5 ==> mod != 0)
    ensures DecodeSib(p, mod, reg, sib, tail) == DecodeDisp(mod, reg, base, DecodeIndex(p, sib), tail)
  {
  }

  lemma SibOperandBytes(reg: RegNo, base: RegNo, index: Index, disp: int, rest: seq<Byte>)
    requires index.Scaled? || base % 8 == 4
    ensures var mod := ChooseMod(disp, base);
      MemOperand(reg, base, index, disp) + rest
        == [ModRM(mod, reg, 4), SibByte(base, index)] + (DispBytes(disp, mod) + rest)
  {
  }

  lemma MemOperandRoundTrip(p: Prefixes, reg: RegNo, base: RegNo, index: Index, disp: int, rest: seq<Byte>)
    requires p.r == (reg >= 8) && p.b == (base >= 8) && p.x == (IndexReg(index) >= 8) && IsI32(disp)
    requires index.Scaled? ==> IsSize(index.scale)
    ensures DecodeOperand(p, MemOperand(reg, base, index, disp) + rest)
         == MemOperandOf(reg, base, SeenIndex(index), disp, rest)
  {
    if index.Scaled? || base % 8 == 4 {
      SibOperandRoundTrip(p, reg, base, index, disp, rest);
    } else {
      PlainOperandRoundTrip(p, reg, base, disp, rest);
    }
  }

  // ---- One lemma per group of forms ----

  lemma RRForm(op: Byte, sz: int, reg: RegNo, rm: RegNo, rest: seq<Byte>)
    requires IsSize(sz) && (IsAluOp(op) || op == OP_MOV_RM_R)
    ensures var i := RR(op, sz, reg, rm); var q := Parse(i);
      DecodeOp(PrefixesOf(q), q.op, q.tail + rest) == Got(i, rest)
  {
    var q := Parse(RR(op, sz, reg, rm));
    RegOperandRoundTrip(PrefixesOf(q), reg, rm, rest);
    assert DecodeOp(PrefixesOf(q), q.op, q.tail + rest) == DecodeRR(PrefixesOf(q), op, sz, q.tail + rest);
  }

  lemma NegForm(sz: int, rm: RegNo, rest: seq<Byte>)
    requires IsSize(sz)
    ensures var i := Neg(sz, rm); var q := Parse(i);
      Faithful(i) <==> DecodeOp(PrefixesOf(q), q.op, q.tail + rest) == Got(i, rest)
  {
    var q := Parse(Neg(sz, rm));
    RegOperandRoundTrip(PrefixesOf(q), 3, rm, rest);
    assert DecodeOp(PrefixesOf(q), q.op, q.tail + rest) == DecodeGroup3(PrefixesOf(q), sz, q.tail + rest);
  }

  lemma MovsxdForm(reg: RegNo, rm: RegNo, rest: seq<Byte>)
    ensures var i := Movsxd(reg, rm); var q := Parse(i);
      DecodeOp(PrefixesOf(q), q.op, q.tail + rest) == Got(i, rest)
  {
    RegOperandRoundTrip(PrefixesOf(Parse(Movsxd(reg, rm))), reg, rm, rest);
  }

  lemma ExtendForm(signed: bool, dsz: int, ssz: int, reg: RegNo, rm: RegNo, rest: seq<Byte>)
    requires IsSize(dsz) && (ssz == 1 || ssz == 2) && ssz < dsz
    ensures var i := Extend(signed, dsz, ssz, reg, rm); var q := Parse(i);
      DecodeOp(PrefixesOf(q), q.op, q.tail + rest) == Got(i, rest)
  {
    var q := Parse(Extend(signed, dsz, ssz, reg, rm));
    RegOperandRoundTrip(PrefixesOf(q), reg, rm, rest);
    assert (q.tail + rest)[1..] == [ModRM(3, reg, rm)] + rest;
    assert DecodeOp(PrefixesOf(q), q.op, q.tail + rest) == DecodeTwoByte(PrefixesOf(q), q.tail + rest);
  }

  lemma MemForm(op: Byte, sz: int, reg: RegNo, base: RegNo, index: Index, disp: int, rest: seq<Byte>)
    requires WellFormed(Mem(op, sz, reg, base, index, disp))
    ensures var i := Mem(op, sz, reg, base, index, disp); var q := Parse(i);
      Faithful(i) <==> DecodeOp(PrefixesOf(q), q.op, q.tail + rest) == Got(i, rest)
  {
    var q := Parse(Mem(op, sz, reg, base, index, disp));
    var p := PrefixesOf(q);
    MemOperandRoundTrip(p, reg, base, index, disp, rest);
    if op == OP_LEA {
      assert sz != 1 ==> DecodeOp(p, q.op, q.tail + rest) == DecodeLea(p, q.tail + rest);
    } else if op == OP_MOV_R_RM {
      assert DecodeOp(p, q.op, q.tail + rest) == DecodeLoad(p, sz, q.tail + rest);
    } else {
      assert DecodeOp(p, q.op, q.tail + rest) == DecodeRR(p, op, sz, q.tail + rest);
    }
  }

  lemma Group1RoundTrip(p: Prefixes, digit: Bits3, sz: int, rm: RegNo, isz: int, imm: int, rest: seq<Byte>)
    requires isz == 1 || isz == 2 || isz == 4
    requires FitsS(isz, imm)
    requires !p.r && p.b == (rm >= 8) && !HighByte(p, sz, rm)
    ensures DecodeGroup1(p, sz, isz, [ModRM(3, digit, rm)] + (LE(imm, isz) + rest)) == Got(AluI(digit, sz, rm, imm), rest)
  {
    RegOperandRoundTrip(p, digit, rm, LE(imm, isz) + rest);
    SImmRoundTrip(isz, imm, rest);
  }

  lemma AluByteForm(digit: Bits3, sz: int, rm: RegNo, imm: int, rest: seq<Byte>)
    requires IsSize(sz) && IsI8(imm)
    ensures var i := AluI(digit, sz, rm, imm); var q := Parse(i);
      DecodeOp(PrefixesOf(q), q.op, q.tail + rest) == Got(i, rest)
  {
    var q := Parse(AluI(digit, sz, rm, imm));
    assert LE(imm, 1) == [B(imm)];
    assert q.tail + rest == [ModRM(3, digit, rm)] + (LE(imm, 1) + rest);
    Group1RoundTrip(PrefixesOf(q), digit, sz, rm, 1, imm, rest);
  }

  lemma AluDwordForm(digit: Bits3, sz: int, rm: RegNo, imm: int, rest: seq<Byte>)
    requires (sz == 4 || sz == 8) && IsI32(imm) && !IsI8(imm)
    ensures var i := AluI(digit, sz, rm, imm); var q := Parse(i);
      DecodeOp(PrefixesOf(q), q.op, q.tail + rest) == Got(i, rest)
  {
    var q := Parse(AluI(digit, sz, rm, imm));
    assert q.tail + rest == [ModRM(3, digit, rm)] + (LE(imm, 4) + rest);
    Group1RoundTrip(PrefixesOf(q), digit, sz, rm, 4, imm, rest);
    assert DecodeOp(PrefixesOf(q), q.op, q.tail + rest) == DecodeGroup1(PrefixesOf(q), sz, 4, q.tail + rest);
  }

  /** With a 16-bit operand the processor reads two of the four immediate bytes. */
  lemma AluWordForm(digit: Bits3, rm: RegNo, imm: int, rest: seq<Byte>)
    requires IsI32(imm) && !IsI8(imm)
    ensures var i := AluI(digit, 2, rm, imm); var q := Parse(i);
      DecodeOp(PrefixesOf(q), q.op, q.tail + rest) != Got(i, rest)
  {
    var q := Parse(AluI(digit, 2, rm, imm));
    var p, bs := PrefixesOf(q), q.tail + rest;
    assert DecodeOp(p, 0x81, bs) == DecodeGroup1(p, 2, 2, bs);
    assert DecodeOperand(p, bs).RegOperand? ==> DecodeOperand(p, bs).rest == bs[1..];
  }

  lemma AluForm(digit: Bits3, sz: int, rm: RegNo, imm: int, rest: seq<Byte>)
    requires WellFormed(AluI(digit, sz, rm, imm))
    ensures var i := AluI(digit, sz, rm, imm); var q := Parse(i);
      Faithful(i) <==> DecodeOp(PrefixesOf(q), q.op, q.tail + rest) == Got(i, rest)
  {
    if IsI8(imm) {
      AluByteForm(digit, sz, rm, imm, rest);
    } else if sz == 2 {
      AluWordForm(digit, rm, imm, rest);
    } else {
      AluDwordForm(digit, sz, rm, imm, rest);
    }
  }

  lemma ShiftForm(digit: Bits3, sz: int, rm: RegNo, amount: int, rest: seq<Byte>)
    requires IsSize(sz) && 0 <= amount < 256
    ensures var i := ShiftI(digit, sz, rm, amount); var q := Parse(i);
      Faithful(i) <==> DecodeOp(PrefixesOf(q), q.op, q.tail + rest) == Got(i, rest)
  {
    var q := Parse(ShiftI(digit, sz, rm, amount));
    assert q.tail + rest == [ModRM(3, digit, rm)] + ([amount] + rest);
    RegOperandRoundTrip(PrefixesOf(q), digit, rm, [amount] + rest);
    assert ([amount] + rest)[1..] == rest;
    assert DecodeOp(PrefixesOf(q), q.op, q.tail + rest) == DecodeShift(PrefixesOf(q), q.tail + rest);
  }

  lemma ImulRoundTrip(p: Prefixes, reg: RegNo, isz: int, imm: int, rest: seq<Byte>)
    requires isz == 1 || isz == 4
    requires FitsS(isz, imm)
    requires p.w && p.r == p.b == (reg >= 8)
    ensures DecodeImul(p, isz, [ModRM(3, reg, reg)] + (LE(imm, isz) + rest)) == Got(ImulI(reg, imm), rest)
  {
    RegOperandRoundTrip(p, reg, reg, LE(imm, isz) + rest);
    SImmRoundTrip(isz, imm, rest);
  }

  lemma ImulForm(reg: RegNo, imm: int, rest: seq<Byte>)
    requires IsI32(imm)
    ensures var i := ImulI(reg, imm); var q := Parse(i);
      DecodeOp(PrefixesOf(q), q.op, q.tail + rest) == Got(i, rest)
  {
    var q := Parse(ImulI(reg, imm));
    var n := if 0 <= imm <= 127 then 1 else 4;
    assert LE(imm, 1) == [B(imm)];
    assert q.tail + rest == [ModRM(3, reg, reg)] + (LE(imm, n) + rest);
    ImulRoundTrip(PrefixesOf(q), reg, n, imm, rest);
    assert DecodeOp(PrefixesOf(q), q.op, q.tail + rest) == DecodeImul(PrefixesOf(q), n, q.tail + rest);
  }

  lemma MovIForm(sz: int, rm: RegNo, imm: int, rest: seq<Byte>)
    requires WellFormed(MovI(sz, rm, imm))
    ensures var i := MovI(sz, rm, imm); var q := Parse(i);
      DecodeOp(PrefixesOf(q), q.op, q.tail + rest) == Got(i, rest)
  {
    var q := Parse(MovI(sz, rm, imm));
    if sz == 1 {
      assert (q.tail + rest)[1..] == rest;
    } else {
      MovWideForm(PrefixesOf(q), sz, rm, imm, rest);
    }
  }

  lemma MovWideForm(p: Prefixes, sz: int, rm: RegNo, imm: int, rest: seq<Byte>)
    requires (sz == 2 || sz == 4 || sz == 8) && FitsU(sz, imm)
    requires OperandSize(p) == sz && p.b == (rm >= 8)
    ensures DecodeOp(p, 0xb8 + rm % 8, LE(imm, sz) + rest) == Got(MovI(sz, rm, imm), rest)
  {
    ImmRoundTrip(sz, imm, rest);
    LowMod(sz, imm);
    LowSmall(sz, imm);
    assert Ext(p.b, rm % 8) == rm;
    assert FromLE((LE(imm, sz) + rest)[..sz]) == imm;
  }

  lemma MovSxForm(rm: RegNo, imm: int, rest: seq<Byte>)
    requires IsI32(imm)
    ensures var i := MovSxI(rm, imm); var q := Parse(i);
      DecodeOp(PrefixesOf(q), q.op, q.tail + rest) == Got(i, rest)
  {
    var q := Parse(MovSxI(rm, imm));
    assert q.tail + rest == [ModRM(3, 0, rm)] + (LE(imm, 4) + rest);
    RegOperandRoundTrip(PrefixesOf(q), 0, rm, LE(imm, 4) + rest);
    SImmRoundTrip(4, imm, rest);
    assert DecodeOp(PrefixesOf(q), q.op, q.tail + rest) == DecodeMovImm(PrefixesOf(q), 8, q.tail + rest);
  }

  lemma MovMemRoundTrip(p: Prefixes, sz: int, base: RegNo, disp: int, n: nat, imm: int, rest: seq<Byte>)
    requires IsSize(sz) && n == (if sz == 1 then 1 else if sz == 2 then 2 else 4)
    requires IsI32(disp) && FitsS(n, imm)
    requires !p.r && !p.x && p.b == (base >= 8)
    ensures DecodeMovImm(p, sz, MemOperand(0, base, NoIndex, disp) + (LE(imm, n) + rest))
         == Got(MovMemI(sz, base, disp, imm), rest)
  {
    MemOperandRoundTrip(p, 0, base, NoIndex, disp, LE(imm, n) + rest);
    SImmRoundTrip(n, imm, rest);
  }

  lemma MovMemTail(sz: int, base: RegNo, disp: int, imm: int, n: nat, rest: seq<Byte>)
    requires IsSize(sz) && n == (if sz == 1 then 1 else if sz == 2 then 2 else 4)
    ensures var q := Parse(MovMemI(sz, base, disp, imm));
      q.tail + rest == MemOperand(0, base, NoIndex, disp) + (LE(imm, n) + rest)
  {
  }

  lemma MovMemDispatch(p: Prefixes, sz: int, bs: seq<Byte>)
    requires IsSize(sz) && (sz == 1 || OperandSize(p) == sz)
    ensures DecodeOp(p, ByteOp(sz, 0xc7), bs) == DecodeMovImm(p, sz, bs)
  {
  }

  lemma MovMemForm(sz: int, base: RegNo, disp: int, imm: int, rest: seq<Byte>)
    requires WellFormed(MovMemI(sz, base, disp, imm))
    ensures var i := MovMemI(sz, base, disp, imm); var q := Parse(i);
      DecodeOp(PrefixesOf(q), q.op, q.tail + rest) == Got(i, rest)
  {
    var q := Parse(MovMemI(sz, base, disp, imm));
    var n := if sz == 1 then 1 else if sz == 2 then 2 else 4;
    MovMemTail(sz, base, disp, imm, n, rest);
    MovMemDispatch(PrefixesOf(q), sz, q.tail + rest);
    MovMemRoundTrip(PrefixesOf(q), sz, base, disp, n, imm, rest);
  }

  lemma SetCCForm(cc: int, rm: RegNo, rest: seq<Byte>)
    requires 0 <= cc < 16
    ensures var i := SetCC(cc, rm); var q := Parse(i);
      DecodeOp(PrefixesOf(q), q.op, q.tail + rest) == Got(i, rest)
  {
    var q := Parse(SetCC(cc, rm));
    assert (q.tail + rest)[1..] == [ModRM(3, 0, rm)] + rest;
    RegOperandRoundTrip(PrefixesOf(q), 0, rm, rest);
    assert DecodeOp(PrefixesOf(q), q.op, q.tail + rest) == DecodeTwoByte(PrefixesOf(q), q.tail + rest);
  }

  lemma LeaRipForm(sz: int, reg: RegNo, rel: int, rest: seq<Byte>)
    requires (sz == 4 || sz == 8) && IsI32(rel)
    ensures var i := LeaRip(sz, reg, rel); var q := Parse(i);
      DecodeOp(PrefixesOf(q), q.op, q.tail + rest) == Got(i, rest)
  {
    var q := Parse(LeaRip(sz, reg, rel));
    assert (q.tail + rest)[1..] == LE(rel, 4) + rest;
    ModRMFields(0, reg, 5);
    SImmRoundTrip(4, rel, rest);
    assert DecodeOp(PrefixesOf(q), q.op, q.tail + rest) == DecodeLea(PrefixesOf(q), q.tail + rest);
  }

  lemma RelForm(i: Instr, rest: seq<Byte>)
    requires (i.Jmp? || i.Call?) && IsI32(i.rel)
    ensures var q := Parse(i); DecodeOp(PrefixesOf(q), q.op, q.tail + rest) == Got(i, rest)
  {
    SImmRoundTrip(4, i.rel, rest);
  }

  lemma JccForm(cc: int, rel: int, rest: seq<Byte>)
    requires 0 <= cc < 16 && IsI32(rel)
    ensures var i := Jcc(cc, rel); var q := Parse(i);
      DecodeOp(PrefixesOf(q), q.op, q.tail + rest) == Got(i, rest)
  {
    var q := Parse(Jcc(cc, rel));
    SImmRoundTrip(4, rel, rest);
    assert (q.tail + rest)[1..] == LE(rel, 4) + rest;
    assert DecodeOp(PrefixesOf(q), q.op, q.tail + rest) == DecodeTwoByte(PrefixesOf(q), q.tail + rest);
  }

  lemma StackForm(i: Instr, rest: seq<Byte>)
    requires i.Push? || i.Pop? || i.Ret?
    ensures var q := Parse(i); DecodeOp(PrefixesOf(q), q.op, q.tail + rest) == Got(i, rest)
  {
    hide DecodeOp;
    assert [] + rest == rest;
    match i
    case Push(rm) => DecodesPush(PrefixesOf(Parse(i)), rm, rest);
    case Pop(rm) => DecodesPop(PrefixesOf(Parse(i)), rm, rest);
    case Ret => DecodesRet(PrefixesOf(Parse(i)), rest);
  }

  lemma DecodesPush(p: Prefixes, rm: RegNo, rest: seq<Byte>)
    requires p.b == (rm >= 8)
    ensures DecodeOp(p, 0x50 + rm % 8, rest) == Got(Push(rm), rest)
  {
    hide DecodeRR, DecodeLoad, DecodeLea, DecodeGroup1, DecodeGroup3, DecodeShift, DecodeMovImm, DecodeImul, DecodeTwoByte, DecodeOperand;
  }

  lemma DecodesPop(p: Prefixes, rm: RegNo, rest: seq<Byte>)
    requires p.b == (rm >= 8)
    ensures DecodeOp(p, 0x58 + rm % 8, rest) == Got(Pop(rm), rest)
  {
    hide DecodeRR, DecodeLoad, DecodeLea, DecodeGroup1, DecodeGroup3, DecodeShift, DecodeMovImm, DecodeImul, DecodeTwoByte, DecodeOperand;
  }

  lemma DecodesRet(p: Prefixes, rest: seq<Byte>)
    ensures DecodeOp(p, 0xc3, rest) == Got(Ret, rest)
  {
    hide DecodeRR, DecodeLoad, DecodeLea, DecodeGroup1, DecodeGroup3, DecodeShift, DecodeMovImm, DecodeImul, DecodeTwoByte, DecodeOperand;
  }

  /** All forms after the prefixes have been read. */
  lemma OpRoundTrip(i: Instr, rest: seq<Byte>)
    requires WellFormed(i)
    ensures var q := Parse(i);
      Faithful(i) <==> DecodeOp(PrefixesOf(q), q.op, q.tail + rest) == Got(i, rest)
  {
    match i
    case RR(op, sz, reg, rm) => RRForm(op, sz, reg, rm, rest);
    case Mem(op, sz, reg, base, index, disp) => MemForm(op, sz, reg, base, index, disp, rest);
    case AluI(digit, sz, rm, imm) => AluForm(digit, sz, rm, imm, rest);
    case ShiftI(digit, sz, rm, amount) => ShiftForm(digit, sz, rm, amount, rest);
    case Neg(sz, rm) => NegForm(sz, rm, rest);
    case MovI(sz, rm, imm) => MovIForm(sz, rm, imm, rest);
    case MovSxI(rm, imm) => MovSxForm(rm, imm, rest);
    case MovMemI(sz, base, disp, imm) => MovMemForm(sz, base, disp, imm, rest);
    case Movsxd(reg, rm) => MovsxdForm(reg, rm, rest);
    case Extend(signed, dsz, ssz, reg, rm) => ExtendForm(signed, dsz, ssz, reg, rm, rest);
    case ImulI(reg, imm) => ImulForm(reg, imm, rest);
    case SetCC(cc, rm) => SetCCForm(cc, rm, rest);
    case LeaRip(sz, reg, rel) => LeaRipForm(sz, reg, rel, rest);
    case Jcc(cc, rel) => JccForm(cc, rel, rest);
    case Jmp(_) => RelForm(i, rest);
    case Call(_) => RelForm(i, rest);
    case _ => StackForm(i, rest);
  }

  /** Encoding then decoding gives the instruction and the untouched rest, exactly on the
      forms the encoder handles. */
  lemma RoundTrip(i: Instr, rest: seq<Byte>)
    requires WellFormed(i)
    ensures Decode(Encode(i) + rest) == Got(i, rest) <==> Faithful(i)
  {
    AssembleRoundTrip(Parse(i), rest);
    OpRoundTrip(i, rest);
  }

  /** The decoded instruction stream of a byte string, as far as it decodes. */
  function DecodeAll(bs: seq<Byte>): (code: seq<Instr>)
    decreases |bs|
  {
    match Decode(bs)
    case Bad => []
    case Got(i, rest) => if |rest| < |bs| then [i] + DecodeAll(rest) else []
  }

  predicate AllFaithful(code: seq<Instr>) {
    forall k :: 0 <= k < |code| ==> WellFormed(code[k]) && Faithful(code[k])
  }

  lemma NothingLeft()
    ensures DecodeAll([]) == []
  {
  }

  lemma EncodeNonempty(code: seq<Instr>)
    ensures code != [] ==> |EncodeAll(code[1..])| < |EncodeAll(code)|
  {
    if code != [] {
      AssembledNonempty(code[0]);
    }
  }

  lemma AssembledNonempty(i: Instr)
    ensures Encode(i) != []
  {
  }

  lemma DecodeStep(bs: seq<Byte>, i: Instr, rest: seq<Byte>)
    requires Decode(bs) == Got(i, rest) && |rest| < |bs|
    ensures DecodeAll(bs) == [i] + DecodeAll(rest)
  {
    hide Decode;
  }

  /** Any emitted sequence decodes back to exactly that sequence, so distinct sequences have
      distinct bytes. */
  lemma {:induction false} StreamRoundTrip(code: seq<Instr>)
    requires AllFaithful(code)
    ensures DecodeAll(EncodeAll(code)) == code
  {
    hide Encode, Decode, Faithful, WellFormed, DecodeAll;
    EncodeNonempty(code);
    if code != [] {
      var rest := EncodeAll(code[1..]);
      RoundTrip(code[0], rest);
      StreamRoundTrip(code[1..]);
      DecodeStep(EncodeAll(code), code[0], rest);
    } else {
      NothingLeft();
    }
  }
}
