// The x86-64 emitters, byte by byte, against the instruction sequences of X86Lower,
// X86Stores and X86Frame.
module X86Emit {
  import opened Words
  import opened Registers
  import opened X86Flags
  import opened X86Instr
  import opened X86Buffer
  import Lower = X86Lower
  import Stores = X86Stores
  import Frames = X86Frame
  import Compare = X86Compare
  import Addr = X86Address

  // ---- Encoders ----

  method PutPrefixes(out: CodeBuffer, sz: int, reg: RegNo, index: RegNo, base: RegNo, force: bool)
    requires out.Valid()
    modifies out, out.body, out.prol
    ensures out.Emitted(Prefix66(sz) + RexBytes(sz == 8, reg >= 8, index >= 8, base >= 8, force))
  {
    hide CodeBuffer.Valid, CodeBuffer.Selected, CodeBuffer.Unselected;
    if sz == 2 {
      out.Put8(0x66);
    }
    var rex := 0;
    if sz == 8 {
      rex := rex + 8;
    }
    if reg >= 8 {
      rex := rex + 4;
    }
    if index >= 8 {
      rex := rex + 2;
    }
    if base >= 8 {
      rex := rex + 1;
    }
    if rex != 0 || force {
      out.Put8(0x40 + rex);
    }
  }

  /** Prefixes and the first opcode byte. */
  method PutHead(out: CodeBuffer, sz: int, reg: RegNo, index: RegNo, base: RegNo, force: bool, op: Byte)
    requires out.Valid()
    modifies out, out.body, out.prol
    ensures out.Emitted(Assemble(Parts(sz, reg, index, base, force, op, [])))
  {
    hide CodeBuffer.Valid, CodeBuffer.Selected, CodeBuffer.Unselected, RexBytes, Prefix66;
    PutPrefixes(out, sz, reg, index, base, force);
    out.Put8(op);
    assert [op] + [] == [op];
  }

  lemma TailAfterHead(q: Parts)
    ensures Assemble(q) == Assemble(q.(tail := [])) + q.tail
  {
    assert [q.op] + [] == [q.op];
  }

  method EncodeRR(out: CodeBuffer, op: Byte, sz: int, reg: RegNo, rm: RegNo)
    requires out.Valid()
    modifies out, out.body, out.prol
    ensures out.Emitted(Encode(RR(op, sz, reg, rm)))
  {
    hide CodeBuffer.Valid, CodeBuffer.Selected, CodeBuffer.Unselected, Assemble, ModRM, NeedsRex, ByteOp;
    PutHead(out, sz, reg, 0, rm, NeedsRex(sz, reg) || NeedsRex(sz, rm), ByteOp(sz, op));
    out.Put8(ModRM(3, reg, rm));
    TailAfterHead(Parse(RR(op, sz, reg, rm)));
  }

  method PutDisp(out: CodeBuffer, disp: int, mod: int)
    requires out.Valid()
    modifies out, out.body, out.prol
    ensures out.Emitted(DispBytes(disp, mod))
  {
    if mod == 1 {
      out.Put8(B(disp));
    } else if mod == 2 {
      out.Put32(disp);
    }
  }

  method PutMemOperand(out: CodeBuffer, reg: RegNo, base: RegNo, index: Index, disp: int)
    requires out.Valid()
    modifies out, out.body, out.prol
    ensures out.Emitted(MemOperand(reg, base, index, disp))
  {
    hide CodeBuffer.Valid, CodeBuffer.Selected, CodeBuffer.Unselected, ModRM, DispBytes, ChooseMod, ScaleBits;
    var mod := ChooseMod(disp, base);
    if index.Scaled? || base % 8 == 4 {
      out.Put8(ModRM(mod, reg, 4));
      var idx3 := if index.Scaled? then index.reg % 8 else 4;
      var scale := if index.Scaled? then ScaleBits(index.scale) else 0;
      out.Put8(scale * 64 + idx3 * 8 + base % 8);
    } else {
      out.Put8(ModRM(mod, reg, base));
    }
    PutDisp(out, disp, mod);
  }

  method EncodeMem(out: CodeBuffer, op: Byte, sz: int, reg: RegNo, base: RegNo, index: Index, disp: int)
    requires out.Valid()
    modifies out, out.body, out.prol
    ensures out.Emitted(Encode(Mem(op, sz, reg, base, index, disp)))
  {
    hide CodeBuffer.Valid, CodeBuffer.Selected, CodeBuffer.Unselected, Assemble, MemOperand, NeedsRex, ByteOp, IndexReg;
    PutHead(out, sz, reg, IndexReg(index), base, NeedsRex(sz, reg), ByteOp(sz, op));
    PutMemOperand(out, reg, base, index, disp);
    TailAfterHead(Parse(Mem(op, sz, reg, base, index, disp)));
  }

  method AluRI(out: CodeBuffer, digit: Bits3, sz: int, rm: RegNo, imm: int)
    requires out.Valid()
    modifies out, out.body, out.prol
    ensures out.Emitted(Encode(AluI(digit, sz, rm, imm)))
  {
    hide CodeBuffer.Valid, CodeBuffer.Selected, CodeBuffer.Unselected, Assemble, ModRM, NeedsRex, LE, B;
    TailAfterHead(Parse(AluI(digit, sz, rm, imm)));
    if sz == 1 {
      PutHead(out, sz, 0, 0, rm, NeedsRex(1, rm), 0x80);
      out.Put8(ModRM(3, digit, rm));
      out.Put8(B(imm));
      return;
    }
    if IsI8(imm) {
      PutHead(out, sz, 0, 0, rm, false, 0x83);
      out.Put8(ModRM(3, digit, rm));
      out.Put8(B(imm));
      return;
    }
    PutHead(out, sz, 0, 0, rm, false, 0x81);
    out.Put8(ModRM(3, digit, rm));
    out.Put32(imm);
  }

  method ShiftRI(out: CodeBuffer, digit: Bits3, sz: int, rm: RegNo, amount: int)
    requires out.Valid()
    modifies out, out.body, out.prol
    ensures out.Emitted(Encode(ShiftI(digit, sz, rm, amount)))
  {
    hide CodeBuffer.Valid, CodeBuffer.Selected, CodeBuffer.Unselected, Assemble, ModRM, B;
    PutHead(out, sz, 0, 0, rm, false, 0xc1);
    out.Put8(ModRM(3, digit, rm));
    out.Put8(B(amount));
    TailAfterHead(Parse(ShiftI(digit, sz, rm, amount)));
  }

  method EmitNeg(out: CodeBuffer, sz: int, rm: RegNo)
    requires out.Valid()
    modifies out, out.body, out.prol
    ensures out.Emitted(Encode(Neg(sz, rm)))
  {
    hide CodeBuffer.Valid, CodeBuffer.Selected, CodeBuffer.Unselected, Assemble, ModRM, ByteOp;
    PutHead(out, sz, 0, 0, rm, false, ByteOp(sz, 0xf7));
    out.Put8(ModRM(3, 3, rm));
    TailAfterHead(Parse(Neg(sz, rm)));
  }

  // ---- Moves ----

  method EncodeMovI(out: CodeBuffer, sz: int, r: RegNo, value: int)
    requires out.Valid() && IsSize(sz)
    modifies out, out.body, out.prol
    ensures out.Emitted(Encode(MovI(sz, r, Low(sz, value))))
  {
    hide CodeBuffer.Valid, CodeBuffer.Selected, CodeBuffer.Unselected, Assemble, NeedsRex, LE, Low;
    TailAfterHead(Parse(MovI(sz, r, Low(sz, value))));
    LELow(value, sz);
    if sz == 1 {
      LE1(value);
      LE1(Low(1, value));
      PutHead(out, 1, 0, 0, r, NeedsRex(1, r), 0xb0 + r % 8);
      out.Put8(value % 256);
      return;
    }
    PutHead(out, sz, 0, 0, r, false, 0xb8 + r % 8);
    if sz == 2 {
      out.Put16(value);
    } else if sz == 4 {
      out.Put32(value);
    } else {
      out.Put64(value);
    }
  }

  method EncodeMovSxI(out: CodeBuffer, r: RegNo, value: int)
    requires out.Valid()
    modifies out, out.body, out.prol
    ensures out.Emitted(Encode(MovSxI(r, value)))
  {
    hide CodeBuffer.Valid, CodeBuffer.Selected, CodeBuffer.Unselected, Assemble, ModRM, LE;
    TailAfterHead(Parse(MovSxI(r, value)));
    PutHead(out, 8, 0, 0, r, false, 0xc7);
    out.Put8(ModRM(3, 0, r));
    out.Put32(value);
  }

  method EmitMov(out: CodeBuffer, dst: Reg, value: int)
    requires out.Valid() && InTable(dst) && IsSize(RSize(dst)) && IsI64(value)
    modifies out, out.body, out.prol
    ensures out.Emitted(EncodeAll(Lower.MovCode(RSize(dst), X86No(dst), value)))
  {
    hide CodeBuffer.Valid, CodeBuffer.Selected, CodeBuffer.Unselected, Encode, EncodeAll, X86No;
    var sz, r := RSize(dst), X86No(dst);
    EncodeOne(Lower.MovCode(sz, r, value)[0]);
    if value == 0 {
      EncodeRR(out, OP_XOR_RM_R, if sz > 4 then 4 else sz, r, r);
      return;
    }
    if sz <= 4 {
      EncodeMovI(out, sz, r, value);
      return;
    }
    if IsI32(value) {
      EncodeMovSxI(out, r, value);
      return;
    }
    if 0 < value < P32 {
      LowSmall(4, value);
      EncodeMovI(out, 4, r, value);
      return;
    }
    EncodeMovI(out, 8, r, value);
  }

  lemma LELow(v: int, n: nat)
    requires IsSize(n)
    ensures LE(Low(n, v), n) == LE(v, n)
  {
    ModulusIsPow256(n);
    LowMod(n, v);
    LEMod(v, n);
  }

  lemma EncodeNil()
    ensures EncodeAll([]) == []
  {
  }

  lemma EncodeOne(i: Instr)
    ensures EncodeAll([i]) == Encode(i)
  {
    assert [i][1..] == [];
    assert Encode(i) + [] == Encode(i);
  }

  lemma ConcatAssoc(x: seq<Byte>, y: seq<Byte>, z: seq<Byte>)
    ensures x + (y + z) == (x + y) + z
  {
  }

  lemma {:induction false} EncodeAppend(a: seq<Instr>, b: seq<Instr>)
    ensures EncodeAll(a + b) == EncodeAll(a) + EncodeAll(b)
  {
    hide Encode;
    if a == [] {
      assert a + b == b;
    } else {
      EncodeAppend(a[1..], b);
      assert (a + b)[1..] == a[1..] + b && (a + b)[0] == a[0];
      ConcatAssoc(Encode(a[0]), EncodeAll(a[1..]), EncodeAll(b));
    }
  }

  lemma EncodeSnoc(a: seq<Instr>, i: Instr)
    ensures EncodeAll(a + [i]) == EncodeAll(a) + Encode(i)
  {
    EncodeAppend(a, [i]);
    EncodeOne(i);
  }

  method EncodeMovsxd(out: CodeBuffer, reg: RegNo, rm: RegNo)
    requires out.Valid()
    modifies out, out.body, out.prol
    ensures out.Emitted(Encode(Movsxd(reg, rm)))
  {
    hide CodeBuffer.Valid, CodeBuffer.Selected, CodeBuffer.Unselected, Assemble, ModRM;
    TailAfterHead(Parse(Movsxd(reg, rm)));
    PutHead(out, 8, reg, 0, rm, false, 0x63);
    out.Put8(ModRM(3, reg, rm));
  }

  method EncodeExtend(out: CodeBuffer, signed: bool, dsz: int, ssz: int, reg: RegNo, rm: RegNo)
    requires out.Valid()
    modifies out, out.body, out.prol
    ensures out.Emitted(Encode(Extend(signed, dsz, ssz, reg, rm)))
  {
    hide CodeBuffer.Valid, CodeBuffer.Selected, CodeBuffer.Unselected, Assemble, ModRM, NeedsRex;
    TailAfterHead(Parse(Extend(signed, dsz, ssz, reg, rm)));
    PutHead(out, dsz, reg, 0, rm, NeedsRex(ssz, rm), 0x0f);
    out.Put8((if signed then 0xbe else 0xb6) + (if ssz == 1 then 0 else 1));
    out.Put8(ModRM(3, reg, rm));
  }

  method EmitMovReg(out: CodeBuffer, dst: Reg, src: Reg)
    requires out.Valid() && InTable(dst) && InTable(src)
    modifies out, out.body, out.prol
    ensures out.Emitted(EncodeAll(Lower.MovRegCode(dst, src)))
  {
    hide CodeBuffer.Valid, CodeBuffer.Selected, CodeBuffer.Unselected, Encode, EncodeAll, X86No;
    var d, r := X86No(dst), X86No(src);
    EncodeOne(Lower.MovRegCode(dst, src)[0]);
    if dst.rsize > 0 && src.rsize > 0 && dst.rsize > src.rsize {
      if IsSigned(src) {
        if dst.rsize == 8 && src.rsize == 4 {
          EncodeMovsxd(out, d, r);
          return;
        }
        EncodeExtend(out, true, dst.rsize, src.rsize, d, r);
        return;
      }
      if dst.rsize == 8 && src.rsize == 4 {
        EncodeRR(out, OP_MOV_RM_R, 4, r, d);
        return;
      }
      EncodeExtend(out, false, dst.rsize, src.rsize, d, r);
      return;
    }
    EncodeRR(out, OP_MOV_RM_R, RSize(if dst.rsize < src.rsize then Resize(dst, src.rsize) else dst), r, d);
  }

  // ---- Sums ----

  method EmitAddReg(out: CodeBuffer, dst: Reg, lhs: Reg, rhs: Reg)
    requires out.Valid() && InTable(dst) && InTable(lhs) && InTable(rhs)
    modifies out, out.body, out.prol
    ensures out.Emitted(EncodeAll(Lower.AddRegCode(dst, lhs, rhs)))
  {
    hide CodeBuffer.Valid, CodeBuffer.Selected, CodeBuffer.Unselected, Encode, EncodeAll, Lower.MovRegCode, X86No;
    if lhs.rsize != rhs.rsize {
      var wide := if lhs.rsize > rhs.rsize then lhs else rhs;
      var narrow := if lhs.rsize > rhs.rsize then rhs else lhs;
      EmitMovReg(out, dst, narrow);
      EncodeRR(out, OP_ADD_RM_R, RSize(dst), X86No(wide), X86No(dst));
      EncodeSnoc(Lower.MovRegCode(dst, narrow), RR(OP_ADD_RM_R, RSize(dst), X86No(wide), X86No(dst)));
      return;
    }
    EncodeMem(out, OP_LEA, RSize(dst), X86No(dst), X86No(lhs), Scaled(X86No(rhs), 1), 0);
    EncodeOne(Lower.AddRegCode(dst, lhs, rhs)[0]);
  }

  method EmitSubReg(out: CodeBuffer, dst: Reg, lhs: Reg, rhs: Reg)
    requires out.Valid() && InTable(dst) && InTable(lhs) && InTable(rhs)
    modifies out, out.body, out.prol
    ensures out.Emitted(EncodeAll(Lower.SubRegCode(dst, lhs, rhs)))
  {
    hide CodeBuffer.Valid, CodeBuffer.Selected, CodeBuffer.Unselected, Encode, EncodeAll, Lower.MovRegCode, X86No;
    var d := X86No(dst);
    if lhs.rsize == rhs.rsize {
      EncodeRR(out, OP_MOV_RM_R, RSize(dst), X86No(lhs), d);
      EncodeRR(out, OP_SUB_RM_R, RSize(dst), X86No(rhs), d);
      EncodeOne(RR(OP_MOV_RM_R, RSize(dst), X86No(lhs), d));
      EncodeSnoc([RR(OP_MOV_RM_R, RSize(dst), X86No(lhs), d)], RR(OP_SUB_RM_R, RSize(dst), X86No(rhs), d));
      assert Lower.SubRegCode(dst, lhs, rhs)
          == [RR(OP_MOV_RM_R, RSize(dst), X86No(lhs), d)] + [RR(OP_SUB_RM_R, RSize(dst), X86No(rhs), d)];
      return;
    }
    if rhs.rsize < lhs.rsize {
      EmitMovReg(out, dst, rhs);
      EncodeRR(out, OP_SUB_RM_R, RSize(dst), X86No(lhs), d);
      EmitNeg(out, RSize(dst), d);
      ghost var sub := Lower.MovRegCode(dst, rhs) + [RR(OP_SUB_RM_R, RSize(dst), X86No(lhs), d)];
      EncodeSnoc(Lower.MovRegCode(dst, rhs), RR(OP_SUB_RM_R, RSize(dst), X86No(lhs), d));
      EncodeSnoc(sub, Neg(RSize(dst), d));
      assert Lower.SubRegCode(dst, lhs, rhs) == sub + [Neg(RSize(dst), d)];
      return;
    }
    EmitMovReg(out, dst, lhs);
    EncodeRR(out, OP_SUB_RM_R, RSize(dst), X86No(rhs), d);
    EncodeSnoc(Lower.MovRegCode(dst, lhs), RR(OP_SUB_RM_R, RSize(dst), X86No(rhs), d));
  }

  // ---- Conditions ----

  method EmitCondSet(out: CodeBuffer, dst: Reg, cond: nat) returns (ok: bool)
    requires out.Valid() && InTable(dst)
    modifies out, out.body, out.prol
    ensures ok <==> cond < |COND_CC|
    ensures ok ==> out.Emitted(EncodeAll(Lower.CondSetCode(cond, dst)))
    ensures !ok ==> out.Valid() && out.failed && out.bodyStream == old(out.bodyStream) && out.prolStream == old(out.prolStream)
  {
    hide CodeBuffer.Valid, CodeBuffer.Selected, CodeBuffer.Unselected, Encode, EncodeAll, Lower.MovRegCode, X86No, CondCode;
    if cond >= |COND_CC| {
      out.Fail();
      return false;
    }
    EncodeSet(out, CondCode(cond), X86No(dst));
    EmitMovReg(out, Lower.CondWide(dst), dst.(rsize := 1, dtype := NoType));
    EncodeOne(SetCC(CondCode(cond), X86No(dst)));
    EncodeAppend([SetCC(CondCode(cond), X86No(dst))], Lower.CondMove(dst));
    return true;
  }

  method EncodeSet(out: CodeBuffer, cc: int, r: RegNo)
    requires out.Valid() && 0 <= cc < 16
    modifies out, out.body, out.prol
    ensures out.Emitted(Encode(SetCC(cc, r)))
  {
    hide CodeBuffer.Valid, CodeBuffer.Selected, CodeBuffer.Unselected, Assemble, ModRM;
    PutHead(out, 4, 0, 0, r, NeedsRex(1, r), 0x0f);
    out.Put8(0x90 + cc);
    out.Put8(ModRM(3, 0, r));
    TailAfterHead(Parse(SetCC(cc, r)));
  }

  // ---- Comparisons ----

  method EmitCmp(out: CodeBuffer, lhs: Reg, rhs: int)
    requires out.Valid() && InTable(lhs)
    modifies out, out.body, out.prol
    ensures out.Emitted(Encode(AluI(ALU_CMP, RSize(lhs), X86No(lhs), rhs)))
  {
    AluRI(out, ALU_CMP, RSize(lhs), X86No(lhs), rhs);
  }

  method EmitCmpReg(out: CodeBuffer, lhs: Reg, rhs: Reg, cond: nat)
    requires out.Valid() && InTable(lhs) && InTable(rhs) && lhs.rsize > 0 && rhs.rsize > 0
    modifies out, out.body, out.prol
    ensures out.Emitted(EncodeAll(Compare.CmpRegCode(lhs, rhs, cond)))
  {
    hide CodeBuffer.Valid, CodeBuffer.Selected, CodeBuffer.Unselected, Encode, EncodeAll, Lower.MovRegCode, X86No;
    if lhs.rsize == rhs.rsize {
      EncodeRR(out, OP_CMP_RM_R, RSize(lhs), X86No(rhs), X86No(lhs));
      EncodeOne(RR(OP_CMP_RM_R, RSize(lhs), X86No(rhs), X86No(lhs)));
      return;
    }
    var tmp := Compare.Temp(if lhs.rsize > rhs.rsize then lhs.rsize else rhs.rsize);
    TempNumber(tmp.rsize);
    if rhs.rsize < lhs.rsize {
      EmitMovReg(out, tmp, rhs);
      EncodeRR(out, OP_CMP_RM_R, tmp.rsize, X86No(tmp), X86No(lhs));
      EncodeSnoc(Lower.MovRegCode(tmp, rhs), RR(OP_CMP_RM_R, tmp.rsize, RAX, X86No(lhs)));
      return;
    }
    if cond == Compare.EQ || cond == Compare.NE {
      EncodeRR(out, OP_CMP_RM_R, tmp.rsize, X86No(rhs), X86No(lhs));
      EncodeOne(RR(OP_CMP_RM_R, tmp.rsize, X86No(rhs), X86No(lhs)));
      return;
    }
    EmitMovReg(out, tmp, lhs);
    EncodeRR(out, OP_CMP_RM_R, tmp.rsize, X86No(rhs), X86No(tmp));
    EncodeSnoc(Lower.MovRegCode(tmp, lhs), RR(OP_CMP_RM_R, tmp.rsize, X86No(rhs), RAX));
  }

  lemma TempNumber(w: nat)
    ensures X86No(Compare.Temp(w)) == RAX
  {
  }

  // ---- Addresses of elements ----

  method EmitBase(out: CodeBuffer, obj: Reg)
    requires out.Valid() && InTable(obj)
    modifies out, out.body, out.prol
    ensures out.Emitted(EncodeAll(Addr.BaseCode(obj)))
  {
    hide CodeBuffer.Valid, CodeBuffer.Selected, CodeBuffer.Unselected, Encode, EncodeAll, Lower.MovRegCode, X86No;
    if obj.kind == Stack {
      EncodeMem(out, OP_LEA, 8, RAX, RBP, NoIndex, -obj.offset);
      EncodeOne(Mem(OP_LEA, 8, RAX, RBP, NoIndex, -obj.offset));
    } else {
      EmitMovReg(out, Addr.PTR, obj);
    }
  }

  method EmitIndex(out: CodeBuffer, index: Reg)
    requires out.Valid() && InTable(index)
    modifies out, out.body, out.prol
    ensures out.Emitted(EncodeAll(Addr.IndexCode(index)))
  {
    hide CodeBuffer.Valid, CodeBuffer.Selected, CodeBuffer.Unselected, Encode, Lower.MovRegCode, X86No;
    if index.rsize == 1 || index.rsize == 2 {
      EmitMovReg(out, Resize(index, 8), index);
    }
  }

  method EmitImul(out: CodeBuffer, r: RegNo, elemSize: nat)
    requires out.Valid()
    modifies out, out.body, out.prol
    ensures out.Emitted(Encode(ImulI(r, elemSize)))
  {
    hide CodeBuffer.Valid, CodeBuffer.Selected, CodeBuffer.Unselected, Assemble, ModRM, LE, B;
    TailAfterHead(Parse(ImulI(r, elemSize)));
    if elemSize <= 127 {
      PutHead(out, 8, r, 0, r, false, 0x6b);
      out.Put8(ModRM(3, r, r));
      out.Put8(B(elemSize));
    } else {
      PutHead(out, 8, r, 0, r, false, 0x69);
      out.Put8(ModRM(3, r, r));
      out.Put32(elemSize);
    }
  }

  method EmitScaled(out: CodeBuffer, dst: Reg, index: Reg, elemSize: nat)
    requires out.Valid() && InTable(dst) && InTable(index)
    modifies out, out.body, out.prol
    ensures out.Emitted(EncodeAll(Addr.ScaledCode(dst, index, elemSize)))
  {
    hide CodeBuffer.Valid, CodeBuffer.Selected, CodeBuffer.Unselected, Encode, EncodeAll, Lower.MovRegCode, Lower.AddRegCode, X86No;
    if elemSize == 1 || elemSize == 2 || elemSize == 4 || elemSize == 8 {
      EncodeMem(out, OP_LEA, RSize(dst), X86No(dst), RAX, Scaled(X86No(index), elemSize), 0);
      EncodeOne(Mem(OP_LEA, RSize(dst), X86No(dst), RAX, Scaled(X86No(index), elemSize), 0));
      return;
    }
    EmitMovReg(out, Addr.IDX, Resize(index, 8));
    EmitImul(out, RCX, elemSize);
    EmitAddReg(out, dst, Addr.PTR, Addr.IDX);
    var mv := Lower.MovRegCode(Addr.IDX, Resize(index, 8));
    EncodeSnoc(mv, ImulI(RCX, elemSize));
    EncodeAppend(mv + [ImulI(RCX, elemSize)], Lower.AddRegCode(dst, Addr.PTR, Addr.IDX));
  }

  /** The address of an element. */
  method EmitElemAddr(out: CodeBuffer, dst: Reg, obj: Reg, index: Reg, elemSize: nat)
    requires out.Valid() && InTable(dst) && InTable(obj) && InTable(index)
    modifies out, out.body, out.prol
    ensures out.Emitted(EncodeAll(Addr.ElemAddrCode(dst, obj, index, elemSize)))
  {
    hide CodeBuffer.Valid, CodeBuffer.Selected, CodeBuffer.Unselected, EncodeAll, Addr.BaseCode, Addr.IndexCode, Addr.ScaledCode;
    EmitBase(out, obj);
    EmitIndex(out, index);
    EmitScaled(out, dst, index, elemSize);
    EncodeAppend(Addr.BaseCode(obj), Addr.IndexCode(index));
    EncodeAppend(Addr.BaseCode(obj) + Addr.IndexCode(index), Addr.ScaledCode(dst, index, elemSize));
  }

  // ---- Stores ----

  method EmitMemImm(out: CodeBuffer, sz: int, base: RegNo, offset: int, value: int)
    requires out.Valid() && IsSize(sz)
    modifies out, out.body, out.prol
    ensures out.Emitted(Encode(MovMemI(sz, base, offset, if sz >= 8 then value else Signed(sz, value))))
  {
    hide CodeBuffer.Valid, CodeBuffer.Selected, CodeBuffer.Unselected, Assemble, MemOperand, LE, Signed;
    var imm := if sz >= 8 then value else Signed(sz, value);
    TailAfterHead(Parse(MovMemI(sz, base, offset, imm)));
    PutHead(out, sz, 0, 0, base, false, ByteOp(sz, 0xc7));
    PutMemOperand(out, 0, base, NoIndex, offset);
    if sz < 8 {
      Stores.LESigned(value, sz);
    }
    if sz == 1 {
      out.Put8(value % 256);
      LE1(value);
    } else if sz == 2 {
      out.Put16(value);
    } else {
      out.Put32(value);
    }
  }

  method EmitStrImm(out: CodeBuffer, dst: Reg, value: int, offset: int)
    requires out.Valid() && InTable(dst) && IsI64(value)
    requires dst.dtype.base.Some? && IsSize(dst.dtype.base.value.size)
    modifies out, out.body, out.prol
    ensures out.Emitted(EncodeAll(Stores.StrImmCode(dst.dtype.base.value.size, X86No(dst), value, offset)))
  {
    hide CodeBuffer.Valid, CodeBuffer.Selected, CodeBuffer.Unselected, Encode, EncodeAll, X86No, Signed;
    var sz, base := dst.dtype.base.value.size, X86No(dst);
    ghost var code := Stores.StrImmCode(sz, base, value, offset);
    EncodeOne(code[0]);
    if sz >= 8 && !IsI32(value) {
      EmitMemImm(out, 4, base, offset, value);
      EmitMemImm(out, 4, base, offset + 4, value % P64 / P32);
      EncodeSnoc([code[0]], code[1]);
      assert code == [code[0]] + [code[1]];
      return;
    }
    EmitMemImm(out, sz, base, offset, value);
  }

  method EmitStrReg(out: CodeBuffer, dst: Reg, src: Reg, offset: int)
    requires out.Valid() && InTable(dst) && InTable(src)
    modifies out, out.body, out.prol
    ensures out.Emitted(Encode(Mem(OP_MOV_RM_R, RSize(src), X86No(src), X86No(dst), NoIndex, offset)))
  {
    hide CodeBuffer.Valid, CodeBuffer.Selected, CodeBuffer.Unselected, Encode, X86No;
    EncodeMem(out, OP_MOV_RM_R, RSize(src), X86No(src), X86No(dst), NoIndex, offset);
  }

  /** One turn of the store loop, in bytes. */
  lemma PackedStep(base: RegNo, offset: int, src: RegNo, n: nat)
    requires n > 0
    ensures var c := Stores.Chunk(n);
      EncodeAll(Stores.StorePackedCode(base, offset, src, n))
        == Encode(Mem(OP_MOV_RM_R, c, src, base, NoIndex, offset))
         + ((if n > c then Encode(ShiftI(SH_SHR, 8, src, c * 8)) else [])
            + EncodeAll(Stores.StorePackedCode(base, offset + c, src, n - c)))
  {
    hide Encode;
    var c := Stores.Chunk(n);
    var i, j := Mem(OP_MOV_RM_R, c, src, base, NoIndex, offset), ShiftI(SH_SHR, 8, src, c * 8);
    var rest := Stores.StorePackedCode(base, offset + c, src, n - c);
    EncodeCons(i, (if n > c then [j] else []) + rest);
    if n > c {
      EncodeCons(j, rest);
      assert Stores.StorePackedCode(base, offset, src, n) == [i] + ([j] + rest);
    } else {
      assert [] + rest == rest == [];
      assert Stores.StorePackedCode(base, offset, src, n) == [i] + [];
    }
  }

  lemma EncodeCons(i: Instr, code: seq<Instr>)
    ensures EncodeAll([i] + code) == Encode(i) + EncodeAll(code)
  {
    assert ([i] + code)[1..] == code;
  }

  method EmitStorePacked(out: CodeBuffer, base: Reg, offset: int, src: Reg, nbytes: nat)
    requires out.Valid() && InTable(base) && InTable(src)
    modifies out, out.body, out.prol
    ensures out.Emitted(EncodeAll(Stores.StorePackedCode(X86No(base), offset, X86No(src), nbytes)))
  {
    hide CodeBuffer.Valid, CodeBuffer.Selected, CodeBuffer.Unselected, Encode, EncodeAll, X86No, Stores.StorePackedCode;
    var pos: nat, left: nat := 0, nbytes;
    ghost var code := EncodeAll(Stores.StorePackedCode(X86No(base), offset, X86No(src), nbytes));
    ghost var done: seq<Byte> := [];
    while left > 0
      invariant out.Emitted(done)
      invariant code == done + EncodeAll(Stores.StorePackedCode(X86No(base), offset + pos, X86No(src), left))
      decreases left
    {
      var chunk := Stores.Chunk(left);
      PackedStep(X86No(base), offset + pos, X86No(src), left);
      EmitStrReg(out, base, Resize(src, chunk), offset + pos);
      done := done + Encode(Mem(OP_MOV_RM_R, chunk, X86No(src), X86No(base), NoIndex, offset + pos));
      left := left - chunk;
      pos := pos + chunk;
      if left > 0 {
        ShiftRI(out, SH_SHR, 8, X86No(src), chunk * 8);
        done := done + Encode(ShiftI(SH_SHR, 8, X86No(src), chunk * 8));
      }
    }
    PackedNil(X86No(base), offset + pos, X86No(src));
  }

  lemma PackedNil(base: RegNo, offset: int, src: RegNo)
    ensures EncodeAll(Stores.StorePackedCode(base, offset, src, 0)) == []
  {
  }

  method EmitZerofill(out: CodeBuffer, base: Reg, offset: int, size: nat)
    requires out.Valid() && InTable(base)
    modifies out, out.body, out.prol
    ensures out.Emitted(EncodeAll(Stores.ZerofillCode(X86No(base), offset, size)))
  {
    hide CodeBuffer.Valid, CodeBuffer.Selected, CodeBuffer.Unselected, Encode, EncodeAll;
    var zero := Reg(Scratch, 1, 8, NoType);
    EncodeRR(out, OP_XOR_RM_R, 4, X86No(zero), X86No(zero));
    ghost var done := [RR(OP_XOR_RM_R, 4, RCX, RCX)];
    ghost var code := Stores.ZerofillCode(X86No(base), offset, size);
    EncodeOne(done[0]);
    var left: nat, off, rsize: nat := size, offset, 8;
    while left > 0
      invariant IsSize(rsize) && out.Emitted(EncodeAll(done))
      invariant code == done + Stores.ZeroStores(X86No(base), off, left, rsize)
      decreases rsize
    {
      while left >= rsize
        invariant out.Emitted(EncodeAll(done))
        invariant code == done + Stores.ZeroStores(X86No(base), off, left, rsize)
        decreases left
      {
        ghost var i := Mem(OP_MOV_RM_R, rsize, RCX, X86No(base), NoIndex, off);
        EmitStrReg(out, base, Resize(zero, rsize), off);
        EncodeSnoc(done, i);
        assert done + Stores.ZeroStores(X86No(base), off, left, rsize)
            == (done + [i]) + Stores.ZeroStores(X86No(base), off + rsize, left - rsize, rsize);
        done := done + [i];
        left := left - rsize;
        off := off + rsize;
      }
      if rsize == 1 {
        break;
      }
      rsize := rsize / 2;
    }
    assert done == code;
  }

  // ---- Frames ----

  method PutPush(out: CodeBuffer, r: RegNo)
    requires out.Valid()
    modifies out, out.body, out.prol
    ensures out.Emitted(Encode(Push(r)))
  {
    hide CodeBuffer.Valid, CodeBuffer.Selected, CodeBuffer.Unselected, Assemble;
    PutHead(out, 4, 0, 0, r, false, 0x50 + r % 8);
    TailAfterHead(Parse(Push(r)));
  }

  method PutPop(out: CodeBuffer, r: RegNo)
    requires out.Valid()
    modifies out, out.body, out.prol
    ensures out.Emitted(Encode(Pop(r)))
  {
    hide CodeBuffer.Valid, CodeBuffer.Selected, CodeBuffer.Unselected, Assemble;
    PutHead(out, 4, 0, 0, r, false, 0x58 + r % 8);
    TailAfterHead(Parse(Pop(r)));
  }

  lemma {:induction false} PushesSnoc(rs: seq<RegNo>, r: RegNo)
    ensures EncodeAll(Frames.Pushes(rs + [r])) == EncodeAll(Frames.Pushes(rs)) + Encode(Push(r))
  {
    hide Encode, EncodeAll;
    PushesAppend(rs, r);
    EncodeSnoc(Frames.Pushes(rs), Push(r));
  }

  lemma {:induction false} PushesAppend(rs: seq<RegNo>, r: RegNo)
    ensures Frames.Pushes(rs + [r]) == Frames.Pushes(rs) + [Push(r)]
  {
    if rs == [] {
      assert [r][1..] == [];
    } else {
      PushesAppend(rs[1..], r);
      assert (rs + [r])[1..] == rs[1..] + [r];
    }
  }

  lemma CalleesSoFar(n: nat)
    requires n <= |CALLEE_REGS|
    ensures Frames.CalleeSeq(0) == []
    ensures forall i :: 0 <= i < n ==> Frames.CalleeSeq(i + 1) == Frames.CalleeSeq(i) + [CALLEE_REGS[i]]
  {
  }

  method PutPushes(out: CodeBuffer, locals: bool, nregs: nat)
    requires out.Valid() && nregs <= |CALLEE_REGS|
    modifies out, out.body, out.prol
    ensures out.Emitted(EncodeAll(Frames.Pushes((if locals then [RBP] else []) + Frames.CalleeSeq(nregs))))
  {
    hide CodeBuffer.Valid, CodeBuffer.Selected, CodeBuffer.Unselected, Encode, EncodeAll, Frames.Pushes, Frames.CalleeSeq;
    CalleesSoFar(nregs);
    ghost var rs: seq<RegNo> := [];
    assert EncodeAll(Frames.Pushes(rs)) == [] by { PushesNil(); }
    if locals {
      PutPush(out, RBP);
      PushesSnoc(rs, RBP);
      rs := rs + [RBP];
    }
    for i := 0 to nregs
      invariant rs == (if locals then [RBP] else []) + Frames.CalleeSeq(i)
      invariant out.Emitted(EncodeAll(Frames.Pushes(rs)))
    {
      PutPush(out, CALLEE_REGS[i]);
      PushesSnoc(rs, CALLEE_REGS[i]);
      rs := rs + [CALLEE_REGS[i]];
    }
  }

  lemma PushesNil()
    ensures EncodeAll(Frames.Pushes([])) == []
  {
  }

  /** The first pop takes the register pushed last. */
  lemma PopsStep(rs: seq<RegNo>, r: RegNo)
    ensures EncodeAll(Frames.Pops(rs + [r])) == Encode(Pop(r)) + EncodeAll(Frames.Pops(rs))
  {
    hide Encode;
    assert (rs + [r])[..|rs|] == rs;
    assert Frames.Pops(rs + [r])[1..] == Frames.Pops(rs);
  }

  lemma CalleeSnoc(first: seq<RegNo>, i: nat)
    requires i < |CALLEE_REGS|
    ensures first + Frames.CalleeSeq(i + 1) == first + Frames.CalleeSeq(i) + [CALLEE_REGS[i]]
  {
  }

  lemma CalleeNone(first: seq<RegNo>)
    ensures first + Frames.CalleeSeq(0) == first
  {
  }

  lemma PopsNil()
    ensures EncodeAll(Frames.Pops([])) == []
  {
  }

  /** Pop the callee registers, the last pushed first. */
  method PutCalleePops(out: CodeBuffer, nregs: nat, ghost first: seq<RegNo>) returns (ghost done: seq<Byte>)
    requires out.Valid() && nregs <= |CALLEE_REGS|
    modifies out, out.body, out.prol
    ensures out.Emitted(done)
    ensures EncodeAll(Frames.Pops(first + Frames.CalleeSeq(nregs))) == done + EncodeAll(Frames.Pops(first))
  {
    hide CodeBuffer.Valid, CodeBuffer.Selected, CodeBuffer.Unselected, Encode, EncodeAll, Frames.Pops, Frames.CalleeSeq;
    ghost var code := EncodeAll(Frames.Pops(first + Frames.CalleeSeq(nregs)));
    done := [];
    var i: nat := nregs;
    while i > 0
      invariant i <= nregs && out.Emitted(done)
      invariant code == done + EncodeAll(Frames.Pops(first + Frames.CalleeSeq(i)))
    {
      i := i - 1;
      PutPop(out, CALLEE_REGS[i]);
      PopsStep(first + Frames.CalleeSeq(i), CALLEE_REGS[i]);
      CalleeSnoc(first, i);
      done := done + Encode(Pop(CALLEE_REGS[i]));
    }
    CalleeNone(first);
  }

  method PutPops(out: CodeBuffer, locals: bool, nregs: nat)
    requires out.Valid() && nregs <= |CALLEE_REGS|
    modifies out, out.body, out.prol
    ensures out.Emitted(EncodeAll(Frames.Pops((if locals then [RBP] else []) + Frames.CalleeSeq(nregs))))
  {
    hide CodeBuffer.Valid, CodeBuffer.Selected, CodeBuffer.Unselected, Encode, EncodeAll, Frames.Pops, Frames.CalleeSeq;
    ghost var first: seq<RegNo> := if locals then [RBP] else [];
    ghost var done := PutCalleePops(out, nregs, first);
    PopsNil();
    if locals {
      PutPop(out, RBP);
      PopsStep([], RBP);
      assert first == [] + [RBP];
    }
  }

  method PutAdjust(out: CodeBuffer, digit: Bits3, n: nat)
    requires out.Valid()
    modifies out, out.body, out.prol
    ensures out.Emitted(EncodeAll(Frames.Adjust(digit, n)))
  {
    hide CodeBuffer.Valid, CodeBuffer.Selected, CodeBuffer.Unselected, Encode;
    if n > 0 {
      AluRI(out, digit, 8, RSP, n);
      EncodeOne(AluI(digit, 8, RSP, n));
    }
  }

  method PutPrologue(out: CodeBuffer, pc: Frames.FrameInfo)
    requires out.Valid() && Frames.Supported(pc)
    modifies out, out.body, out.prol
    ensures out.Emitted(EncodeAll(Frames.PrologueCode(pc)))
  {
    hide CodeBuffer.Valid, CodeBuffer.Selected, CodeBuffer.Unselected;
    hide Encode, EncodeAll, Frames.Pushes, Frames.StackSize, Frames.Adjust, Frames.CalleeSeq;
    PutPushes(out, pc.locals > 0, pc.nregs);
    EncodeNil();
    if pc.locals > 0 {
      if pc.calls {
        EncodeMem(out, OP_LEA, 8, RBP, RSP, NoIndex, -Frames.SHADOW);
      } else {
        EncodeRR(out, OP_MOV_RM_R, 8, RSP, RBP);
      }
      EncodeOne(Frames.SetFrame(pc)[0]);
    }
    PutAdjust(out, ALU_SUB, Frames.StackSize(pc));
    EncodeAppend(Frames.SetFrame(pc), Frames.Adjust(ALU_SUB, Frames.StackSize(pc)));
    EncodeAppend(Frames.Pushes(Frames.SavedRegs(pc)), Frames.SetFrame(pc) + Frames.Adjust(ALU_SUB, Frames.StackSize(pc)));
  }

  method PutEpilogue(out: CodeBuffer, pc: Frames.FrameInfo)
    requires out.Valid() && Frames.Supported(pc)
    modifies out, out.body, out.prol
    ensures out.Emitted(EncodeAll(Frames.EpilogueCode(pc)))
  {
    hide CodeBuffer.Valid, CodeBuffer.Selected, CodeBuffer.Unselected;
    hide Encode, EncodeAll, Frames.Pops, Frames.StackSize, Frames.Adjust;
    PutAdjust(out, ALU_ADD, Frames.StackSize(pc));
    PutPops(out, pc.locals > 0, pc.nregs);
    EncodeAppend(Frames.Adjust(ALU_ADD, Frames.StackSize(pc)), Frames.Pops(Frames.SavedRegs(pc)));
  }

  /** The prologue goes to its own buffer; the epilogue continues the body. */
  method EmitFnPrologueEpilogue(out: CodeBuffer, pc: Frames.FrameInfo)
    requires out.Valid() && !out.emitToProl && Frames.Supported(pc)
    modifies out, out.body, out.prol
    ensures out.Valid() && !out.emitToProl && out.earlier == old(out.earlier)
    ensures out.prolStream == old(out.prolStream) + EncodeAll(Frames.PrologueCode(pc))
    ensures out.bodyStream == old(out.bodyStream) + EncodeAll(Frames.EpilogueCode(pc))
  {
    hide CodeBuffer.Valid, EncodeAll, Frames.PrologueCode, Frames.EpilogueCode;
    out.Select(true);
    PutPrologue(out, pc);
    out.Select(false);
    PutEpilogue(out, pc);
  }
}
