// Comparisons on x86-64: the emitted CMP and the flags it leaves, for operands of any widths.
module X86Compare {
  import opened Words
  import opened Registers
  import opened X86Flags
  import opened X86Instr
  import opened X86RoundTrip
  import opened X86Machine
  import opened X86Lower
  import X86Stores

  // ---- With a constant ----

  /** What the immediate field holds: a byte, the low 16 bits or the low 32, sign-extended. */
  function ImmUsed(sz: nat, c: int): int {
    if sz == 1 then Signed(1, c) else if IsI8(c) then c else if sz == 2 then Signed(2, c) else Signed(4, c)
  }

  function CmpImmInstr(sz: nat, r: RegNo, c: int): Instr { AluI(ALU_CMP, sz, r, ImmUsed(sz, c)) }

  /** Of the four immediate bytes that are put, a 16-bit compare reads two. */
  function Stray(sz: nat, c: int): seq<Byte> { if sz == 2 && !IsI8(c) then LE(c / P16, 2) else [] }

  /** For every constant the bytes put are a compare with what the field holds, and the two
      stray bytes if there are any. */
  lemma CmpImmDecodes(sz: nat, r: RegNo, c: int, rest: seq<Byte>)
    requires IsSize(sz)
    ensures Decode(Encode(AluI(ALU_CMP, sz, r, c)) + rest) == Got(CmpImmInstr(sz, r, c), Stray(sz, c) + rest)
  {
    hide Encode, Decode, LE;
    assert [] + rest == rest;
    if sz == 1 {
      ByteDecodes(r, c, rest);
    } else if IsI8(c) {
      RoundTrip(AluI(ALU_CMP, sz, r, c), rest);
    } else if sz == 2 {
      WordDecodes(r, c, rest);
    } else {
      DwordDecodes(sz, r, c, rest);
    }
  }

  lemma ByteDecodes(r: RegNo, c: int, rest: seq<Byte>)
    ensures Decode(Encode(AluI(ALU_CMP, 1, r, c)) + rest) == Got(CmpImmInstr(1, r, c), rest)
  {
    SignedRange(1, c);
    assert B(Signed(1, c)) == B(c);
    RoundTrip(AluI(ALU_CMP, 1, r, Signed(1, c)), rest);
    assert Encode(AluI(ALU_CMP, 1, r, c)) == Encode(AluI(ALU_CMP, 1, r, Signed(1, c)));
  }

  lemma DwordDecodes(sz: nat, r: RegNo, c: int, rest: seq<Byte>)
    requires (sz == 4 || sz == 8) && !IsI8(c)
    ensures Decode(Encode(AluI(ALU_CMP, sz, r, c)) + rest) == Got(CmpImmInstr(sz, r, c), rest)
  {
    var (q, v) := (Parse(AluI(ALU_CMP, sz, r, c)), Signed(4, c));
    SignedRange(4, c);
    X86Stores.LESigned(c, 4);
    assert q.tail + rest == [ModRM(3, ALU_CMP, r)] + (LE(v, 4) + rest);
    Group1RoundTrip(PrefixesOf(q), ALU_CMP, sz, r, 4, v, rest);
    AssembleRoundTrip(q, rest);
    assert DecodeOp(PrefixesOf(q), q.op, q.tail + rest) == DecodeGroup1(PrefixesOf(q), sz, 4, q.tail + rest);
  }

  lemma WordDecodes(r: RegNo, c: int, rest: seq<Byte>)
    requires !IsI8(c)
    ensures Decode(Encode(AluI(ALU_CMP, 2, r, c)) + rest) == Got(CmpImmInstr(2, r, c), Stray(2, c) + rest)
  {
    var (q, v) := (Parse(AluI(ALU_CMP, 2, r, c)), Signed(2, c));
    SignedRange(2, c);
    X86Stores.LESigned(c, 2);
    LESplit(c, 2, 2);
    assert DropBytes(c, 2) == c / P16;
    assert q.tail + rest == [ModRM(3, ALU_CMP, r)] + (LE(v, 2) + (Stray(2, c) + rest));
    Group1RoundTrip(PrefixesOf(q), ALU_CMP, 2, r, 2, v, Stray(2, c) + rest);
    AssembleRoundTrip(q, rest);
    assert DecodeOp(PrefixesOf(q), q.op, q.tail + rest) == DecodeGroup1(PrefixesOf(q), 2, 2, q.tail + rest);
  }

  /** Below 65536 they are two zeros: an addition to memory that the compiler never emits, so the
      branch behind it does not follow the compare. */
  lemma StrayIsNoBranch(c: int, rest: seq<Byte>)
    requires 0x80 <= c < P16
    ensures Stray(2, c) == [0, 0] && Decode(Stray(2, c) + rest) == Bad
  {
    LE2(c / P16);
    var bs := Stray(2, c) + rest;
    assert bs[0] == 0 && bs[1..] == [0] + rest;
    var p := Prefixes(false, false, false, false, false, false);
    assert Decode(bs) == DecodeOp(p, 0, [0] + rest);
    assert DecodeOperand(p, [0] + rest).MemOperandOf?;
  }

  lemma SelfCompare(w: nat, a: nat, b: nat)
    requires IsSize(w) && FitsU(w, a) && FitsU(w, b)
    ensures XCompare(w, a, b).zf <==> a == b
  {
    hide Low, Signed;
    LowDifference(w, a, b);
  }

  lemma ImmFits(sz: nat, c: int)
    requires IsSize(sz)
    ensures IsI32(ImmUsed(sz, c)) && (sz == 1 ==> IsI8(ImmUsed(sz, c)))
  {
    SignedRange(1, c);
    SignedRange(2, c);
    SignedRange(4, c);
  }

  lemma CmpImmFlags(sz: nat, r: RegNo, c: int, s: State)
    requires IsSize(sz)
    ensures var i := CmpImmInstr(sz, r, c);
      Straight(i) && Compares(i) && FlagsOf(i, s) == Comparison(sz, s.regs[r], ImmUsed(sz, c))
  {
    hide ImmUsed;
    ImmFits(sz, c);
  }

  /** The constant reaches the comparison whole, and nothing else does. */
  predicate ConstFits(sz: nat, c: int) { (sz == 2 ==> IsI8(c)) && (sz == 8 ==> IsI32(c)) }

  /** An operand is compared with the constant (both at its width), in every state and with
      nothing else read, exactly then: at 16 bits a byte, at 64 bits 32 bits signed. */
  lemma CmpImmExact(sz: nat, r: RegNo, c: int)
    requires IsSize(sz) && IsI64(c)
    ensures Stray(sz, c) == [] && (forall s: State :: FlagsOf(StraightCmp(sz, r, c), s) == Comparison(sz, s.regs[r], c))
      <==> ConstFits(sz, c)
  {
    hide XCompare, FlagsOf, ImmUsed, Low;
    forall s: State ensures FlagsOf(StraightCmp(sz, r, c), s) == Comparison(sz, s.regs[r], ImmUsed(sz, c)) {
      CmpImmFlags(sz, r, c, s);
    }
    ImmUsedExact(sz, c);
    var (u, v) := (Low(sz, ImmUsed(sz, c)), Low(sz, c));
    LowLow(sz, c);
    LowLow(sz, ImmUsed(sz, c));
    if u != v {
      var s := Filled(v);
      SelfCompare(sz, v, v);
      SelfCompare(sz, v, u);
      assert s.regs[r] == v;
      assert FlagsOf(StraightCmp(sz, r, c), s) != Comparison(sz, s.regs[r], c);
    }
  }

  function StraightCmp(sz: nat, r: RegNo, c: int): (i: Instr)
    requires IsSize(sz)
    ensures Straight(i) && Compares(i) && i == CmpImmInstr(sz, r, c)
  {
    ImmFits(sz, c);
    CmpImmInstr(sz, r, c)
  }

  lemma ImmUsedExact(sz: nat, c: int)
    requires IsSize(sz) && IsI64(c)
    ensures Low(sz, ImmUsed(sz, c)) == Low(sz, c) <==> sz != 8 || IsI32(c)
  {
    SignedLow(1, c);
    SignedLow(2, c);
    SignedLow(4, c);
    SignedRange(4, c);
    if sz == 8 {
      if IsI32(c) {
        SignedFits(4, c);
      } else {
        SignedFits(8, c);
        SignedFits(8, ImmUsed(8, c));
        SignedLow(8, c);
        SignedLow(8, ImmUsed(8, c));
      }
    }
  }

  /** All registers hold v. */
  ghost function Filled(v: U64): State { State(seq(16, i => v), (x: int) => 0) }

  // ---- With a register ----

  const EQ := 0
  const NE := 1

  function Temp(rsize: nat): Reg { Reg(Scratch, 0, rsize, NoType) }

  /** Equality of a narrower left operand is decided without extending it. */
  predicate Raw(lhs: Reg, rhs: Reg, cond: nat) { lhs.rsize < rhs.rsize && (cond == EQ || cond == NE) }

  function CmpRegCode(lhs: Reg, rhs: Reg, cond: nat): seq<Instr>
    requires InTable(lhs) && InTable(rhs)
  {
    var w := Wider(lhs, rhs).rsize;
    if lhs.rsize == rhs.rsize then [RR(OP_CMP_RM_R, RSize(lhs), X86No(rhs), X86No(lhs))]
    else if rhs.rsize < lhs.rsize then MovRegCode(Temp(w), rhs) + [RR(OP_CMP_RM_R, w, RAX, X86No(lhs))]
    else if Raw(lhs, rhs, cond) then [RR(OP_CMP_RM_R, w, X86No(rhs), X86No(lhs))]
    else MovRegCode(Temp(w), lhs) + [RR(OP_CMP_RM_R, w, X86No(rhs), RAX)]
  }

  /** The move to RAX overwrites the operand it is compared with. */
  predicate Clobbers(lhs: Reg, rhs: Reg, cond: nat)
    requires InTable(lhs) && InTable(rhs)
  {
    || (rhs.rsize < lhs.rsize && X86No(lhs) == RAX)
    || (lhs.rsize < rhs.rsize && !Raw(lhs, rhs, cond) && X86No(rhs) == RAX)
  }

  /** The two numbers that are compared. */
  ghost function LeftUsed(s: State, lhs: Reg, rhs: Reg, cond: nat): int
    requires InTable(lhs) && InTable(rhs)
  {
    if Clobbers(lhs, rhs, cond) && rhs.rsize < lhs.rsize then ValueOf(s, rhs)
    else if Raw(lhs, rhs, cond) then s.regs[X86No(lhs)]
    else ValueOf(s, lhs)
  }

  ghost function RightUsed(s: State, lhs: Reg, rhs: Reg, cond: nat): int
    requires InTable(lhs) && InTable(rhs)
  {
    if Clobbers(lhs, rhs, cond) && lhs.rsize < rhs.rsize then ValueOf(s, lhs) else ValueOf(s, rhs)
  }

  lemma LastCompare(code: seq<Instr>, w: nat, reg: RegNo, rm: RegNo, s: State)
    requires StraightCode(code) && IsSize(w)
    ensures var all := code + [RR(OP_CMP_RM_R, w, reg, rm)]; var t := Run(code, s);
      EndsInCompare(all) && FlagsAfter(all, s) == XCompare(w, Read(t, w, rm), Read(t, w, reg))
  {
    var all := code + [RR(OP_CMP_RM_R, w, reg, rm)];
    assert all[..|all| - 1] == code;
  }

  lemma OwnValue(s: State, r: Reg)
    requires X86Lower.Operand(r)
    ensures Read(s, r.rsize, X86No(r)) == Low(r.rsize, ValueOf(s, r))
  {
    WideValue(s, r, r.rsize);
  }

  /** The flags of the emitted comparison, whatever registers coincide. */
  lemma CmpRegMeaning(lhs: Reg, rhs: Reg, cond: nat, s: State)
    requires X86Lower.Operand(lhs) && X86Lower.Operand(rhs)
    ensures var (code, w) := (CmpRegCode(lhs, rhs, cond), Wider(lhs, rhs).rsize);
      EndsInCompare(code)
      && FlagsAfter(code, s) == Comparison(w, LeftUsed(s, lhs, rhs, cond), RightUsed(s, lhs, rhs, cond))
  {
    hide Low, Signed, Reading, XCompare, X86No, FlagsAfter, EndsInCompare;
    var w := Wider(lhs, rhs).rsize;
    OwnValue(s, lhs);
    OwnValue(s, rhs);
    if lhs.rsize == rhs.rsize || Raw(lhs, rhs, cond) {
      LastCompare([], w, X86No(rhs), X86No(lhs), s);
      assert [] + CmpRegCode(lhs, rhs, cond) == CmpRegCode(lhs, rhs, cond);
    } else {
      var (narrow, wide) := (Narrower(lhs, rhs), Wider(lhs, rhs));
      TempHolds(w, narrow, wide, s);
      var mv := MovRegCode(Temp(w), narrow);
      if rhs.rsize < lhs.rsize {
        LastCompare(mv, w, RAX, X86No(lhs), s);
      } else {
        LastCompare(mv, w, X86No(rhs), RAX, s);
      }
    }
  }

  /** RAX holds the extended operand and the other one is untouched unless it is RAX. */
  lemma TempHolds(w: nat, narrow: Reg, wide: Reg, s: State)
    requires X86Lower.Operand(narrow) && X86Lower.Operand(wide) && narrow.rsize < wide.rsize == w
    ensures var mv := MovRegCode(Temp(w), narrow);
      && StraightCode(mv)
      && Read(Run(mv, s), w, RAX) == Low(w, ValueOf(s, narrow))
      && (X86No(wide) != RAX ==> Run(mv, s).regs[X86No(wide)] == s.regs[X86No(wide)])
  {
    MovRegMeaning(Temp(w), narrow, s);
    MergeRead(w, s.regs[RAX], ValueOf(s, narrow));
  }

  /** The flags are those of the two numbers compared at the wider width. */
  ghost predicate Decides(lhs: Reg, rhs: Reg, cond: nat, s: State)
    requires X86Lower.Operand(lhs) && X86Lower.Operand(rhs)
  {
    var w := Wider(lhs, rhs).rsize;
    FlagsAfter(Comparing(lhs, rhs, cond), s) == Comparison(w, ValueOf(s, lhs), ValueOf(s, rhs))
  }

  /** Comparing registers decides the comparison of the numbers they stand for, in every state,
      exactly when no operand is overwritten and no narrower left operand is tested for
      equality. */
  lemma CmpRegExact(lhs: Reg, rhs: Reg, cond: nat)
    requires X86Lower.Operand(lhs) && X86Lower.Operand(rhs)
    ensures EndsInCompare(CmpRegCode(lhs, rhs, cond))
    ensures (forall s: State :: Decides(lhs, rhs, cond, s)) <==> !Clobbers(lhs, rhs, cond) && !Raw(lhs, rhs, cond)
  {
    hide XCompare, Comparison, FlagsAfter, EndsInCompare, Signed, Reading, X86No, CmpRegCode;
    CmpRegMeaning(lhs, rhs, cond, Filled(0));
    forall s: State ensures var w := Wider(lhs, rhs).rsize;
      FlagsAfter(Comparing(lhs, rhs, cond), s)
        == Comparison(w, LeftUsed(s, lhs, rhs, cond), RightUsed(s, lhs, rhs, cond))
    {
      CmpRegMeaning(lhs, rhs, cond, s);
    }
    if !Clobbers(lhs, rhs, cond) && !Raw(lhs, rhs, cond) {
      forall s: State ensures Decides(lhs, rhs, cond, s) {
      }
    }
    if Clobbers(lhs, rhs, cond) || Raw(lhs, rhs, cond) {
      var (w, s) := (Wider(lhs, rhs).rsize, Filled(Power(Narrower(lhs, rhs).rsize)));
      SeemEqual(lhs, rhs, cond);
      assert FlagsAfter(Comparing(lhs, rhs, cond), s).zf;
      assert !Comparison(w, ValueOf(s, lhs), ValueOf(s, rhs)).zf;
      assert !Decides(lhs, rhs, cond, s);
    }
  }

  function Comparing(lhs: Reg, rhs: Reg, cond: nat): (code: seq<Instr>)
    requires X86Lower.Operand(lhs) && X86Lower.Operand(rhs)
    ensures code == CmpRegCode(lhs, rhs, cond) && EndsInCompare(code)
  {
    ComparingEnds(lhs, rhs, cond);
    CmpRegCode(lhs, rhs, cond)
  }

  lemma ComparingEnds(lhs: Reg, rhs: Reg, cond: nat)
    requires X86Lower.Operand(lhs) && X86Lower.Operand(rhs)
    ensures EndsInCompare(CmpRegCode(lhs, rhs, cond))
  {
    CmpRegMeaning(lhs, rhs, cond, Filled(0));
  }

  /** With that number everywhere a mishandled comparison sees equal operands; they are not. */
  lemma SeemEqual(lhs: Reg, rhs: Reg, cond: nat)
    requires X86Lower.Operand(lhs) && X86Lower.Operand(rhs) && (Clobbers(lhs, rhs, cond) || Raw(lhs, rhs, cond))
    ensures var (w, s) := (Wider(lhs, rhs).rsize, Filled(Power(Narrower(lhs, rhs).rsize)));
      && Comparison(w, LeftUsed(s, lhs, rhs, cond), RightUsed(s, lhs, rhs, cond)).zf
      && !Comparison(w, ValueOf(s, lhs), ValueOf(s, rhs)).zf
  {
    hide XCompare, X86No;
    var (w, s) := (Wider(lhs, rhs).rsize, Filled(Power(Narrower(lhs, rhs).rsize)));
    var (a, b) := (Low(w, LeftUsed(s, lhs, rhs, cond)), Low(w, RightUsed(s, lhs, rhs, cond)));
    LowLow(w, LeftUsed(s, lhs, rhs, cond));
    LowLow(w, RightUsed(s, lhs, rhs, cond));
    SelfCompare(w, a, b);
    LowLow(w, ValueOf(s, lhs));
    LowLow(w, ValueOf(s, rhs));
    SelfCompare(w, Low(w, ValueOf(s, lhs)), Low(w, ValueOf(s, rhs)));
    PowerReads(Narrower(lhs, rhs), w);
    PowerReads(Wider(lhs, rhs), w);
  }

  lemma PowerReads(r: Reg, w: nat)
    requires IsSize(r.rsize) && IsSize(w) && r.rsize <= w
    ensures forall n :: IsSize(n) && n < w && n >= r.rsize ==> Reading(IsSigned(r), r.rsize, Power(n)) == 0
    ensures forall n :: IsSize(n) && n < w && r.rsize == w ==> Low(w, Reading(IsSigned(r), w, Power(n))) == Power(n) > 0
  {
  }
}
