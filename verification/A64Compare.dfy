// Comparisons on AArch64: the flags of the emitted SUBS or ADDS, and exactly when they are those
// of the numbers compared.
module A64Compare {
  import opened Words
  import opened Registers
  import opened A64Instr
  import opened A64Machine
  import opened A64Lower
  import opened A64Sums

  function ZeroReg(rsize: nat): Reg { Reg(RdNone, 0, rsize, NoType) }

  /** The flags of comparing two numbers at w bytes. */
  function Comparison(w: nat, a: int, b: int): Flags { AddSubFlags(w, true, Low(w, a), Low(w, b)) }

  // ---- With a register ----

  function CmpRegCode(lhs: Reg, rhs: Reg): seq<Instr>
    requires HasA64(lhs) && HasA64(rhs) && (lhs.dtype.base.Some? ==> lhs.dtype.base.value.size > 0)
  {
    if lhs.rsize == rhs.rsize then [PlainInstr(true, true, ZeroReg(lhs.rsize), lhs, rhs)]
    else if rhs.rsize < lhs.rsize then [ExtInstr(true, true, ZeroReg(lhs.rsize), lhs, rhs, 0)]
    else
      var tmp := Temp(rhs.rsize, lhs.dtype);
      MovRegCode(tmp, lhs) + [PlainInstr(true, true, ZeroReg(rhs.rsize), tmp, rhs)]
  }

  predicate CmpOperands(lhs: Reg, rhs: Reg) { Operand(lhs) && Operand(rhs) && Typed(lhs) && Typed(rhs) }

  /** The machine compares 32 or 64 bits. */
  function CmpWidth(lhs: Reg, rhs: Reg): (w: nat)
    ensures w == 4 || w == 8
  {
    Bytes(lhs.rsize > 4 || rhs.rsize > 4)
  }

  /** The two numbers that are compared: only a narrower right operand, and a typed left one
      widened to 64 bits, are extended first. */
  ghost function LeftUsed(s: State, lhs: Reg, rhs: Reg): int
    requires CmpOperands(lhs, rhs)
  {
    if lhs.rsize < rhs.rsize then MovedValue(s, lhs, rhs.rsize) else s.regs[A64No(lhs)]
  }

  ghost function RightUsed(s: State, lhs: Reg, rhs: Reg): int
    requires CmpOperands(lhs, rhs)
  {
    if rhs.rsize < lhs.rsize then ValueOf(s, rhs)
    else if lhs.rsize < rhs.rsize && A64No(rhs) == TEMP then MovedValue(s, lhs, rhs.rsize)
    else s.regs[A64No(rhs)]
  }

  lemma PlainFlags(sz: nat, lhs: Reg, rhs: Reg, s: State)
    requires General(lhs) && General(rhs) && IsSize(sz)
    ensures var i := PlainInstr(true, true, ZeroReg(sz), lhs, rhs);
      Straight(i) && Exec(i, s) == s.(flags := Comparison(Bytes(sz > 4), s.regs[A64No(lhs)], s.regs[A64No(rhs)]))
  {
    hide Low, Signed, Reading;
    var w := Bytes(sz > 4);
    LowLow(w, s.regs[A64No(rhs)]);
    assert Shl(Read(s, w == 8, A64No(rhs)), 0) == Read(s, w == 8, A64No(rhs));
  }

  lemma ExtFlags(lhs: Reg, rhs: Reg, s: State)
    requires CmpOperands(lhs, rhs) && rhs.rsize < lhs.rsize
    ensures var i := ExtInstr(true, true, ZeroReg(lhs.rsize), lhs, rhs, 0);
      Straight(i) && Exec(i, s) == s.(flags := Comparison(CmpWidth(lhs, rhs), s.regs[A64No(lhs)], ValueOf(s, rhs)))
  {
    hide Low, Signed, Extended, Reading;
    RegisterFull(s, A64No(rhs));
    ExtendedIsReading(rhs, s.regs[A64No(rhs)]);
    assert Shl(ValueOf(s, rhs), 0) == ValueOf(s, rhs);
  }

  /** The left operand copied to x16, extended or not, over the width of the comparison. */
  lemma TempCopied(lhs: Reg, rhs: Reg, s: State) returns (t: State)
    requires CmpOperands(lhs, rhs) && lhs.rsize < rhs.rsize
    ensures var code := MovRegCode(Temp(rhs.rsize, lhs.dtype), lhs);
      StraightCode(code) && t == Run(code, s)
    ensures t == s.(regs := s.regs[TEMP := t.regs[TEMP]])
    ensures var w := CmpWidth(lhs, rhs); Low(w, t.regs[TEMP]) == Low(w, MovedValue(s, lhs, rhs.rsize))
  {
    hide Low, Signed, Exec, Straight;
    var tmp := Temp(rhs.rsize, lhs.dtype);
    var (i, x) := (MovRegInstr(tmp, lhs), rhs.rsize == 8);
    MovRegMeaning(tmp, lhs, s);
    Run1(i, s);
    t := Exec(i, s);
    var v := MovedValue(s, lhs, rhs.rsize);
    assert t == Write(s, x, TEMP, v);
    LowLow(Bytes(x), v);
  }

  /** Nothing but the flags and x16 changed. */
  ghost predicate OnlyTemp(s: State, t: State) { t == s.(flags := t.flags, regs := s.regs[TEMP := t.regs[TEMP]]) }

  /** The flags of the emitted comparison, whatever the widths and registers. */
  lemma CmpRegMeaning(lhs: Reg, rhs: Reg, s: State)
    requires CmpOperands(lhs, rhs)
    ensures var code := CmpRegCode(lhs, rhs);
      && StraightCode(code)
      && Run(code, s).flags == Comparison(CmpWidth(lhs, rhs), LeftUsed(s, lhs, rhs), RightUsed(s, lhs, rhs))
      && OnlyTemp(s, Run(code, s))
  {
    hide Exec, Straight, Low, Signed, Reading, AddSubFlags, MovedValue;
    if lhs.rsize == rhs.rsize {
      PlainFlags(lhs.rsize, lhs, rhs, s);
      Run1(PlainInstr(true, true, ZeroReg(lhs.rsize), lhs, rhs), s);
    } else if rhs.rsize < lhs.rsize {
      ExtFlags(lhs, rhs, s);
      Run1(ExtInstr(true, true, ZeroReg(lhs.rsize), lhs, rhs, 0), s);
    } else {
      var tmp := Temp(rhs.rsize, lhs.dtype);
      var t := TempCopied(lhs, rhs, s);
      PlainFlags(rhs.rsize, tmp, rhs, t);
      var last := PlainInstr(true, true, ZeroReg(rhs.rsize), tmp, rhs);
      RunAppend(MovRegCode(tmp, lhs), [last], s);
      Run1(last, t);
    }
  }

  /** Both operands reach the comparison as the numbers they stand for. */
  predicate CmpFits(lhs: Reg, rhs: Reg)
    requires CmpOperands(lhs, rhs)
  {
    if lhs.rsize == rhs.rsize then lhs.rsize >= 4 || (A64No(lhs) == A64No(rhs) && IsSigned(lhs) == IsSigned(rhs))
    else if rhs.rsize < lhs.rsize then lhs.rsize >= 4
    else rhs.rsize == 8 && lhs.dtype.base.Some? && A64No(rhs) != TEMP
  }

  function Comparing(lhs: Reg, rhs: Reg): (code: seq<Instr>)
    requires CmpOperands(lhs, rhs)
    ensures code == CmpRegCode(lhs, rhs) && StraightCode(code)
  {
    CmpRegMeaning(lhs, rhs, Filled(0));
    CmpRegCode(lhs, rhs)
  }

  /** The code leaves the flags of comparing the two numbers. */
  ghost predicate Decides(lhs: Reg, rhs: Reg, s: State)
    requires CmpOperands(lhs, rhs)
  {
    Run(Comparing(lhs, rhs), s).flags == Comparison(CmpWidth(lhs, rhs), ValueOf(s, lhs), ValueOf(s, rhs))
  }

  lemma UsedAsMeant(lhs: Reg, rhs: Reg, s: State)
    requires CmpOperands(lhs, rhs) && CmpFits(lhs, rhs)
    ensures var w := CmpWidth(lhs, rhs);
      Comparison(w, LeftUsed(s, lhs, rhs), RightUsed(s, lhs, rhs)) == Comparison(w, ValueOf(s, lhs), ValueOf(s, rhs))
  {
    hide Low, Signed, Reading, AddSubFlags;
    if lhs.rsize == rhs.rsize < 4 {
      SameNumber(CmpWidth(lhs, rhs), s.regs[A64No(lhs)], ValueOf(s, lhs));
    } else {
      WideValue(s, lhs);
      WideValue(s, rhs);
    }
  }

  lemma SelfCompare(w: nat, a: int, b: int)
    requires w == 4 || w == 8
    ensures Comparison(w, a, b).z <==> Low(w, a) == Low(w, b)
  {
    if w == 4 {
    } else {
    }
  }

  /** A number compared with itself, whichever it is. */
  lemma SameNumber(w: nat, a: int, b: int)
    requires w == 4 || w == 8
    ensures Comparison(w, a, a) == Comparison(w, b, b)
  {
  }

  /** All registers hold v. */
  ghost function Filled(v: U64): State { State(seq(31, i => v), 0, Flags(false, false, false, false), (x: int) => 0) }

  ghost function Only(r: RegNo, v: U64): State
    requires r != 31
  {
    Filled(0).(regs := Filled(0).regs[r := v])
  }

  /** A state that a comparison of other operands gets wrong. */
  ghost function Mistaken(lhs: Reg, rhs: Reg): State
    requires CmpOperands(lhs, rhs)
  {
    if lhs.rsize != rhs.rsize then Filled(Power(lhs.rsize))
    else if A64No(lhs) != A64No(rhs) then Only(A64No(lhs), Power(lhs.rsize))
    else Filled(Half(lhs.rsize))
  }

  lemma MistakenReads(lhs: Reg, rhs: Reg)
    requires CmpOperands(lhs, rhs) && !CmpFits(lhs, rhs)
    ensures var (s, w) := (Mistaken(lhs, rhs), CmpWidth(lhs, rhs));
      (Low(w, LeftUsed(s, lhs, rhs)) == Low(w, RightUsed(s, lhs, rhs))) != (Low(w, ValueOf(s, lhs)) == Low(w, ValueOf(s, rhs)))
  {
    hide Typed, IsSigned;
    if lhs.rsize == rhs.rsize {
    } else if lhs.rsize < rhs.rsize {
    } else {
    }
  }

  /** Comparing registers decides the comparison of the numbers they stand for, in every state,
      exactly for those operands. */
  lemma CmpRegExact(lhs: Reg, rhs: Reg)
    requires CmpOperands(lhs, rhs)
    ensures (forall s: State :: Decides(lhs, rhs, s)) <==> CmpFits(lhs, rhs)
  {
    hide Run, AddSubFlags, Comparison, Low, Signed, Reading, CmpRegCode, LeftUsed, RightUsed;
    forall s: State ensures Run(Comparing(lhs, rhs), s).flags
      == Comparison(CmpWidth(lhs, rhs), LeftUsed(s, lhs, rhs), RightUsed(s, lhs, rhs))
    {
      CmpRegMeaning(lhs, rhs, s);
    }
    if CmpFits(lhs, rhs) {
      forall s: State ensures Decides(lhs, rhs, s) {
        UsedAsMeant(lhs, rhs, s);
      }
    } else {
      var (s, w) := (Mistaken(lhs, rhs), CmpWidth(lhs, rhs));
      MistakenReads(lhs, rhs);
      SelfCompare(w, LeftUsed(s, lhs, rhs), RightUsed(s, lhs, rhs));
      SelfCompare(w, ValueOf(s, lhs), ValueOf(s, rhs));
      assert !Decides(lhs, rhs, s);
    }
  }

  // ---- With a constant ----

  function CmpImmInstr(lhs: Reg, c: int): Instr
    requires HasA64(lhs)
  {
    AddSubImmInstr(true, true, ZeroReg(lhs.rsize), lhs, c)
  }

  function Magnitude(c: int): nat { if c < 0 then -c else c }

  /** What the immediate field makes of the constant. */
  function Used(c: int): int { if c < 0 then 0 - ImmUsed(-c) else ImmUsed(c) }

  /** A negative constant is added instead; when nothing of it is left, adding zero never
      carries as comparing with zero does. */
  predicate LosesCarry(c: int) { c < 0 && Used(c) == 0 }

  function ImmFlags(w: nat, a: int, c: int): Flags
    requires w == 4 || w == 8
  {
    if LosesCarry(c) then Comparison(w, a, 0).(c := false) else Comparison(w, a, Used(c))
  }

  /** What the instruction does, before its operation is looked at. */
  lemma CmpImmExec(lhs: Reg, c: int, s: State)
    requires General(lhs)
    ensures var (w, m) := (Bytes(lhs.rsize > 4), ImmUsed(Magnitude(c)));
      Straight(CmpImmInstr(lhs, c))
      && Exec(CmpImmInstr(lhs, c), s) == s.(flags := AddSubFlags(w, c >= 0, Read(s, w == 8, A64No(lhs)), m))
  {
    hide Low, Signed, AddSubFlags;
  }

  /** The flags of comparing with any constant. */
  lemma CmpImmMeaning(lhs: Reg, c: int, s: State)
    requires General(lhs)
    ensures var w := Bytes(lhs.rsize > 4);
      Straight(CmpImmInstr(lhs, c)) && Exec(CmpImmInstr(lhs, c), s) == s.(flags := ImmFlags(w, s.regs[A64No(lhs)], c))
  {
    hide Low, Signed, AddSubFlags, Exec, Straight, ImmUsed;
    var w := Bytes(lhs.rsize > 4);
    CmpImmExec(lhs, c, s);
    LowLow(w, s.regs[A64No(lhs)]);
    OperationFlags(w, s.regs[A64No(lhs)], c);
  }

  lemma OperationFlags(w: nat, v: int, c: int)
    requires (w == 4 || w == 8) && Low(w, v) >= 0
    ensures AddSubFlags(w, c >= 0, Low(w, v), ImmUsed(Magnitude(c))) == ImmFlags(w, v, c)
  {
    hide Low, Signed, AddSubFlags, ImmUsed;
    var m := ImmUsed(Magnitude(c));
    FieldFits(w, Magnitude(c));
    LowLow(w, v);
    LowSmall(w, 0);
    LowSmall(w, m);
    if c < 0 {
      if m == 0 {
        AddZero(w, Low(w, v));
      } else {
        AddIsSub(w, Low(w, v), m);
      }
    }
  }

  lemma FieldFits(w: nat, m: nat)
    requires w == 4 || w == 8
    ensures ImmUsed(m) <= 0xfff000 && FitsU(w, ImmUsed(m)) && FitsU(w, 0)
  {
  }

  lemma AddZero(w: nat, a: nat)
    requires (w == 4 || w == 8) && FitsU(w, a)
    ensures AddSubFlags(w, false, a, 0) == AddSubFlags(w, true, a, 0).(c := false)
  {
  }

  lemma AddIsSub(w: nat, a: nat, m: int)
    requires (w == 4 || w == 8) && FitsU(w, a) && 0 < m <= 0xfff000
    ensures AddSubFlags(w, false, a, m) == Comparison(w, a, -m)
  {
    hide Low, Signed, FitsU;
    LowLow(w, -m);
    NegatedConstant(w, a, m);
    LowSmall(w, a);
    SignedOf(w, Low(w, -m));
    SignedOf(w, m);
  }

  lemma NegatedConstant(w: nat, a: nat, m: int)
    requires (w == 4 || w == 8) && 0 < m <= 0xfff000
    ensures Low(w, -m) == 2 * Half(w) - m && FitsU(w, Low(w, -m)) && FitsU(w, m) && Modulus(w) == 2 * Half(w)
    ensures Low(w, a - Low(w, -m)) == Low(w, a + m)
  {
    hide Low;
    LowDifference(w, 0, m);
    LowMod(w, a - (2 * Half(w) - m));
    LowMod(w, a + m);
    ModShift(a + m, Modulus(w), -1);
  }

  function ComparingImm(lhs: Reg, c: int): (i: Instr)
    requires General(lhs)
    ensures Straight(i) && i == CmpImmInstr(lhs, c)
  {
    CmpImmInstr(lhs, c)
  }

  predicate ConstFits(w: nat, c: int) { ImmExact(w, c) && !LosesCarry(c) }

  lemma SameEncoding(w: nat, c: int)
    ensures ImmExact(w, Magnitude(c)) == ImmExact(w, c)
  {
  }

  lemma UsedExact(w: nat, c: int)
    requires (w == 4 || w == 8) && IsI64(c)
    ensures Low(w, Used(c)) == Low(w, c) <==> ImmExact(w, c)
  {
    hide Low, ImmExact, ImmUsed;
    SameEncoding(w, c);
    ImmUsedExact(w == 8, Magnitude(c));
    CancelLow(w, 0, ImmUsed(Magnitude(c)), Magnitude(c));
  }

  /** The flags are those of comparing with the constant itself, in every state, exactly when
      it has an encoding and is not lost altogether. */
  lemma CmpImmExact(lhs: Reg, c: int)
    requires General(lhs) && IsI64(c)
    ensures var w := Bytes(lhs.rsize > 4);
      (forall s: State :: Exec(ComparingImm(lhs, c), s).flags == Comparison(w, s.regs[A64No(lhs)], c)) <==> ConstFits(w, c)
  {
    hide Exec, Straight, Low, Comparison, ImmExact, ImmUsed, ImmFlags;
    var w := Bytes(lhs.rsize > 4);
    forall s: State ensures Exec(ComparingImm(lhs, c), s).flags == ImmFlags(w, s.regs[A64No(lhs)], c) {
      CmpImmMeaning(lhs, c, s);
    }
    UsedExact(w, c);
    var a: U64 := if LosesCarry(c) && ImmExact(w, c) then 0 else c % P64;
    if !ConstFits(w, c) {
      FlagsDiffer(w, c, a);
    }
    assert Filled(a).regs[A64No(lhs)] == a;
    forall s: State | ConstFits(w, c) ensures ImmFlags(w, s.regs[A64No(lhs)], c) == Comparison(w, s.regs[A64No(lhs)], c) {
      FlagsSame(w, c, s.regs[A64No(lhs)]);
    }
    assert Exec(ComparingImm(lhs, c), Filled(a)).flags == ImmFlags(w, a, c);
  }

  lemma FlagsSame(w: nat, c: int, a: int)
    requires (w == 4 || w == 8) && IsI64(c) && ConstFits(w, c)
    ensures ImmFlags(w, a, c) == Comparison(w, a, c)
  {
    hide Low, ImmExact, ImmUsed, AddSubFlags;
    UsedExact(w, c);
  }

  lemma FlagsDiffer(w: nat, c: int, a: int)
    requires (w == 4 || w == 8) && IsI64(c) && !ConstFits(w, c)
    requires a == if LosesCarry(c) && ImmExact(w, c) then 0 else c % P64
    ensures ImmFlags(w, a, c) != Comparison(w, a, c)
  {
    hide Low, ImmExact, ImmUsed, AddSubFlags;
    UsedExact(w, c);
    if LosesCarry(c) && ImmExact(w, c) {
      ZeroCarries(w);
    } else {
      LowWithin(w == 8, w, c);
      Nested(w, c);
      assert Low(8, c) == c % P64 by { LowMod(8, c); }
      SelfCompare(w, a, c);
      SelfCompare(w, a, Used(c));
    }
  }

  lemma ZeroCarries(w: nat)
    requires w == 4 || w == 8
    ensures Comparison(w, 0, 0).c && Low(w, 0) == 0
  {
  }
}
