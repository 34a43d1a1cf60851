// Sums and differences on x86-64 whose destination is also an operand: exactly when the result
// is still right.
module X86Alias {
  import opened Words
  import opened Registers
  import opened X86Instr
  import opened X86Machine
  import opened X86Lower
  import opened X86Compare

  /** The destination is written before the wider operand is read. */
  predicate Overwrites(dst: Reg, lhs: Reg, rhs: Reg)
    requires InTable(dst) && InTable(lhs) && InTable(rhs)
  {
    lhs.rsize != rhs.rsize && X86No(dst) == X86No(Wider(lhs, rhs))
  }

  /** The sum is computed in the destination for every state. */
  ghost predicate Adds(dst: Reg, lhs: Reg, rhs: Reg)
    requires SumOperands(dst, lhs, rhs)
  {
    && Sound(AddRegCode(dst, lhs, rhs))
    && forall s: State :: Run(AddRegCode(dst, lhs, rhs), s) == Moved(s, dst.rsize, X86No(dst), ValueOf(s, lhs) + ValueOf(s, rhs))
  }

  /** What is left of the destination by an overwriting sequence: the narrow operand combined
      with itself. */
  lemma OverwritingRun(s: State, op: Byte, dst: Reg, narrow: Reg, wide: Reg)
    requires X86Lower.Operand(dst) && X86Lower.Operand(narrow) && X86Lower.Operand(wide)
    requires narrow.rsize < wide.rsize == dst.rsize && X86No(dst) == X86No(wide)
    requires op == OP_ADD_RM_R || op == OP_SUB_RM_R
    ensures var code := MovRegCode(dst, narrow) + [RR(op, dst.rsize, X86No(wide), X86No(dst))];
      && Sound(code)
      && Run(code, s) == Moved(s, dst.rsize, X86No(dst), if op == OP_ADD_RM_R then 2 * ValueOf(s, narrow) else 0)
  {
    hide Low, Signed, Reading;
    var (d, w, v) := (X86No(dst), dst.rsize, ValueOf(s, narrow));
    MovRegMeaning(dst, narrow, s);
    var t := Moved(s, w, d, v);
    MergeRead(w, s.regs[d], v);
    SelfStep(t, op, w, d, v);
    var i := RR(op, w, d, d);
    RunAppend(MovRegCode(dst, narrow), [i], s);
    Run1(i, t);
    MovedTwice(s, w, d, v, if op == OP_ADD_RM_R then 2 * v else 0);
  }

  /** dst := dst + dst or dst - dst. */
  lemma SelfStep(s: State, op: Byte, w: int, d: RegNo, v: int)
    requires IsSize(w) && (op == OP_ADD_RM_R || op == OP_SUB_RM_R) && Low(w, s.regs[d]) == Low(w, v)
    ensures var i := RR(op, w, d, d);
      Sound([i]) && Exec(i, s) == Moved(s, w, d, if op == OP_ADD_RM_R then 2 * v else 0)
  {
    var a := Low(w, s.regs[d]);
    LowLow(w, s.regs[d]);
    LowSum(w, a, a, v, v);
    MergeMod(w, s.regs[d], a + a, 2 * v);
    assert DigitOf(OP_ADD_RM_R) == ALU_ADD && DigitOf(OP_SUB_RM_R) == ALU_SUB;
  }

  lemma MovedDiffers(s: State, w: nat, d: RegNo, v: int, u: int)
    requires IsSize(w) && Low(w, v) != Low(w, u)
    ensures Moved(s, w, d, v) != Moved(s, w, d, u)
  {
    MergeRead(w, s.regs[d], v);
    MergeRead(w, s.regs[d], u);
    assert Moved(s, w, d, v).regs[d] == Merge(w, s.regs[d], v);
    assert Moved(s, w, d, u).regs[d] == Merge(w, s.regs[d], u);
  }

  lemma LowNeg(w: nat, v: int)
    requires IsSize(w) && Low(w, v) == 0
    ensures Low(w, -v) == 0
  {
    hide Low;
    LowOne(w);
    LowSum(w, 0, v, 0, 0);
  }

  lemma LowZero(w: nat, v: int)
    requires IsSize(w)
    ensures Low(w, 0) == 0
    ensures Low(w, v) == 0 <==> Low(w, -v) == 0
  {
    hide Low;
    LowOne(w);
    if Low(w, v) == 0 {
      LowNeg(w, v);
    } else if Low(w, -v) == 0 {
      LowNeg(w, -v);
    }
  }

  /** The wider operand is not overwritten and an equal-width sum has an address form. */
  predicate AddFits(dst: Reg, lhs: Reg, rhs: Reg)
    requires InTable(dst) && InTable(lhs) && InTable(rhs)
  {
    !Overwrites(dst, lhs, rhs) && (lhs.rsize == rhs.rsize ==> dst.rsize != 1 && X86No(rhs) != RSP)
  }

  /** The sum is right in every state, and decodes back, exactly then. */
  lemma AddRegExact(dst: Reg, lhs: Reg, rhs: Reg)
    requires SumOperands(dst, lhs, rhs)
    ensures Adds(dst, lhs, rhs) <==> AddFits(dst, lhs, rhs)
  {
    hide Run, Low, Signed, Reading, Moved, X86No;
    if Overwrites(dst, lhs, rhs) {
      var (narrow, wide, w) := (Narrower(lhs, rhs), Wider(lhs, rhs), dst.rsize);
      var s := Filled(Power(narrow.rsize));
      OverwritingRun(s, OP_ADD_RM_R, dst, narrow, wide);
      PowerReads(narrow, w);
      PowerReads(wide, w);
      LowZero(w, 0);
      MovedDiffers(s, w, X86No(dst), 2 * ValueOf(s, narrow), ValueOf(s, lhs) + ValueOf(s, rhs));
      assert Run(AddRegCode(dst, lhs, rhs), s) != Moved(s, w, X86No(dst), ValueOf(s, lhs) + ValueOf(s, rhs));
    } else if lhs.rsize == rhs.rsize && (dst.rsize == 1 || X86No(rhs) == RSP) {
      NoAddressForm(dst, lhs, rhs);
    } else {
      forall s: State ensures Sound(AddRegCode(dst, lhs, rhs))
        && Run(AddRegCode(dst, lhs, rhs), s) == Moved(s, dst.rsize, X86No(dst), ValueOf(s, lhs) + ValueOf(s, rhs))
      {
        AddRegMeaning(dst, lhs, rhs, s);
      }
      AddRegMeaning(dst, lhs, rhs, Filled(0));
    }
  }

  lemma NoAddressForm(dst: Reg, lhs: Reg, rhs: Reg)
    requires SumOperands(dst, lhs, rhs) && lhs.rsize == rhs.rsize && (dst.rsize == 1 || X86No(rhs) == RSP)
    ensures !Sound(AddRegCode(dst, lhs, rhs))
  {
    assert !Faithful(AddRegCode(dst, lhs, rhs)[0]);
  }

  /** With equal widths the right operand is overwritten, which only matters for another one. */
  predicate SubOverwrites(dst: Reg, lhs: Reg, rhs: Reg)
    requires InTable(dst) && InTable(lhs) && InTable(rhs)
  {
    Overwrites(dst, lhs, rhs) || (lhs.rsize == rhs.rsize && X86No(dst) == X86No(rhs) && X86No(lhs) != X86No(rhs))
  }

  ghost predicate Subtracts(dst: Reg, lhs: Reg, rhs: Reg)
    requires SumOperands(dst, lhs, rhs)
  {
    && Sound(SubRegCode(dst, lhs, rhs))
    && forall s: State :: Run(SubRegCode(dst, lhs, rhs), s) == Moved(s, dst.rsize, X86No(dst), ValueOf(s, lhs) - ValueOf(s, rhs))
  }

  lemma EqualWidthRun(dst: Reg, lhs: Reg, rhs: Reg, s: State)
    requires SumOperands(dst, lhs, rhs) && lhs.rsize == rhs.rsize && X86No(dst) == X86No(rhs)
    ensures Sound(SubRegCode(dst, lhs, rhs))
    ensures Run(SubRegCode(dst, lhs, rhs), s) == Moved(s, dst.rsize, X86No(dst), 0)
  {
    hide Low, Signed, Reading;
    var (d, w) := (X86No(dst), dst.rsize);
    var i, j := RR(OP_MOV_RM_R, w, X86No(lhs), d), RR(OP_SUB_RM_R, w, d, d);
    var v := ValueOf(s, lhs);
    WideValue(s, lhs, w);
    var t := Moved(s, w, d, v);
    MovStep(s, w, X86No(lhs), d, v);
    MergeRead(w, s.regs[d], v);
    SelfStep(t, OP_SUB_RM_R, w, d, v);
    Run2(i, j, s);
    MovedTwice(s, w, d, v, 0);
  }

  lemma MovStep(s: State, w: nat, r: RegNo, d: RegNo, v: int)
    requires IsSize(w) && Low(w, s.regs[r]) == Low(w, v)
    ensures var i := RR(OP_MOV_RM_R, w, r, d); Sound([i]) && Exec(i, s) == Moved(s, w, d, v)
  {
    LowLow(w, s.regs[r]);
    MergeMod(w, s.regs[d], Low(w, s.regs[r]), v);
  }

  /** Subtract-then-negate leaves zero as well. */
  lemma OverwritingSub(dst: Reg, lhs: Reg, rhs: Reg, s: State)
    requires SumOperands(dst, lhs, rhs) && Overwrites(dst, lhs, rhs)
    ensures Sound(SubRegCode(dst, lhs, rhs))
    ensures Run(SubRegCode(dst, lhs, rhs), s) == Moved(s, dst.rsize, X86No(dst), 0)
  {
    hide Low, Signed, Reading, X86No;
    var (d, w) := (X86No(dst), dst.rsize);
    OverwritingRun(s, OP_SUB_RM_R, dst, Narrower(lhs, rhs), Wider(lhs, rhs));
    if rhs.rsize < lhs.rsize {
      var code := MovRegCode(dst, rhs) + [RR(OP_SUB_RM_R, w, X86No(lhs), d)];
      var t := Moved(s, w, d, 0);
      MergeRead(w, s.regs[d], 0);
      NegStep(t, w, d, 0);
      RunAppend(code, [Neg(w, d)], s);
      Run1(Neg(w, d), t);
      MovedTwice(s, w, d, 0, 0);
      assert SubRegCode(dst, lhs, rhs) == code + [Neg(w, d)];
    }
  }

  /** One register holds 1, the others 0. */
  ghost function One(r: RegNo): State { Filled(0).(regs := Filled(0).regs[r := 1]) }

  lemma OneReads(r: Reg, n: RegNo)
    requires X86Lower.Operand(r)
    ensures ValueOf(One(n), r) == if X86No(r) == n then 1 else 0
  {
    hide X86No;
  }

  /** The difference is right in every state exactly when no operand still needed is
      overwritten. */
  lemma SubRegExact(dst: Reg, lhs: Reg, rhs: Reg)
    requires SumOperands(dst, lhs, rhs)
    ensures Subtracts(dst, lhs, rhs) <==> !SubOverwrites(dst, lhs, rhs)
  {
    hide Run, Low, Signed, Reading, Moved, X86No, SubRegCode;
    var w := dst.rsize;
    if Overwrites(dst, lhs, rhs) {
      var (narrow, wide) := (Narrower(lhs, rhs), Wider(lhs, rhs));
      var s := Filled(Power(narrow.rsize));
      OverwritingSub(dst, lhs, rhs, s);
      PowerReads(narrow, w);
      PowerReads(wide, w);
      LowZero(w, ValueOf(s, wide));
      MovedDiffers(s, w, X86No(dst), 0, ValueOf(s, lhs) - ValueOf(s, rhs));
      assert Run(SubRegCode(dst, lhs, rhs), s) != Moved(s, w, X86No(dst), ValueOf(s, lhs) - ValueOf(s, rhs));
    } else if SubOverwrites(dst, lhs, rhs) {
      var s := One(X86No(lhs));
      EqualWidthRun(dst, lhs, rhs, s);
      OneReads(lhs, X86No(lhs));
      OneReads(rhs, X86No(lhs));
      LowOne(w);
      MovedDiffers(s, w, X86No(dst), 0, ValueOf(s, lhs) - ValueOf(s, rhs));
      assert Run(SubRegCode(dst, lhs, rhs), s) != Moved(s, w, X86No(dst), ValueOf(s, lhs) - ValueOf(s, rhs));
    } else {
      SubAlways(dst, lhs, rhs);
    }
  }

  lemma LowOne(w: nat)
    requires IsSize(w)
    ensures Low(w, 1) == 1 && Low(w, 0) == 0
  {
  }

  lemma SubAlways(dst: Reg, lhs: Reg, rhs: Reg)
    requires SumOperands(dst, lhs, rhs) && !SubOverwrites(dst, lhs, rhs)
    ensures Subtracts(dst, lhs, rhs)
  {
    hide Run, Low, Signed, Reading, Moved, X86No, SubRegCode;
    forall s: State ensures Sound(SubRegCode(dst, lhs, rhs))
      && Run(SubRegCode(dst, lhs, rhs), s) == Moved(s, dst.rsize, X86No(dst), ValueOf(s, lhs) - ValueOf(s, rhs))
    {
      if lhs.rsize == rhs.rsize && X86No(dst) == X86No(rhs) {
        EqualWidthRun(dst, lhs, rhs, s);
        SameRegister(dst, lhs, rhs, s);
      } else {
        SubRegMeaning(dst, lhs, rhs, s);
      }
    }
    SoundAnyway(dst, lhs, rhs);
  }

  lemma SoundAnyway(dst: Reg, lhs: Reg, rhs: Reg)
    requires SumOperands(dst, lhs, rhs) && !SubOverwrites(dst, lhs, rhs)
    ensures Sound(SubRegCode(dst, lhs, rhs))
  {
    if lhs.rsize == rhs.rsize && X86No(dst) == X86No(rhs) {
      EqualWidthRun(dst, lhs, rhs, Filled(0));
    } else {
      SubRegMeaning(dst, lhs, rhs, Filled(0));
    }
  }

  lemma SameRegister(dst: Reg, lhs: Reg, rhs: Reg, s: State)
    requires SumOperands(dst, lhs, rhs) && lhs.rsize == rhs.rsize && X86No(lhs) == X86No(rhs)
    ensures Moved(s, dst.rsize, X86No(dst), 0) == Moved(s, dst.rsize, X86No(dst), ValueOf(s, lhs) - ValueOf(s, rhs))
  {
    hide Low, Signed, Reading, X86No;
    var w := dst.rsize;
    WideValue(s, lhs, w);
    WideValue(s, rhs, w);
    LowSum(w, ValueOf(s, lhs), ValueOf(s, rhs), ValueOf(s, rhs), ValueOf(s, rhs));
    MergeMod(w, s.regs[X86No(dst)], 0, ValueOf(s, lhs) - ValueOf(s, rhs));
  }
}
