// Which machine registers the compiler's named registers stand for, and what frames and calls
// do with them.
module NamedRegs {
  import opened Registers
  import A64Frame
  import X86Frame

  /** The register a name is given, and the working registers beside it. */
  function Named(o: nat): Reg { Reg(Nreg, o, 8, NoType) }
  function Working(o: nat): Reg { Reg(Scratch, o, 8, NoType) }
  function Passed(o: nat): Reg { Reg(Param, o, 8, NoType) }
  function Returned(o: nat): Reg { Reg(RetReg, o, 8, NoType) }

  // ---- AArch64 ----

  /** Registers that a call leaves as they were (AAPCS64, section 6.1.1). */
  predicate A64Preserved(r: int) { 19 <= r <= 29 }

  /** A frame that is accepted saves every named register of its function, and saves no other
      but x29 and x30: named register o is saved exactly when the function used that many. */
  lemma A64SavedExactly(f: A64Frame.FrameInfo, o: nat)
    requires A64Frame.Supported(f) && HasA64(Named(o)) && o < 10
    ensures A64No(Named(o)) in A64Frame.SavedRegs(f) <==> o < f.maxNregs
    ensures A64Preserved(A64No(Named(o)))
  {
    var (rs, n) := (A64Frame.CalleeDown(f.maxNregs), f.maxNregs);
    if o < n {
      assert rs[n - 1 - o] == A64No(Named(o));
    }
  }

  /** All named registers of an accepted frame are different machine registers, and none of them
      is a parameter or return register, x16, the frame or link register, or number 31. */
  lemma A64NamedApart(f: A64Frame.FrameInfo, o: nat, p: nat)
    requires A64Frame.Supported(f) && o < f.maxNregs && p < f.maxNregs
    ensures HasA64(Named(o)) && HasA64(Named(p)) && (A64No(Named(o)) == A64No(Named(p)) <==> o == p)
    ensures 16 < A64No(Named(o)) < 29
    ensures forall q: nat :: q < 8 ==> A64No(Named(o)) != A64Raw(Passed(q)) && A64No(Named(o)) != A64Raw(Returned(q))
  {
  }

  /** The working registers x8 and up run into the named ones at the eleventh, and only there. */
  lemma A64WorkingMeetsNamed(o: nat, p: nat)
    ensures A64Raw(Working(p)) == A64Raw(Named(o)) <==> p == o + 11
    ensures p < 8 ==> A64Raw(Working(p)) == 8 + p
  {
  }

  /** Parameters and results are where AAPCS64, section 6.8.2, has them, from x0 on; x29 is the frame
      pointer and 31 stands for the stack pointer or zero. */
  lemma A64PassesByAapcs(q: nat, r: Reg)
    ensures A64Raw(Passed(q)) == A64Raw(Returned(q)) == q
    ensures r.kind == Frame ==> A64Raw(r) == 29
    ensures r.kind == Stack || r.kind == RdNone ==> A64Raw(r) == 31
  {
  }

  // ---- x86-64 ----

  /** Registers that a call leaves as they were: RBX, RSP, RBP and R12 to R15 (System V psABI,
      section 3.2.1). */
  predicate X86Preserved(r: int) { r == 3 || r == 4 || r == 5 || 12 <= r <= 15 }

  /** Different operands are different registers: named ones among themselves, and from the
      working ones, RSP and RBP; working ones and parameters each among themselves; and no named one
      carries a parameter or a result. */
  lemma X86Apart(o: nat, p: nat)
    ensures o < 7 && p < 7 ==>
      && (X86No(Named(o)) == X86No(Named(p)) <==> o == p)
      && (X86No(Working(o)) == X86No(Working(p)) <==> o == p)
      && X86No(Named(o)) != X86No(Working(p)) && X86No(Named(o)) != 4 && X86No(Named(o)) != 5
      && X86No(Working(o)) != 4 && X86No(Working(o)) != 5
    ensures o < 7 && p < 6 ==> X86No(Named(o)) != X86No(Passed(p))
    ensures o < 6 && p < 6 ==> (X86No(Passed(o)) == X86No(Passed(p)) <==> o == p)
    ensures o < 7 && p < 2 ==> X86No(Named(o)) != X86No(Returned(p))
  {
  }

  /** Parameters and results are where the System V psABI, section 3.2.3, has them: RDI, RSI, RDX,
      RCX, R8, R9, and RAX, RDX. */
  lemma X86PassesByPsabi(r: Reg)
    requires InTable(r)
    ensures r.kind == Param ==>
      X86No(r) == (match r.offset case 0 => 7 case 1 => 6 case 2 => 2 case 3 => 1 case 4 => 8 case _ => 9)
    ensures r.kind == RetReg ==> X86No(r) == if r.offset == 0 then 0 else 2
  {
  }

  /** A value in a named register survives a call to a function that keeps the psABI if and only if
      it is one of the first five: R10 and R11 are not preserved. */
  lemma X86SurvivesCalls(o: nat)
    requires o < 7
    ensures X86Preserved(X86No(Named(o))) <==> o < 5
  {
  }

  /** The frame saves exactly the first nregs named registers. */
  lemma X86SavedExactly(f: X86Frame.FrameInfo, o: nat)
    requires X86Frame.Supported(f) && o < 7
    ensures X86No(Named(o)) in X86Frame.SavedRegs(f) <==> o < f.nregs
  {
    var rs := X86Frame.CalleeSeq(f.nregs);
    if o < f.nregs {
      assert rs[o] == X86No(Named(o));
    }
    forall k | 0 <= k < |rs| ensures rs[k] == X86No(Named(o)) ==> k == o {
      X86Apart(k, o);
    }
  }
}
