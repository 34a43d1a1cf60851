// Comparison conditions: how they are folded, negated, and realised by the flags of both
// machines.
module Conditions {
  import opened Words
  import opened TypeSys
  import opened Registers
  import opened X86Flags
  import X86Instr
  import X86Machine
  import X86Lower
  import X86Compare
  import A64Instr
  import A64Machine
  import A64Lower
  import A64Compare
  import A64Linker

  // the compiler's numbering
  const EQ := 0
  const NE := 1
  const HS := 2
  const LO := 3
  const HI := 8
  const LS := 9
  const GE := 10
  const LT := 11
  const AL := 14
  const NV := 15

  type Cond = c: nat | c < 16

  function CondFlip(cond: Cond): (c: Cond) { if cond % 2 == 0 then cond + 1 else cond - 1 }

  /** The conditions that constants can be compared with; the flag tests 4..7 cannot. */
  predicate Evaluable(cond: Cond) { !(4 <= cond <= 7) }

  /** Evaluation of two 64-bit constants. */
  function CondEval(cond: Cond, lhs: int, rhs: int): bool
    requires Evaluable(cond)
  {
    var (ul, ur) := (lhs % P64, rhs % P64);
    match cond
    case 0 => lhs == rhs
    case 1 => lhs != rhs
    case 10 => lhs >= rhs
    case 11 => lhs < rhs
    case 12 => lhs > rhs
    case 13 => lhs <= rhs
    case 2 => ul >= ur
    case 3 => ul < ur
    case 8 => ul > ur
    case 9 => ul <= ur
    case 14 => true
    case 15 => false
  }

  /** Flipping negates, and flipping twice changes nothing. */
  lemma FlipNegates(cond: Cond, lhs: int, rhs: int)
    ensures CondFlip(CondFlip(cond)) == cond
    ensures Evaluable(cond) ==> Evaluable(CondFlip(cond)) && CondEval(CondFlip(cond), lhs, rhs) == !CondEval(cond, lhs, rhs)
  {
    match cond
    case 0 =>
    case 1 =>
    case 2 =>
    case 3 =>
    case _ =>
  }

  // ---- Flags of a comparison ----

  function ACompare(w: nat, a: nat, b: nat): A64Machine.Flags { A64Machine.AddSubFlags(w, true, a, b) }

  /** What a condition means for two operands of w bytes. */
  predicate Means(cond: Cond, w: nat, a: nat, b: nat)
    requires Evaluable(cond)
  {
    match cond
    case 0 => a == b
    case 1 => a != b
    case 2 => a >= b
    case 3 => a < b
    case 8 => a > b
    case 9 => a <= b
    case 10 => Signed(w, a) >= Signed(w, b)
    case 11 => Signed(w, a) < Signed(w, b)
    case 12 => Signed(w, a) > Signed(w, b)
    case 13 => Signed(w, a) <= Signed(w, b)
    case _ => cond == AL
  }

  /** Subtraction is zero only for equal operands, and its sign read with the overflow flag is
      the signed order. */
  lemma Difference(w: nat, a: nat, b: nat)
    requires IsSize(w) && FitsU(w, a) && FitsU(w, b)
    ensures Low(w, a - b) == 0 <==> a == b
    ensures var r := Low(w, a - b); var v := Signed(w, r) != Signed(w, a) - Signed(w, b);
      (Signed(w, r) < 0) != v <==> Signed(w, a) < Signed(w, b)
    ensures a == b <==> Signed(w, a) == Signed(w, b)
  {
    hide Low, Signed, FitsU, Half;
    LowDifference(w, a, b);
    SignedOf(w, a);
    SignedOf(w, b);
    SignedOf(w, Low(w, a - b));
  }

  predicate HasX86(cond: Cond) { cond < |COND_CC| }

  /** After a full-width compare every condition but "always" and "never" holds on either
      machine exactly when it holds of the operands. */
  lemma FlagsMean(cond: Cond, w: nat, a: nat, b: nat)
    requires IsSize(w) && FitsU(w, a) && FitsU(w, b) && Evaluable(cond) && cond < AL
    ensures HasX86(cond) && XHolds(CondCode(cond), XCompare(w, a, b)) == Means(cond, w, a, b)
    ensures w >= 4 ==>
      A64Machine.CondHolds(A64Linker.CondCode(cond), ACompare(w, a, b)) == Means(cond, w, a, b)
  {
    hide Low, Signed, FitsU;
    Difference(w, a, b);
    match cond
    case 0 =>
    case 1 =>
    case 2 =>
    case 3 =>
    case 8 =>
    case 9 =>
    case 10 =>
    case 11 =>
    case 12 =>
    case 13 =>
  }

  /** The flag tests agree as well, so both machines always take the same side. */
  lemma MachinesAgree(cond: Cond, w: nat, a: nat, b: nat)
    requires (w == 4 || w == 8) && FitsU(w, a) && FitsU(w, b) && cond < 14
    ensures XHolds(CondCode(cond), XCompare(w, a, b)) == A64Machine.CondHolds(A64Linker.CondCode(cond), ACompare(w, a, b))
  {
    hide Low, Signed, FitsU;
    Difference(w, a, b);
    if Evaluable(cond) {
      FlagsMean(cond, w, a, b);
    } else {
      match cond
      case 4 =>
      case 5 =>
      case 6 =>
      case 7 =>
    }
  }

  /** Operands that are the low bytes of two 64-bit numbers in the width's range (signed for the
      signed orders, unsigned for the unsigned ones, either for equality). */
  predicate InRange(cond: Cond, w: nat, lhs: int, rhs: int) {
    if cond == EQ || cond == NE then (FitsS(w, lhs) && FitsS(w, rhs)) || (FitsU(w, lhs) && FitsU(w, rhs))
    else if cond >= GE then FitsS(w, lhs) && FitsS(w, rhs)
    else FitsU(w, lhs) && FitsU(w, rhs)
  }

  /** Comparing at run time decides as folding does: always at 64 bits, and at 32 bits for
      values in range. */
  lemma MeansIsEval(cond: Cond, w: nat, lhs: int, rhs: int)
    requires (w == 4 || w == 8) && Evaluable(cond) && IsI64(lhs) && IsI64(rhs)
    requires w == 8 || InRange(cond, w, lhs, rhs)
    ensures Means(cond, w, Low(w, lhs), Low(w, rhs)) == CondEval(cond, lhs, rhs)
  {
    if w == 8 {
      Eval8(cond, lhs, rhs);
    } else {
      Eval4(cond, lhs, rhs);
    }
  }

  lemma Eval8(cond: Cond, lhs: int, rhs: int)
    requires Evaluable(cond) && IsI64(lhs) && IsI64(rhs)
    ensures Means(cond, 8, Low(8, lhs), Low(8, rhs)) == CondEval(cond, lhs, rhs)
  {
    SignedBack(8, lhs);
    SignedBack(8, rhs);
    match cond
    case 0 =>
    case 1 =>
    case _ =>
  }

  lemma SignedBack(w: nat, v: int)
    requires IsSize(w) && FitsS(w, v)
    ensures Signed(w, Low(w, v)) == v
  {
    SignedLow(w, v);
    SignedFits(w, v);
  }

  lemma Eval4(cond: Cond, lhs: int, rhs: int)
    requires Evaluable(cond) && IsI64(lhs) && IsI64(rhs) && InRange(cond, 4, lhs, rhs)
    ensures Means(cond, 4, Low(4, lhs), Low(4, rhs)) == CondEval(cond, lhs, rhs)
  {
    if FitsS(4, lhs) && FitsS(4, rhs) {
      SignedBack(4, lhs);
      SignedBack(4, rhs);
    }
    if FitsU(4, lhs) && FitsU(4, rhs) {
      LowSmall(4, lhs);
      LowSmall(4, rhs);
      LowSmall(8, lhs);
      LowSmall(8, rhs);
    }
    match cond
    case 0 =>
    case 1 =>
    case _ =>
  }

  // ---- "Always" and "never" ----

  /** x86-64 has no code for them and refuses; on AArch64 both codes are taken, so a branch is
      exact for every condition but "never". */
  lemma BranchExact(cond: Cond, w: nat, lhs: int, rhs: int)
    requires Evaluable(cond) && IsI64(lhs) && IsI64(rhs)
    ensures HasX86(cond) <==> cond < AL
    ensures A64Machine.CondHolds(A64Linker.CondCode(cond), ACompare(8, Low(8, lhs), Low(8, rhs))) == CondEval(cond, lhs, rhs)
      <==> cond != NV
  {
    hide Low, Signed;
    LowLow(8, lhs);
    LowLow(8, rhs);
    if cond < AL {
      FlagsMean(cond, 8, Low(8, lhs), Low(8, rhs));
      MeansIsEval(cond, 8, lhs, rhs);
    }
  }

  function CondSetInstr(cond: Cond, rd: A64Instr.RegNo): A64Instr.Instr {
    A64Instr.Csinc(false, 31, CondFlip(A64Linker.CondCode(cond)), 31, rd)
  }

  /** Setting a register from a condition gives 1 exactly when the condition holds, except for
      "always", whose inverse is taken too. */
  lemma CondSetExact(cond: Cond, rd: A64Instr.RegNo, s: A64Machine.State)
    requires rd != 31
    ensures var t := A64Machine.Exec(CondSetInstr(cond, rd), s);
      t.regs[rd] == (if A64Machine.CondHolds(cond, s.flags) && cond < AL then 1 else 0)
  {
  }

  /** On x86-64 behind a full-width compare the register is 1 exactly when the condition holds of
      the operands, and 0 otherwise, for every condition it accepts. */
  lemma X86CondSetExact(cond: Cond, dst: Reg, w: nat, a: nat, b: nat, s: X86Machine.State)
    requires Evaluable(cond) && HasX86(cond) && IsSize(w) && FitsU(w, a) && FitsU(w, b)
    requires InTable(dst) && IsSize(X86Lower.CondWide(dst).rsize)
    ensures X86Machine.StraightCode(X86Lower.CondMove(dst))
    ensures X86Machine.Run(X86Lower.CondMove(dst), X86Machine.Set(X86Instr.SetCC(CondCode(cond), X86No(dst)), XCompare(w, a, b), s))
      == X86Lower.Moved(s, X86Lower.CondWide(dst).rsize, X86No(dst), if Means(cond, w, a, b) then 1 else 0)
  {
    hide X86Machine.Run, XCompare, XHolds, CondCode, X86No, Means;
    X86Lower.CondSetMeaning(cond, dst, XCompare(w, a, b), s);
    FlagsMean(cond, w, a, b);
  }

  // ---- A conditional block ----

  datatype Operand = Value(value: int) | Register

  /** What is generated for `lhs cond rhs -> block`. */
  datatype Plan = Inline | Omit | Guarded(skip: Cond) | Error

  function CompareBranch(cond: Cond, lhs: Operand, rhs: Operand): Plan
    requires lhs.Value? && rhs.Value? ==> Evaluable(cond)
  {
    if lhs.Value? then
      if rhs.Value? then if CondEval(cond, lhs.value, rhs.value) then Inline else Omit
      else Error
    else Guarded(CondFlip(cond))
  }

  datatype MachineFlags = OnX86(x: XFlags) | OnA64(a: A64Machine.Flags)

  /** Whether the block is executed under the flags of the emitted comparison; a guard that the
      machine cannot encode is an error. */
  function Runs(plan: Plan, f: MachineFlags): Option<bool> {
    match plan
    case Inline => Some(true)
    case Omit => Some(false)
    case Error => None
    case Guarded(skip) =>
      match f
      case OnX86(x) => if HasX86(skip) then Some(!XHolds(CondCode(skip), x)) else None
      case OnA64(a) => Some(!A64Machine.CondHolds(A64Linker.CondCode(skip), a))
  }

  /** The condition can guard a block. */
  predicate Guards(cond: Cond) { Evaluable(cond) && cond < AL }

  /** Under the flags of a full-width compare the block runs exactly when the condition holds of
      the operands. */
  lemma GuardMeans(cond: Cond, w: nat, a: nat, b: nat)
    requires Guards(cond) && IsSize(w) && FitsU(w, a) && FitsU(w, b)
    ensures Runs(Guarded(CondFlip(cond)), OnX86(XCompare(w, a, b))) == Some(Means(cond, w, a, b))
    ensures w >= 4 ==> Runs(Guarded(CondFlip(cond)), OnA64(ACompare(w, a, b))) == Some(Means(cond, w, a, b))
  {
    hide Low, Signed, XCompare, XHolds, FitsU, ACompare;
    var skip := CondFlip(cond);
    MeansFlip(cond, w, a, b);
    FlagsMean(skip, w, a, b);
  }

  lemma MeansFlip(cond: Cond, w: nat, a: nat, b: nat)
    requires Guards(cond)
    ensures Guards(CondFlip(cond)) && Means(CondFlip(cond), w, a, b) == !Means(cond, w, a, b)
  {
    hide Low, Signed, FitsU;
    if cond == 0 || cond == 1 || cond == 2 || cond == 3 {
    } else {
    }
  }

  /** A block guarded by a comparison runs exactly when the comparison holds, on both machines
      and whether it was folded or emitted. */
  lemma BlockRuns(cond: Cond, w: nat, lhs: int, rhs: int, f: MachineFlags)
    requires Guards(cond) && (w == 4 || w == 8) && IsI64(lhs) && IsI64(rhs)
    requires w == 8 || InRange(cond, w, lhs, rhs)
    requires f == OnX86(Comparison(w, lhs, rhs)) || f == OnA64(A64Compare.Comparison(w, lhs, rhs))
    ensures Runs(CompareBranch(cond, Value(lhs), Value(rhs)), f) == Some(CondEval(cond, lhs, rhs))
    ensures Runs(CompareBranch(cond, Register, Register), f) == Some(CondEval(cond, lhs, rhs))
  {
    hide Low, Signed, CondEval, XCompare, XHolds, A64Machine.AddSubFlags;
    LowLow(w, lhs);
    LowLow(w, rhs);
    GuardMeans(cond, w, Low(w, lhs), Low(w, rhs));
    MeansIsEval(cond, w, lhs, rhs);
  }

  // ---- The comparisons that are emitted ----

  /** The condition holds of two numbers at w bytes. */
  predicate Holds(cond: Cond, w: nat, a: int, b: int)
    requires Evaluable(cond)
  {
    Means(cond, w, Low(w, a), Low(w, b))
  }

  /** A register against a register on x86-64, at the wider width: right wherever neither is
      overwritten and no narrower left operand is tested for equality. */
  lemma X86RegisterBlock(cond: Cond, lhs: Reg, rhs: Reg, s: X86Machine.State)
    requires Guards(cond) && X86Lower.Operand(lhs) && X86Lower.Operand(rhs)
    requires !X86Compare.Clobbers(lhs, rhs, cond) && !X86Compare.Raw(lhs, rhs, cond)
    ensures var f := X86Machine.FlagsAfter(X86Compare.Comparing(lhs, rhs, cond), s);
      Runs(CompareBranch(cond, Register, Register), OnX86(f))
        == Some(Holds(cond, X86Lower.Wider(lhs, rhs).rsize, X86Lower.ValueOf(s, lhs), X86Lower.ValueOf(s, rhs)))
  {
    hide Low, Signed, Reading, XCompare, XHolds, X86Machine.FlagsAfter, X86Machine.EndsInCompare, X86Compare.CmpRegCode, X86No;
    var (w, a, b) := (X86Lower.Wider(lhs, rhs).rsize, X86Lower.ValueOf(s, lhs), X86Lower.ValueOf(s, rhs));
    X86Compare.CmpRegExact(lhs, rhs, cond);
    assert X86Compare.Decides(lhs, rhs, cond, s);
    LowLow(w, a);
    LowLow(w, b);
    GuardMeans(cond, w, Low(w, a), Low(w, b));
  }

  /** And on AArch64, at 32 or 64 bits. */
  lemma A64RegisterBlock(cond: Cond, lhs: Reg, rhs: Reg, s: A64Machine.State)
    requires Guards(cond) && A64Compare.CmpOperands(lhs, rhs) && A64Compare.CmpFits(lhs, rhs)
    ensures var f := A64Machine.Run(A64Compare.Comparing(lhs, rhs), s).flags;
      Runs(CompareBranch(cond, Register, Register), OnA64(f))
        == Some(Holds(cond, A64Compare.CmpWidth(lhs, rhs), A64Lower.ValueOf(s, lhs), A64Lower.ValueOf(s, rhs)))
  {
    hide Low, Signed, Reading, A64Machine.AddSubFlags, A64Machine.Run, A64Compare.CmpRegCode;
    var (w, a, b) := (A64Compare.CmpWidth(lhs, rhs), A64Lower.ValueOf(s, lhs), A64Lower.ValueOf(s, rhs));
    A64Compare.CmpRegExact(lhs, rhs);
    assert A64Compare.Decides(lhs, rhs, s);
    LowLow(w, a);
    LowLow(w, b);
    GuardMeans(cond, w, Low(w, a), Low(w, b));
  }

  /** Two constants that differ are told apart by every condition. */
  function Between(cond: Cond, w: nat, u: nat, v: nat): (a: nat)
    ensures a == u || a == v
  {
    if cond == EQ || cond == NE then u
    else if cond == HS || cond == LO then if u < v then u else v
    else if cond == HI || cond == LS then if u < v then v else u
    else if cond == GE || cond == LT then if Signed(w, u) < Signed(w, v) then u else v
    else if Signed(w, u) < Signed(w, v) then v else u
  }

  lemma ToldApart(cond: Cond, w: nat, u: nat, v: nat)
    requires Guards(cond) && IsSize(w) && FitsU(w, u) && FitsU(w, v) && u != v
    ensures var a := Between(cond, w, u, v); FitsU(w, a) && Means(cond, w, a, u) != Means(cond, w, a, v)
  {
    hide Low, Signed;
    SignedOf(w, u);
    SignedOf(w, v);
    LowDifference(w, u, v);
  }

  /** The block behind a comparison of a register with a constant. */
  ghost predicate X86ConstantRight(cond: Cond, sz: nat, r: X86Instr.RegNo, c: int, s: X86Machine.State)
    requires Guards(cond) && IsSize(sz)
  {
    Runs(CompareBranch(cond, Register, Value(c)), OnX86(X86Machine.FlagsOf(X86Compare.StraightCmp(sz, r, c), s)))
      == Some(Holds(cond, sz, s.regs[r], c))
  }

  /** On x86-64 it runs as the condition says at the operand's width, in every state and right
      behind the compare, exactly when the constant fits: a byte at 16 bits, 32 bits signed at 64
      bits. */
  lemma X86ConstantBlock(cond: Cond, sz: nat, r: X86Instr.RegNo, c: int)
    requires Guards(cond) && IsSize(sz) && IsI64(c)
    ensures X86Compare.Stray(sz, c) == [] && (forall s: X86Machine.State :: X86ConstantRight(cond, sz, r, c, s))
      <==> X86Compare.ConstFits(sz, c)
  {
    hide Low, Signed, XCompare, XHolds, X86Machine.FlagsOf, Means, FitsU, X86Compare.StraightCmp, X86Compare.ImmUsed;
    var (u, v) := (Low(sz, X86Compare.ImmUsed(sz, c)), Low(sz, c));
    LowLow(sz, X86Compare.ImmUsed(sz, c));
    LowLow(sz, c);
    X86Compare.ImmUsedExact(sz, c);
    forall s: X86Machine.State
      ensures X86ConstantRight(cond, sz, r, c, s)
        <==> Holds(cond, sz, s.regs[r], X86Compare.ImmUsed(sz, c)) == Holds(cond, sz, s.regs[r], c)
    {
      X86Compare.CmpImmFlags(sz, r, c, s);
      LowLow(sz, s.regs[r]);
      GuardMeans(cond, sz, Low(sz, s.regs[r]), u);
    }
    if u != v {
      ToldApart(cond, sz, u, v);
      var a := Between(cond, sz, u, v);
      var s := X86Compare.Filled(a);
      assert s.regs[r] == a && Low(sz, a) == a;
      assert !X86ConstantRight(cond, sz, r, c, s);
    }
  }

  ghost predicate A64ConstantRight(cond: Cond, lhs: Reg, c: int, s: A64Machine.State)
    requires Guards(cond) && General(lhs)
  {
    Runs(CompareBranch(cond, Register, Value(c)), OnA64(A64Machine.Exec(A64Compare.ComparingImm(lhs, c), s).flags))
      == Some(Holds(cond, A64Machine.Bytes(lhs.rsize > 4), s.regs[A64No(lhs)], c))
  }

  /** The constant is one of the operand's width. */
  predicate OfWidth(w: nat, c: int) { if w == 8 then IsI64(c) else FitsS(4, c) || FitsU(4, c) }

  /** On AArch64 exactly when the constant has an encoding. */
  lemma A64ConstantBlock(cond: Cond, lhs: Reg, c: int)
    requires Guards(cond) && General(lhs) && OfWidth(A64Machine.Bytes(lhs.rsize > 4), c)
    ensures (forall s: A64Machine.State :: A64ConstantRight(cond, lhs, c, s))
      <==> A64Lower.ImmExact(A64Machine.Bytes(lhs.rsize > 4), c)
  {
    hide Low, Signed, A64Machine.AddSubFlags, A64Machine.Exec, A64Machine.Straight, Means, FitsU, A64Lower.ImmUsed, A64Lower.ImmExact, A64Compare.CmpImmInstr;
    var w := A64Machine.Bytes(lhs.rsize > 4);
    forall s: A64Machine.State
      ensures A64ConstantRight(cond, lhs, c, s) <==> GuardRight(cond, w, c, s.regs[A64No(lhs)])
    {
      A64Compare.CmpImmMeaning(lhs, c, s);
    }
    NothingLost(w, c);
    if A64Lower.ImmExact(w, c) {
      forall s: A64Machine.State ensures GuardRight(cond, w, c, s.regs[A64No(lhs)]) {
        ExactGuard(cond, w, c, s.regs[A64No(lhs)]);
      }
    } else {
      var a := WrongAt(cond, w, c);
      WrongGuard(cond, w, c);
      var s := A64Compare.Filled(a);
      assert s.regs[A64No(lhs)] == a;
      assert !A64ConstantRight(cond, lhs, c, s);
    }
  }

  /** The guard decides a compare of the register value a with the constant. */
  predicate GuardRight(cond: Cond, w: nat, c: int, a: int)
    requires Guards(cond) && (w == 4 || w == 8)
  {
    Runs(Guarded(CondFlip(cond)), OnA64(A64Compare.ImmFlags(w, a, c))) == Some(Holds(cond, w, a, c))
  }

  lemma NothingLost(w: nat, c: int)
    requires (w == 4 || w == 8) && OfWidth(w, c)
    ensures IsI64(c)
    ensures A64Compare.LosesCarry(c) ==> !A64Lower.ImmExact(w, c) && Low(w, c) < Low(w, -1)
  {
  }

  lemma ExactGuard(cond: Cond, w: nat, c: int, a: int)
    requires Guards(cond) && (w == 4 || w == 8) && IsI64(c) && A64Lower.ImmExact(w, c) && !A64Compare.LosesCarry(c)
    ensures GuardRight(cond, w, c, a)
  {
    hide Low, A64Machine.AddSubFlags, Means, FitsU, A64Lower.ImmUsed, A64Lower.ImmExact;
    A64Compare.FlagsSame(w, c, a);
    LowLow(w, a);
    LowLow(w, c);
    GuardMeans(cond, w, Low(w, a), Low(w, c));
  }

  /** A register value for which an unencodable constant is compared wrongly. */
  function WrongAt(cond: Cond, w: nat, c: int): (a: U64)
    requires w == 4 || w == 8
  {
    LowLow(w, c);
    LowLow(w, A64Compare.Used(c));
    if A64Compare.LosesCarry(c) && (cond == HS || cond == LO) then Low(w, c)
    else if A64Compare.LosesCarry(c) && (cond == HI || cond == LS) then Low(w, -1)
    else Between(cond, w, Low(w, A64Compare.Used(c)), Low(w, c))
  }

  predicate Unsigned(cond: Cond) { cond == HS || cond == LO || cond == HI || cond == LS }

  /** The constant is compared as the field cuts it... */
  lemma CutGuard(cond: Cond, w: nat, c: int, a: int)
    requires Guards(cond) && (w == 4 || w == 8) && !(A64Compare.LosesCarry(c) && Unsigned(cond))
    ensures Runs(Guarded(CondFlip(cond)), OnA64(A64Compare.ImmFlags(w, a, c))) == Some(Holds(cond, w, a, A64Compare.Used(c)))
  {
    hide Low, Signed, A64Machine.AddSubFlags, Means, FitsU, A64Lower.ImmUsed;
    var (l, r) := (Low(w, a), Low(w, A64Compare.Used(c)));
    LowLow(w, a);
    LowLow(w, A64Compare.Used(c));
    GuardMeans(cond, w, l, r);
  }

  /** ...and as an unsigned number above every other when its carry is lost. */
  lemma LostGuard(cond: Cond, w: nat, c: int, a: int)
    requires Guards(cond) && (w == 4 || w == 8) && A64Compare.LosesCarry(c) && Unsigned(cond)
    ensures Runs(Guarded(CondFlip(cond)), OnA64(A64Compare.ImmFlags(w, a, c))) == Some(cond == LO || cond == LS)
  {
    hide Low, Signed, A64Machine.AddSubFlags, A64Lower.ImmUsed;
  }

  lemma WrongGuard(cond: Cond, w: nat, c: int)
    requires Guards(cond) && (w == 4 || w == 8) && IsI64(c) && !A64Lower.ImmExact(w, c)
    requires A64Compare.LosesCarry(c) ==> Low(w, c) < Low(w, -1)
    ensures !GuardRight(cond, w, c, WrongAt(cond, w, c))
  {
    hide Low, Signed, A64Machine.AddSubFlags, A64Lower.ImmUsed, A64Lower.ImmExact, Runs, Between;
    var a := WrongAt(cond, w, c);
    var (u, v) := (Low(w, A64Compare.Used(c)), Low(w, c));
    LowLow(w, c);
    LowLow(w, -1);
    LowLow(w, A64Compare.Used(c));
    if A64Compare.LosesCarry(c) && Unsigned(cond) {
      LostGuard(cond, w, c, a);
    } else {
      CutGuard(cond, w, c, a);
      A64Compare.UsedExact(w, c);
      ToldApart(cond, w, u, v);
      LowSmall(w, a);
    }
  }
}
