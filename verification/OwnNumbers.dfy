// Operands of any width compared with a constant: when the guarded block follows the operand's own
// number, and not just the bits that happen to be compared.
module OwnNumbers {
  import opened Words
  import opened TypeSys
  import opened Registers
  import opened X86Flags
  import opened Conditions
  import X86Instr
  import X86Machine
  import X86Compare
  import A64Machine
  import A64Lower
  import A64Compare

  /** The conditions for operands of that sign; equality is for both. */
  predicate Suits(cond: Cond, signed: bool) {
    Conditions.Guards(cond) && (cond == EQ || cond == NE || (signed <==> cond >= GE))
  }

  /** The condition holds of two numbers, whatever their size. */
  predicate Compares(cond: Cond, v: int, c: int)
    requires Conditions.Guards(cond)
  {
    if cond == EQ then v == c
    else if cond == NE then v != c
    else if cond == HS || cond == GE then v >= c
    else if cond == LO || cond == LT then v < c
    else if cond == HI || cond == 12 then v > c
    else v <= c
  }

  /** A number that an operand of w bytes can stand for. */
  predicate Representable(signed: bool, w: nat, c: int) { if signed then FitsS(w, c) else FitsU(w, c) }

  lemma ReadingFits(signed: bool, w: nat, x: int)
    requires IsSize(w)
    ensures Representable(signed, w, Reading(signed, w, x)) && Low(w, Reading(signed, w, x)) == Low(w, x)
  {
    hide Low, Signed;
    SignedRange(w, x);
    SignedLow(w, x);
    LowLow(w, x);
  }

  /** Representable numbers are told apart by their low bytes. */
  lemma SameLow(signed: bool, w: nat, v: int, c: int)
    requires IsSize(w) && Representable(signed, w, v) && Representable(signed, w, c)
    ensures Low(w, v) == Low(w, c) <==> v == c
  {
    hide Low, Signed;
    if signed {
      SignedBack(w, v);
      SignedBack(w, c);
    } else {
      LowSmall(w, v);
      LowSmall(w, c);
    }
  }

  /** Compared at their width they are compared as numbers. */
  lemma HoldsOwn(cond: Cond, signed: bool, w: nat, v: int, c: int)
    requires Suits(cond, signed) && IsSize(w) && Representable(signed, w, v) && Representable(signed, w, c)
    ensures Holds(cond, w, v, c) == Compares(cond, v, c)
  {
    hide Low, Signed;
    SameLow(signed, w, v, c);
    if signed {
      SignedBack(w, v);
      SignedBack(w, c);
    } else {
      LowSmall(w, v);
      LowSmall(w, c);
    }
  }

  // ---- x86-64 ----

  /** The block behind the emitted comparison runs as the condition says of the number. */
  ghost predicate X86Own(cond: Cond, sz: nat, r: X86Instr.RegNo, signed: bool, c: int, s: X86Machine.State)
    requires Conditions.Guards(cond) && IsSize(sz)
  {
    Runs(CompareBranch(cond, Register, Value(c)), OnX86(X86Machine.FlagsOf(X86Compare.StraightCmp(sz, r, c), s)))
      == Some(Compares(cond, Reading(signed, sz, s.regs[r]), c))
  }

  /** The emitted comparison is one with what the immediate field holds. */
  lemma X86Emitted(cond: Cond, sz: nat, r: X86Instr.RegNo, c: int, s: X86Machine.State)
    requires Conditions.Guards(cond) && IsSize(sz)
    ensures Runs(CompareBranch(cond, Register, Value(c)), OnX86(X86Machine.FlagsOf(X86Compare.StraightCmp(sz, r, c), s)))
      == Some(Holds(cond, sz, s.regs[r], X86Compare.ImmUsed(sz, c)))
  {
    hide Low, Signed, XCompare, XHolds, X86Machine.FlagsOf, Means, FitsU, X86Compare.StraightCmp, X86Compare.ImmUsed;
    var u := X86Compare.ImmUsed(sz, c);
    X86Compare.CmpImmFlags(sz, r, c, s);
    LowLow(sz, s.regs[r]);
    LowLow(sz, u);
    GuardMeans(cond, sz, Low(sz, s.regs[r]), Low(sz, u));
  }

  /** For all conditions of its sign and in every state, exactly when the constant fits its field
      and the operand can stand for it. */
  lemma X86OwnExactly(sz: nat, r: X86Instr.RegNo, signed: bool, c: int)
    requires IsSize(sz) && IsI64(c)
    ensures X86Compare.Stray(sz, c) == []
        && (forall s: X86Machine.State, cond: Cond | Suits(cond, signed) :: X86Own(cond, sz, r, signed, c, s))
      <==> X86Compare.ConstFits(sz, c) && Representable(signed, sz, c)
  {
    hide Low, Signed, Reading, Runs, Holds, X86Machine.FlagsOf, X86Compare.ImmUsed, X86Compare.StraightCmp, FitsS, FitsU;
    var u := X86Compare.ImmUsed(sz, c);
    X86Compare.ImmUsedExact(sz, c);
    if X86Compare.ConstFits(sz, c) && Representable(signed, sz, c) {
      forall s: X86Machine.State, cond: Cond | Suits(cond, signed) ensures X86Own(cond, sz, r, signed, c, s) {
        X86Emitted(cond, sz, r, c, s);
        ReadingFits(signed, sz, s.regs[r]);
        HoldsLow(cond, sz, s.regs[r], u, Reading(signed, sz, s.regs[r]), c);
        HoldsOwn(cond, signed, sz, Reading(signed, sz, s.regs[r]), c);
      }
    } else if X86Compare.Stray(sz, c) == [] {
      LowLow(sz, u);
      var a: U64 := Low(sz, u);
      var s := X86Compare.Filled(a);
      assert s.regs[r] == a;
      X86Emitted(EQ, sz, r, c, s);
      EqualHolds(sz, a, u);
      ReadingFits(signed, sz, a);
      assert !X86Own(EQ, sz, r, signed, c, s);
    }
  }

  /** Only the low bytes are compared. */
  lemma HoldsLow(cond: Cond, w: nat, a: int, b: int, v: int, c: int)
    requires Conditions.Guards(cond) && Low(w, a) == Low(w, v) && Low(w, b) == Low(w, c)
    ensures Holds(cond, w, a, b) == Holds(cond, w, v, c)
  {
  }

  lemma EqualHolds(w: nat, a: int, b: int)
    ensures Holds(EQ, w, a, b) <==> Low(w, a) == Low(w, b)
  {
  }

  // ---- AArch64 ----

  ghost predicate A64Own(cond: Cond, lhs: Reg, c: int, s: A64Machine.State)
    requires Conditions.Guards(cond) && A64Lower.Operand(lhs)
  {
    Runs(CompareBranch(cond, Register, Value(c)), OnA64(A64Machine.Exec(A64Compare.ComparingImm(lhs, c), s).flags))
      == Some(Compares(cond, A64Lower.ValueOf(s, lhs), c))
  }

  /** The 32-bit register holds the extended number, which is all that a narrow comparison reads. */
  ghost predicate Held(lhs: Reg, s: A64Machine.State)
    requires A64Lower.Operand(lhs)
  {
    var w := A64Machine.Bytes(lhs.rsize > 4);
    Low(w, s.regs[A64No(lhs)]) == Low(w, A64Lower.ValueOf(s, lhs))
  }

  /** Then the number is compared with a constant that has an encoding. */
  lemma A64HeldOwn(cond: Cond, lhs: Reg, c: int, s: A64Machine.State)
    requires A64Lower.Operand(lhs) && Suits(cond, IsSigned(lhs)) && Held(lhs, s) && IsI64(c)
    requires A64Lower.ImmExact(A64Machine.Bytes(lhs.rsize > 4), c) && Representable(IsSigned(lhs), lhs.rsize, c)
    ensures A64Own(cond, lhs, c, s)
  {
    hide Low, Signed, Reading, Runs, Holds, A64Machine.Exec, A64Machine.Straight, A64Compare.CmpImmInstr, A64Lower.ImmExact, A64Compare.ImmFlags;
    var (w, v) := (A64Machine.Bytes(lhs.rsize > 4), A64Lower.ValueOf(s, lhs));
    A64Compare.CmpImmMeaning(lhs, c, s);
    WiderFits(IsSigned(lhs), lhs.rsize, c);
    NothingLost(w, c);
    ExactGuard(cond, w, c, s.regs[A64No(lhs)]);
    HoldsLow(cond, w, s.regs[A64No(lhs)], c, v, c);
    ReadingFits(IsSigned(lhs), lhs.rsize, s.regs[A64No(lhs)]);
    WiderFits(IsSigned(lhs), lhs.rsize, v);
    HoldsOwn(cond, IsSigned(lhs), w, v, c);
  }

  lemma WiderFits(signed: bool, sz: nat, c: int)
    requires IsSize(sz) && Representable(signed, sz, c)
    ensures var w := A64Machine.Bytes(sz > 4);
      Representable(signed, w, c) && (w == 4 || IsI64(c) ==> OfWidth(w, c))
  {
  }

  lemma A64Emitted(lhs: Reg, c: int, s: A64Machine.State)
    requires General(lhs)
    ensures Runs(CompareBranch(EQ, Register, Value(c)), OnA64(A64Machine.Exec(A64Compare.ComparingImm(lhs, c), s).flags))
      == Some(Holds(EQ, A64Machine.Bytes(lhs.rsize > 4), s.regs[A64No(lhs)], A64Compare.Used(c)))
  {
    hide Low, Signed, Runs, Holds, A64Machine.Exec, A64Machine.Straight, A64Compare.CmpImmInstr, A64Compare.ImmFlags;
    A64Compare.CmpImmMeaning(lhs, c, s);
    CutGuard(EQ, A64Machine.Bytes(lhs.rsize > 4), c, s.regs[A64No(lhs)]);
  }

  /** For all conditions of its sign and in every state, exactly when the operand is no narrower
      than a register, can stand for the constant, and the constant has an encoding. */
  lemma A64OwnExactly(lhs: Reg, c: int)
    requires A64Lower.Operand(lhs) && IsI64(c)
    ensures (forall s: A64Machine.State, cond: Cond | Suits(cond, IsSigned(lhs)) :: A64Own(cond, lhs, c, s))
      <==> lhs.rsize >= 4 && A64Lower.ImmExact(A64Machine.Bytes(lhs.rsize > 4), c) && Representable(IsSigned(lhs), lhs.rsize, c)
  {
    hide Low, Signed, Reading, Runs, Holds, A64Machine.Exec, A64Compare.ComparingImm, A64Lower.ImmExact, A64Compare.Used, FitsS, FitsU;
    var w := A64Machine.Bytes(lhs.rsize > 4);
    if lhs.rsize >= 4 && A64Lower.ImmExact(w, c) && Representable(IsSigned(lhs), lhs.rsize, c) {
      forall s: A64Machine.State, cond: Cond | Suits(cond, IsSigned(lhs)) ensures A64Own(cond, lhs, c, s) {
        ReadingFits(IsSigned(lhs), lhs.rsize, s.regs[A64No(lhs)]);
        A64HeldOwn(cond, lhs, c, s);
      }
    } else {
      var a := Misread(lhs, c);
      MisreadMeans(lhs, c);
      var s := A64Compare.Filled(a);
      assert s.regs[A64No(lhs)] == a;
      A64Emitted(lhs, c, s);
      EqualHolds(w, a, A64Compare.Used(c));
      assert !A64Own(EQ, lhs, c, s);
    }
  }

  /** A register that seems equal and is not, or is equal and does not seem so. */
  function Misread(lhs: Reg, c: int): U64
    requires A64Lower.Operand(lhs)
  {
    var w := A64Machine.Bytes(lhs.rsize > 4);
    LowLow(w, A64Compare.Used(c));
    var a := Low(w, A64Compare.Used(c));
    if Reading(IsSigned(lhs), lhs.rsize, a) == c then (a + Power(lhs.rsize)) % P32 else a
  }

  lemma MisreadMeans(lhs: Reg, c: int)
    requires A64Lower.Operand(lhs) && IsI64(c)
    requires var w := A64Machine.Bytes(lhs.rsize > 4);
      !(lhs.rsize >= 4 && A64Lower.ImmExact(w, c) && Representable(IsSigned(lhs), lhs.rsize, c))
    ensures var (w, a) := (A64Machine.Bytes(lhs.rsize > 4), Misread(lhs, c));
      (Low(w, a) == Low(w, A64Compare.Used(c))) != (Reading(IsSigned(lhs), lhs.rsize, a) == c)
  {
    hide A64Lower.ImmExact, A64Compare.Used, Signed, Reading, Low;
    var (w, u) := (A64Machine.Bytes(lhs.rsize > 4), A64Compare.Used(c));
    LowLow(w, u);
    A64Compare.UsedExact(w, c);
    var a := Low(w, u);
    ReadingFits(IsSigned(lhs), lhs.rsize, a);
    if Reading(IsSigned(lhs), lhs.rsize, a) == c {
      assert lhs.rsize < 4;
      var b := (a + Power(lhs.rsize)) % P32;
      SameBelow(lhs.rsize, a);
      LowSmall(4, b);
      ReadingOfLow(IsSigned(lhs), lhs.rsize, a, b);
    }
  }

  lemma ReadingOfLow(signed: bool, w: nat, a: int, b: int)
    requires IsSize(w) && Low(w, a) == Low(w, b)
    ensures Reading(signed, w, a) == Reading(signed, w, b)
  {
    hide Low, Signed;
    SignedLow(w, a);
    SignedLow(w, b);
  }

  lemma SameBelow(w: nat, a: nat)
    requires (w == 1 || w == 2) && a < P32
    ensures var b := (a + Power(w)) % P32; b != a && b < P32 && Low(w, b) == Low(w, a)
  {
  }
}
