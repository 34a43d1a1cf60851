// The instruction sequences that the x86-64 emitters choose, and what they compute.
module X86Lower {
  import opened Words
  import opened Bits
  import opened Registers
  import opened X86Instr
  import opened X86RoundTrip
  import opened X86Flags
  import opened X86Machine

  /** Straight-line code whose bytes decode back to it. */
  predicate Sound(code: seq<Instr>) { StraightCode(code) && AllFaithful(code) }

  // ---- Constants ----

  function MovCode(sz: int, r: RegNo, value: int): seq<Instr> {
    if value == 0 then [RR(OP_XOR_RM_R, if sz > 4 then 4 else sz, r, r)]
    else if sz <= 4 then [MovI(sz, r, Low(sz, value))]
    else if IsI32(value) then [MovSxI(r, value)]
    else if 0 < value < P32 then [MovI(4, r, value)]
    else [MovI(8, r, value % P64)]
  }

  /** Moving a value into a register at a given width. */
  ghost function Moved(s: State, sz: int, r: RegNo, v: int): State {
    s.(regs := s.regs[r := Merge(sz, s.regs[r], v)])
  }

  lemma ZeroIdiom(sz: int, r: RegNo, s: State)
    requires sz == 1 || sz == 2 || sz == 4
    ensures var i := RR(OP_XOR_RM_R, sz, r, r);
      Sound([i]) && Exec(i, s) == Moved(s, sz, r, 0)
  {
    XorSelf(Read(s, sz, r));
    assert DigitOf(OP_XOR_RM_R) == ALU_XOR;
  }

  lemma MovForms(sz: int, r: RegNo, value: int, s: State)
    requires IsSize(sz) && IsI64(value) && value != 0
    ensures var code := MovCode(sz, r, value);
      |code| == 1 && Sound(code) && Exec(code[0], s) == Moved(s, sz, r, value)
  {
    if sz <= 4 {
      var v := Low(sz, value);
      LowLow(sz, value);
      MergeMod(sz, s.regs[r], v, value);
    } else if IsI32(value) {
    } else if 0 < value < P32 {
      SmallMod(value, P32);
      SmallMod(value, P64);
    } else {
      SmallMod(value % P64, P64);
    }
  }

  /** Whichever form is chosen, it acts as one move of the constant at the operand's width. */
  lemma MovMeaning(sz: int, r: RegNo, value: int, s: State)
    requires IsSize(sz) && IsI64(value)
    ensures Sound(MovCode(sz, r, value))
    ensures Run(MovCode(sz, r, value), s) == Moved(s, sz, r, value)
    ensures Read(Run(MovCode(sz, r, value), s), sz, r) == Low(sz, value)
  {
    if value == 0 {
      ZeroIdiom(if sz > 4 then 4 else sz, r, s);
    } else {
      MovForms(sz, r, value, s);
    }
    var i := MovCode(sz, r, value)[0];
    assert MovCode(sz, r, value) == [i];
    Run1(i, s);
    MergeRead(sz, s.regs[r], value);
  }

  lemma MergeRead(sz: int, o: U64, v: int)
    requires IsSize(sz)
    ensures Low(sz, Merge(sz, o, v)) == Low(sz, v)
  {
    LowLow(sz, v);
    if sz < 4 {
      LowLow(sz, o);
      LowSum(sz, o, Low(sz, o), o, o);
      LowSum(sz, o - Low(sz, o), Low(sz, v), 0, v);
    }
  }

  lemma MergeMerge(sz: int, o: U64, v: int, w: int)
    requires IsSize(sz)
    ensures Merge(sz, Merge(sz, o, v), w) == Merge(sz, o, w)
  {
  }

  lemma MergeMod(sz: int, o: U64, v: int, w: int)
    requires IsSize(sz) && Low(sz, v) == Low(sz, w)
    ensures Merge(sz, o, v) == Merge(sz, o, w)
  {
  }

  // ---- Register moves and mixed-width sums ----

  /** The number an operand stands for at its own width and signedness. */
  ghost function ValueOf(s: State, r: Reg): int
    requires InTable(r)
  {
    Reading(IsSigned(r), r.rsize, s.regs[X86No(r)])
  }

  predicate Operand(r: Reg) { InTable(r) && IsSize(r.rsize) }

  function MovRegCode(dst: Reg, src: Reg): seq<Instr>
    requires InTable(dst) && InTable(src)
  {
    var d, r := X86No(dst), X86No(src);
    if dst.rsize > 0 && src.rsize > 0 && dst.rsize > src.rsize then
      if IsSigned(src) then
        if dst.rsize == 8 && src.rsize == 4 then [Movsxd(d, r)]
        else [Extend(true, dst.rsize, src.rsize, d, r)]
      else if dst.rsize == 8 && src.rsize == 4 then [RR(OP_MOV_RM_R, 4, r, d)]
      else [Extend(false, dst.rsize, src.rsize, d, r)]
    else
      [RR(OP_MOV_RM_R, RSize(if dst.rsize < src.rsize then Resize(dst, src.rsize) else dst), r, d)]
  }

  lemma WideningMove(dst: Reg, src: Reg, s: State)
    requires Operand(dst) && Operand(src) && dst.rsize > src.rsize
    ensures var code := MovRegCode(dst, src);
      |code| == 1 && Sound(code) && Exec(code[0], s) == Moved(s, dst.rsize, X86No(dst), ValueOf(s, src))
  {
    if dst.rsize == 8 && src.rsize == 4 {
      SmallMod(s.regs[X86No(src)] % P32, P64);
    }
  }

  lemma CopyingMove(dst: Reg, src: Reg, s: State)
    requires Operand(dst) && Operand(src) && dst.rsize <= src.rsize
    ensures var code := MovRegCode(dst, src);
      |code| == 1 && Sound(code) && Exec(code[0], s) == Moved(s, src.rsize, X86No(dst), s.regs[X86No(src)])
  {
    var x: int := s.regs[X86No(src)];
    MergeMod(src.rsize, s.regs[X86No(dst)], Low(src.rsize, x), x);
  }

  /** A widening move extends the source as its type says; any other copies it. */
  lemma MovRegMeaning(dst: Reg, src: Reg, s: State)
    requires Operand(dst) && Operand(src)
    ensures Sound(MovRegCode(dst, src))
    ensures dst.rsize >= src.rsize ==>
      Run(MovRegCode(dst, src), s) == Moved(s, dst.rsize, X86No(dst), ValueOf(s, src))
    ensures dst.rsize < src.rsize ==>
      Run(MovRegCode(dst, src), s) == Moved(s, src.rsize, X86No(dst), s.regs[X86No(src)])
  {
    if dst.rsize > src.rsize {
      WideningMove(dst, src, s);
    } else {
      CopyingMove(dst, src, s);
      if dst.rsize == src.rsize {
        WideValue(s, src, dst.rsize);
        MergeMod(src.rsize, s.regs[X86No(dst)], ValueOf(s, src), s.regs[X86No(src)]);
      }
    }
    var i := MovRegCode(dst, src)[0];
    assert MovRegCode(dst, src) == [i];
    Run1(i, s);
  }

  // ---- Conditions as numbers ----

  /** The byte is set, then extended: to 32 bits, or to the operand if that is wider than a byte. */
  function CondWide(dst: Reg): Reg { Resize(dst, if dst.rsize <= 1 then 4 else dst.rsize) }

  function CondMove(dst: Reg): seq<Instr>
    requires InTable(dst)
  {
    MovRegCode(CondWide(dst), dst.(rsize := 1, dtype := NoType))
  }

  function CondSetCode(cond: nat, dst: Reg): seq<Instr>
    requires cond < |COND_CC| && InTable(dst)
  {
    [SetCC(CondCode(cond), X86No(dst))] + CondMove(dst)
  }

  /** The register is left with 1 or 0, by the flags found, over its whole width. */
  lemma CondSetMeaning(cond: nat, dst: Reg, f: XFlags, s: State)
    requires cond < |COND_CC| && IsSize(CondWide(dst).rsize) && InTable(dst)
    ensures AllFaithful(CondSetCode(cond, dst)) && StraightCode(CondMove(dst))
    ensures Run(CondMove(dst), Set(SetCC(CondCode(cond), X86No(dst)), f, s))
      == Moved(s, CondWide(dst).rsize, X86No(dst), if XHolds(CondCode(cond), f) then 1 else 0)
  {
    hide XHolds, CondCode, X86No;
    var (d, w, byte) := (X86No(dst), CondWide(dst).rsize, dst.(rsize := 1, dtype := NoType));
    var v := if XHolds(CondCode(cond), f) then 1 else 0;
    SameRegister(dst);
    var t := Set(SetCC(CondCode(cond), d), f, s);
    MovRegMeaning(CondWide(dst), byte, t);
    MergeRead(1, s.regs[d], v);
    LowSmall(1, v);
    WiderMerge(w, s.regs[d], v);
  }

  lemma SameRegister(dst: Reg)
    requires InTable(dst)
    ensures X86No(CondWide(dst)) == X86No(dst) == X86No(dst.(rsize := 1, dtype := NoType))
  {
  }

  lemma WiderMerge(w: nat, o: U64, v: int)
    requires IsSize(w) && w > 1 && 0 <= v < 256
    ensures Merge(w, Merge(1, o, v), v) == Merge(w, o, v)
  {
    if w == 2 {
      ModDiv(o, 256, 256);
      var low := o % 256;
      DivModUnique(o - low + v, P16, o / P16, o % P16 - low + v);
    }
  }

  // ---- Sums ----

  function Wider(lhs: Reg, rhs: Reg): Reg { if lhs.rsize > rhs.rsize then lhs else rhs }
  function Narrower(lhs: Reg, rhs: Reg): Reg { if lhs.rsize > rhs.rsize then rhs else lhs }

  function AddRegCode(dst: Reg, lhs: Reg, rhs: Reg): seq<Instr>
    requires InTable(dst) && InTable(lhs) && InTable(rhs)
  {
    if lhs.rsize != rhs.rsize then
      MovRegCode(dst, Narrower(lhs, rhs)) + [RR(OP_ADD_RM_R, RSize(dst), X86No(Wider(lhs, rhs)), X86No(dst))]
    else
      [Mem(OP_LEA, RSize(dst), X86No(dst), X86No(lhs), Scaled(X86No(rhs), 1), 0)]
  }

  function SubRegCode(dst: Reg, lhs: Reg, rhs: Reg): seq<Instr>
    requires InTable(dst) && InTable(lhs) && InTable(rhs)
  {
    var d := X86No(dst);
    if lhs.rsize == rhs.rsize then
      [RR(OP_MOV_RM_R, RSize(dst), X86No(lhs), d), RR(OP_SUB_RM_R, RSize(dst), X86No(rhs), d)]
    else if rhs.rsize < lhs.rsize then
      MovRegCode(dst, rhs) + [RR(OP_SUB_RM_R, RSize(dst), X86No(lhs), d), Neg(RSize(dst), d)]
    else
      MovRegCode(dst, lhs) + [RR(OP_SUB_RM_R, RSize(dst), X86No(rhs), d)]
  }

  /** The result register is as wide as the wider operand. */
  predicate SumOperands(dst: Reg, lhs: Reg, rhs: Reg) {
    Operand(dst) && Operand(lhs) && Operand(rhs) && dst.rsize == Wider(lhs, rhs).rsize
  }

  /** The operands' own values, at the result's width, agree with the raw registers. */
  lemma WideValue(s: State, r: Reg, w: int)
    requires Operand(r) && r.rsize == w
    ensures Low(w, ValueOf(s, r)) == Low(w, s.regs[X86No(r)])
  {
  }

  /** dst := dst + operand, at width w. */
  lemma AluStep(s: State, op: Byte, w: int, reg: RegNo, d: RegNo, v: int, x: int)
    requires IsSize(w) && (op == OP_ADD_RM_R || op == OP_SUB_RM_R) && reg != d
    requires Low(w, s.regs[d]) == Low(w, v) && Low(w, s.regs[reg]) == Low(w, x)
    ensures var i := RR(op, w, reg, d);
      Sound([i]) && Exec(i, s) == Moved(s, w, d, if op == OP_ADD_RM_R then v + x else v - x)
  {
    var a, b := Low(w, s.regs[d]), Low(w, s.regs[reg]);
    LowLow(w, s.regs[d]);
    LowLow(w, s.regs[reg]);
    LowSum(w, a, b, v, x);
    MergeMod(w, s.regs[d], a + b, v + x);
    MergeMod(w, s.regs[d], a - b, v - x);
    assert DigitOf(OP_ADD_RM_R) == ALU_ADD && DigitOf(OP_SUB_RM_R) == ALU_SUB;
  }

  lemma MovedTwice(s: State, w: int, d: RegNo, v: int, x: int)
    requires IsSize(w)
    ensures Moved(Moved(s, w, d, v), w, d, x) == Moved(s, w, d, x)
  {
    MergeMerge(w, s.regs[d], v, x);
  }

  /** Move-extend the narrow operand, then add or subtract the wide one. */
  lemma ExtendThenAlu(s: State, op: Byte, dst: Reg, narrow: Reg, wide: Reg)
    requires Operand(dst) && Operand(narrow) && Operand(wide) && narrow.rsize < wide.rsize == dst.rsize
    requires op == OP_ADD_RM_R || op == OP_SUB_RM_R
    requires X86No(dst) != X86No(wide)
    ensures var code := MovRegCode(dst, narrow) + [RR(op, dst.rsize, X86No(wide), X86No(dst))];
      && Sound(code)
      && Run(code, s) == Moved(s, dst.rsize, X86No(dst),
           if op == OP_ADD_RM_R then ValueOf(s, narrow) + ValueOf(s, wide) else ValueOf(s, narrow) - ValueOf(s, wide))
  {
    var d, w := X86No(dst), dst.rsize;
    var v := ValueOf(s, narrow);
    MovRegMeaning(dst, narrow, s);
    var t := Moved(s, w, d, v);
    MergeRead(w, s.regs[d], v);
    WideValue(s, wide, w);
    AluStep(t, op, w, X86No(wide), d, v, ValueOf(s, wide));
    var i := RR(op, w, X86No(wide), d);
    RunAppend(MovRegCode(dst, narrow), [i], s);
    Run1(i, t);
    MovedTwice(s, w, d, v, if op == OP_ADD_RM_R then v + ValueOf(s, wide) else v - ValueOf(s, wide));
  }

  /** dst := lhs + rhs modulo 2^width, each operand extended as its type says, when the wide
      operand is not overwritten first; equal widths need a scaled address. */
  lemma AddRegMeaning(dst: Reg, lhs: Reg, rhs: Reg, s: State)
    requires SumOperands(dst, lhs, rhs)
    requires lhs.rsize != rhs.rsize ==> X86No(dst) != X86No(Wider(lhs, rhs))
    requires lhs.rsize == rhs.rsize ==> dst.rsize != 1 && X86No(rhs) != RSP
    ensures Sound(AddRegCode(dst, lhs, rhs))
    ensures Run(AddRegCode(dst, lhs, rhs), s) == Moved(s, dst.rsize, X86No(dst), ValueOf(s, lhs) + ValueOf(s, rhs))
  {
    if lhs.rsize != rhs.rsize {
      ExtendThenAlu(s, OP_ADD_RM_R, dst, Narrower(lhs, rhs), Wider(lhs, rhs));
    } else {
      var i := AddRegCode(dst, lhs, rhs)[0];
      assert AddRegCode(dst, lhs, rhs) == [i];
      Run1(i, s);
      WideValue(s, lhs, dst.rsize);
      WideValue(s, rhs, dst.rsize);
      var l: int, r: int := s.regs[X86No(lhs)], s.regs[X86No(rhs)];
      LowSum(dst.rsize, l, r, ValueOf(s, lhs), ValueOf(s, rhs));
      MergeMod(dst.rsize, s.regs[X86No(dst)], l + r, ValueOf(s, lhs) + ValueOf(s, rhs));
    }
  }

  lemma NegStep(s: State, w: int, d: RegNo, v: int)
    requires IsSize(w) && w != 1 && Low(w, s.regs[d]) == Low(w, v)
    ensures Sound([Neg(w, d)]) && Exec(Neg(w, d), s) == Moved(s, w, d, -v)
  {
    LowLow(w, s.regs[d]);
    LowSum(w, 0, Low(w, s.regs[d]), 0, v);
    MergeMod(w, s.regs[d], -Low(w, s.regs[d]), -v);
  }

  lemma SubThenNeg(dst: Reg, lhs: Reg, rhs: Reg, s: State)
    requires SumOperands(dst, lhs, rhs) && rhs.rsize < lhs.rsize && X86No(dst) != X86No(lhs)
    ensures Sound(SubRegCode(dst, lhs, rhs))
    ensures Run(SubRegCode(dst, lhs, rhs), s) == Moved(s, dst.rsize, X86No(dst), ValueOf(s, lhs) - ValueOf(s, rhs))
  {
    var d, w := X86No(dst), dst.rsize;
    var diff := ValueOf(s, rhs) - ValueOf(s, lhs);
    var code := MovRegCode(dst, rhs) + [RR(OP_SUB_RM_R, w, X86No(lhs), d)];
    ExtendThenAlu(s, OP_SUB_RM_R, dst, rhs, lhs);
    var t := Moved(s, w, d, diff);
    MergeRead(w, s.regs[d], diff);
    NegStep(t, w, d, diff);
    RunAppend(code, [Neg(w, d)], s);
    Run1(Neg(w, d), t);
    MovedTwice(s, w, d, diff, -diff);
    assert SubRegCode(dst, lhs, rhs) == code + [Neg(w, d)];
  }

  lemma SubSameWidth(dst: Reg, lhs: Reg, rhs: Reg, s: State)
    requires SumOperands(dst, lhs, rhs) && rhs.rsize == lhs.rsize && X86No(dst) != X86No(rhs)
    ensures Sound(SubRegCode(dst, lhs, rhs))
    ensures Run(SubRegCode(dst, lhs, rhs), s) == Moved(s, dst.rsize, X86No(dst), ValueOf(s, lhs) - ValueOf(s, rhs))
  {
    var d, w := X86No(dst), dst.rsize;
    var i, j := RR(OP_MOV_RM_R, w, X86No(lhs), d), RR(OP_SUB_RM_R, w, X86No(rhs), d);
    WideValue(s, lhs, w);
    WideValue(s, rhs, w);
    MergeMod(w, s.regs[d], Read(s, w, X86No(lhs)), ValueOf(s, lhs));
    var t := Moved(s, w, d, ValueOf(s, lhs));
    assert Straight(i) && Exec(i, s) == t;
    MergeRead(w, s.regs[d], ValueOf(s, lhs));
    AluStep(t, OP_SUB_RM_R, w, X86No(rhs), d, ValueOf(s, lhs), ValueOf(s, rhs));
    Run2(i, j, s);
    MovedTwice(s, w, d, ValueOf(s, lhs), ValueOf(s, lhs) - ValueOf(s, rhs));
  }

  /** dst := lhs - rhs modulo 2^width, including the subtract-then-negate form. */
  lemma SubRegMeaning(dst: Reg, lhs: Reg, rhs: Reg, s: State)
    requires SumOperands(dst, lhs, rhs)
    requires X86No(dst) != X86No(Wider(lhs, rhs))   // with equal widths: the right operand
    ensures Sound(SubRegCode(dst, lhs, rhs))
    ensures Run(SubRegCode(dst, lhs, rhs), s) == Moved(s, dst.rsize, X86No(dst), ValueOf(s, lhs) - ValueOf(s, rhs))
  {
    if lhs.rsize == rhs.rsize {
      SubSameWidth(dst, lhs, rhs, s);
    } else if rhs.rsize < lhs.rsize {
      SubThenNeg(dst, lhs, rhs, s);
    } else {
      ExtendThenAlu(s, OP_SUB_RM_R, dst, lhs, rhs);
    }
  }
}
