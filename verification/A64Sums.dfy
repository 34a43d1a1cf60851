// Sums and differences of registers of mixed widths on AArch64, and their agreement with x86-64.
module A64Sums {
  import opened Words
  import opened Bits
  import opened TypeSys
  import opened Registers
  import opened A64Instr
  import opened A64Machine
  import opened A64Lower
  import X86Machine
  import X86Lower
  import X86Alias

  function ExtOption(r: Reg): (option: nat)
    ensures option < 8
  {
    var size := if r.dtype.base.Some? then r.dtype.base.value.size else r.rsize;
    (if IsSigned(r) then 4 else 0) + if size >= 8 then 3 else if size >= 4 then 2 else if size >= 2 then 1 else 0
  }

  function ExtInstr(sub: bool, flags: bool, dst: Reg, wide: Reg, narrow: Reg, imm3: nat): Instr
    requires HasA64(dst) && HasA64(wide) && HasA64(narrow)
  {
    AddSubExt(Is64(wide), sub, flags, A64No(narrow), ExtOption(narrow), imm3, A64No(wide), A64No(dst))
  }

  function PlainInstr(sub: bool, flags: bool, dst: Reg, lhs: Reg, rhs: Reg): Instr
    requires HasA64(dst) && HasA64(lhs) && HasA64(rhs)
  {
    AddSubReg(Is64(dst), sub, flags, A64No(rhs), 0, A64No(lhs), A64No(dst))
  }

  function AddRegCode(dst: Reg, lhs: Reg, rhs: Reg): seq<Instr>
    requires HasA64(dst) && HasA64(lhs) && HasA64(rhs)
  {
    if lhs.rsize != rhs.rsize then [ExtInstr(false, false, dst, X86Lower.Wider(lhs, rhs), X86Lower.Narrower(lhs, rhs), 0)]
    else [PlainInstr(false, false, dst, lhs, rhs)]
  }

  /** x16, which a narrow left operand is moved to first. */
  function Temp(rsize: nat, dtype: DType): Reg { Reg(Scratch, 8, rsize, dtype) }

  function SubRegCode(dst: Reg, lhs: Reg, rhs: Reg): seq<Instr>
    requires HasA64(dst) && HasA64(lhs) && HasA64(rhs) && (lhs.dtype.base.Some? ==> lhs.dtype.base.value.size > 0)
  {
    if lhs.rsize == rhs.rsize then [PlainInstr(true, false, dst, lhs, rhs)]
    else if rhs.rsize < lhs.rsize then [ExtInstr(true, false, dst, lhs, rhs, 0)]
    else
      var tmp := Temp(dst.rsize, lhs.dtype);
      MovRegCode(tmp, lhs) + [PlainInstr(true, false, dst, tmp, rhs)]
  }

  /** The result register is as wide as the wider operand, and operands are typed. */
  predicate SumOperands(dst: Reg, lhs: Reg, rhs: Reg) {
    && Operand(dst) && Operand(lhs) && Operand(rhs) && Typed(lhs) && Typed(rhs)
    && dst.rsize == X86Lower.Wider(lhs, rhs).rsize
  }

  lemma ExtendedIsReading(r: Reg, v: nat)
    requires Operand(r) && Typed(r)
    ensures Extended(ExtOption(r), v) == Reading(IsSigned(r), r.rsize, v)
  {
  }

  /** The operands' own values, at the result's width, agree with the raw registers. */
  lemma WideValue(s: State, r: Reg)
    requires Operand(r)
    ensures Low(r.rsize, ValueOf(s, r)) == Low(r.rsize, s.regs[A64No(r)])
  {
    if IsSigned(r) {
      SignedLow(r.rsize, s.regs[A64No(r)]);
    } else {
      LowLow(r.rsize, s.regs[A64No(r)]);
    }
  }

  /** Narrower widths of a number cut to 4 or 8 bytes. */
  lemma LowWithin(x: bool, w: nat, v: int)
    requires IsSize(w) && w <= Bytes(x)
    ensures Low(w, Low(Bytes(x), v)) == Low(w, v)
  {
    if x {
      Nested(w, v);
    } else if w == 1 {
      ModDiv(v, 256, 0x100_0000);
    } else if w == 2 {
      ModDiv(v, P16, P16);
    } else {
      LowLow(4, v);
    }
  }

  lemma Nested(w: nat, v: int)
    requires IsSize(w)
    ensures Low(w, Low(8, v)) == Low(w, v)
  {
    if w == 1 {
      ModDiv(v, 256, 0x100_0000_0000_0000);
    } else if w == 2 {
      ModDiv(v, P16, P48);
    } else if w == 4 {
      ModDiv(v, P32, P32);
    } else {
      LowLow(8, v);
    }
  }

  /** The whole move, of which nothing is emitted between equal operands: one register is
      written, and the bytes of the source that fit arrive. */
  lemma MovRegRuns(dst: Reg, src: Reg, s: State)
    requires Operand(dst) && Operand(src) && Typed(src)
    ensures StraightCode(MovRegCode(dst, src))
    ensures var t := Run(MovRegCode(dst, src), s); var d := A64No(dst);
      && t == s.(regs := s.regs[d := t.regs[d]])
      && (src.rsize <= 4 || dst.rsize == 8 ==> Low(src.rsize, t.regs[d]) == Low(src.rsize, ValueOf(s, src)))
      && (Widens(dst, src) ==> t.regs[d] == Low(8, ValueOf(s, src)))
  {
    hide Low, Signed, Reading, Exec, Straight, MovRegInstr;
    WideValue(s, src);
    if !RegEq(dst, src) {
      MovRegMeaning(dst, src, s);
      Run1(MovRegInstr(dst, src), s);
      if src.rsize <= 4 || dst.rsize == 8 {
        LowWithin(Widens(dst, src) || dst.rsize == 8, src.rsize, if Widens(dst, src) then ValueOf(s, src) else s.regs[A64No(src)]);
      }
    }
  }

  /** d holds v at width w, and nothing but registers d and t changed. */
  ghost predicate Result(s: State, t: State, d: RegNo, w: nat, v: int)
    requires d != 31
  {
    Low(w, t.regs[d]) == Low(w, v) && t == s.(regs := s.regs[d := t.regs[d]])
  }

  lemma ResultOfWrite(s: State, x: bool, d: RegNo, w: nat, v: int, u: int)
    requires d != 31 && IsSize(w) && w <= Bytes(x) && Low(w, v) == Low(w, u)
    ensures Result(s, Write(s, x, d, v), d, w, u)
  {
    LowWithin(x, w, v);
  }

  lemma SumOf(sub: bool, x: bool, w: nat, a: int, b: int, u: int, v: int)
    requires IsSize(w) && w <= Bytes(x) && Low(w, a) == Low(w, u) && Low(w, b) == Low(w, v)
    ensures Low(w, if sub then a - b else a + b) == Low(w, if sub then u - v else u + v)
  {
    LowSum(w, a, b, u, v);
  }

  lemma PlainMeaning(sub: bool, dst: Reg, lhs: Reg, rhs: Reg, s: State)
    requires Operand(dst) && Operand(lhs) && Operand(rhs) && lhs.rsize == rhs.rsize == dst.rsize
    ensures var i := PlainInstr(sub, false, dst, lhs, rhs);
      Straight(i) && Result(s, Exec(i, s), A64No(dst), dst.rsize,
        if sub then ValueOf(s, lhs) - ValueOf(s, rhs) else ValueOf(s, lhs) + ValueOf(s, rhs))
  {
    hide Low, Signed;
    var (x, w) := (Is64(dst), dst.rsize);
    var a: int, b: int := Read(s, x, A64No(lhs)), Read(s, x, A64No(rhs));
    assert Shl(b, 0) == b;
    LowLow(Bytes(x), s.regs[A64No(rhs)]);
    LowWithin(x, w, s.regs[A64No(lhs)]);
    LowWithin(x, w, s.regs[A64No(rhs)]);
    WideValue(s, lhs);
    WideValue(s, rhs);
    SumOf(sub, x, w, a, b, ValueOf(s, lhs), ValueOf(s, rhs));
    ResultOfWrite(s, x, A64No(dst), w, if sub then a - b else a + b,
      if sub then ValueOf(s, lhs) - ValueOf(s, rhs) else ValueOf(s, lhs) + ValueOf(s, rhs));
  }

  lemma ExtMeaning(sub: bool, dst: Reg, wide: Reg, narrow: Reg, s: State)
    requires Operand(dst) && Operand(wide) && Operand(narrow) && Typed(narrow)
    requires narrow.rsize < wide.rsize == dst.rsize
    ensures var i := ExtInstr(sub, false, dst, wide, narrow, 0);
      Straight(i) && Result(s, Exec(i, s), A64No(dst), dst.rsize,
        if sub then ValueOf(s, wide) - ValueOf(s, narrow) else ValueOf(s, wide) + ValueOf(s, narrow))
  {
    hide Low, Signed, Extended, Reading;
    var (x, w) := (Is64(wide), dst.rsize);
    var n, raw: int := ValueOf(s, narrow), s.regs[A64No(narrow)];
    var (a, b) := (Read(s, x, A64No(wide)), Low(Bytes(x), n));
    RegisterFull(s, A64No(narrow));
    ExtendedIsReading(narrow, raw);
    assert Shl(n, 0) == n;
    LowWithin(x, w, s.regs[A64No(wide)]);
    LowWithin(x, w, n);
    WideValue(s, wide);
    SumOf(sub, x, w, a, b, ValueOf(s, wide), n);
    ResultOfWrite(s, x, A64No(dst), w, if sub then a - b else a + b,
      if sub then ValueOf(s, wide) - n else ValueOf(s, wide) + n);
  }

  /** dst := lhs + rhs modulo 2^width, each operand extended as its type says, whatever
      registers coincide. */
  lemma AddRegMeaning(dst: Reg, lhs: Reg, rhs: Reg, s: State)
    requires SumOperands(dst, lhs, rhs)
    ensures var code := AddRegCode(dst, lhs, rhs);
      StraightCode(code) && Result(s, Run(code, s), A64No(dst), dst.rsize, ValueOf(s, lhs) + ValueOf(s, rhs))
  {
    hide Exec, Straight;
    if lhs.rsize != rhs.rsize {
      ExtMeaning(false, dst, X86Lower.Wider(lhs, rhs), X86Lower.Narrower(lhs, rhs), s);
    } else {
      PlainMeaning(false, dst, lhs, rhs, s);
    }
    Run1(AddRegCode(dst, lhs, rhs)[0], s);
    assert AddRegCode(dst, lhs, rhs) == [AddRegCode(dst, lhs, rhs)[0]];
  }

  /** dst := lhs - rhs modulo 2^width when the left operand is not the narrower one. */
  lemma SubRegMeaning(dst: Reg, lhs: Reg, rhs: Reg, s: State)
    requires SumOperands(dst, lhs, rhs) && lhs.rsize >= rhs.rsize
    ensures var code := SubRegCode(dst, lhs, rhs);
      StraightCode(code) && Result(s, Run(code, s), A64No(dst), dst.rsize, ValueOf(s, lhs) - ValueOf(s, rhs))
  {
    hide Exec, Straight;
    if lhs.rsize != rhs.rsize {
      ExtMeaning(true, dst, lhs, rhs, s);
    } else {
      PlainMeaning(true, dst, lhs, rhs, s);
    }
    Run1(SubRegCode(dst, lhs, rhs)[0], s);
    assert SubRegCode(dst, lhs, rhs) == [SubRegCode(dst, lhs, rhs)[0]];
  }

  const TEMP: RegNo := 16

  /** What a narrow left operand is taken to be: the move extends it only into 64 bits and
      only when its type is known. */
  ghost function MovedValue(s: State, lhs: Reg, w: nat): int
    requires Operand(lhs)
  {
    if w == 8 && lhs.dtype.base.Some? then ValueOf(s, lhs) else s.regs[A64No(lhs)]
  }

  lemma TempMoved(dst: Reg, lhs: Reg, s: State) returns (t: State)
    requires Operand(dst) && Operand(lhs) && Typed(lhs) && lhs.rsize < dst.rsize
    ensures var code := MovRegCode(Temp(dst.rsize, lhs.dtype), lhs);
      StraightCode(code) && t == Run(code, s)
    ensures t == s.(regs := s.regs[TEMP := t.regs[TEMP]])
    ensures Low(dst.rsize, t.regs[TEMP]) == Low(dst.rsize, MovedValue(s, lhs, dst.rsize))
  {
    hide Low, Signed, Exec, Straight;
    var tmp := Temp(dst.rsize, lhs.dtype);
    var i := MovRegInstr(tmp, lhs);
    MovRegMeaning(tmp, lhs, s);
    Run1(i, s);
    t := Exec(i, s);
    var x := Widens(tmp, lhs) || dst.rsize == 8;
    var v := if Widens(tmp, lhs) then ValueOf(s, lhs) else s.regs[A64No(lhs)];
    assert t == Write(s, x, TEMP, v);
    LowWithin(x, dst.rsize, v);
  }

  /** What is subtracted: the operand, unless the move to x16 overwrote it. */
  ghost function Subtracted(s: State, lhs: Reg, rhs: Reg): int
    requires Operand(lhs) && Operand(rhs)
  {
    if A64No(rhs) == TEMP then MovedValue(s, lhs, rhs.rsize) else ValueOf(s, rhs)
  }

  /** With the narrower operand on the left, the two numbers that are really subtracted. */
  lemma SubNarrowLeft(dst: Reg, lhs: Reg, rhs: Reg, s: State)
    requires SumOperands(dst, lhs, rhs) && lhs.rsize < rhs.rsize
    ensures var (code, w) := (SubRegCode(dst, lhs, rhs), dst.rsize);
      && StraightCode(code)
      && Low(w, Run(code, s).regs[A64No(dst)]) == Low(w, MovedValue(s, lhs, w) - Subtracted(s, lhs, rhs))
  {
    hide Low, Signed, Exec, Straight, MovedValue;
    var w := dst.rsize;
    var tmp := Reg(Scratch, 8, w, NoType);
    var t := TempMoved(dst, lhs, s);
    PlainMeaning(true, dst, tmp, rhs, t);
    var last := PlainInstr(true, false, dst, tmp, rhs);
    RunAppend(MovRegCode(Temp(w, lhs.dtype), lhs), [last], s);
    Run1(last, t);
    WideValue(t, tmp);
    WideValue(t, rhs);
    LowSum(w, ValueOf(t, tmp), ValueOf(t, rhs), MovedValue(s, lhs, w), Subtracted(s, lhs, rhs));
  }

  /** The difference has the value it should. */
  ghost predicate Subtracts(dst: Reg, lhs: Reg, rhs: Reg, s: State)
    requires SumOperands(dst, lhs, rhs)
  {
    Low(dst.rsize, Run(SubRegCodeStraight(dst, lhs, rhs), s).regs[A64No(dst)]) == Low(dst.rsize, ValueOf(s, lhs) - ValueOf(s, rhs))
  }

  /** It has in every state exactly for a typed operand widened to 64 bits, when the other one is
      not in x16. */
  lemma SubNarrowLeftExact(dst: Reg, lhs: Reg, rhs: Reg)
    requires SumOperands(dst, lhs, rhs) && lhs.rsize < rhs.rsize
    ensures (forall s: State :: Subtracts(dst, lhs, rhs, s)) <==> dst.rsize == 8 && lhs.dtype.base.Some? && A64No(rhs) != TEMP
  {
    hide Run, Low, Signed, SubRegCode;
    var w := dst.rsize;
    forall s: State ensures Subtracts(dst, lhs, rhs, s)
      <==> Low(w, MovedValue(s, lhs, w) - Subtracted(s, lhs, rhs)) == Low(w, ValueOf(s, lhs) - ValueOf(s, rhs))
    {
      SubNarrowLeft(dst, lhs, rhs, s);
    }
    if !(w == 8 && lhs.dtype.base.Some? && A64No(rhs) != TEMP) {
      var s := StrayBits(dst, lhs, rhs);
      assert !Subtracts(dst, lhs, rhs, s);
    }
  }

  function SubRegCodeStraight(dst: Reg, lhs: Reg, rhs: Reg): (code: seq<Instr>)
    requires SumOperands(dst, lhs, rhs)
    ensures StraightCode(code) && code == SubRegCode(dst, lhs, rhs)
  {
    SubStraight(dst, lhs, rhs);
    SubRegCode(dst, lhs, rhs)
  }

  lemma SubStraight(dst: Reg, lhs: Reg, rhs: Reg)
    requires SumOperands(dst, lhs, rhs)
    ensures StraightCode(SubRegCode(dst, lhs, rhs))
  {
  }

  /** Registers whose bits above the operand are not an extension of it. */
  lemma StrayBits(dst: Reg, lhs: Reg, rhs: Reg) returns (s: State)
    requires SumOperands(dst, lhs, rhs) && lhs.rsize < rhs.rsize
    requires !(dst.rsize == 8 && lhs.dtype.base.Some? && A64No(rhs) != TEMP)
    ensures var w := dst.rsize;
      Low(w, MovedValue(s, lhs, w) - Subtracted(s, lhs, rhs)) != Low(w, ValueOf(s, lhs) - ValueOf(s, rhs))
  {
    var v := Power(lhs.rsize);
    s := State(seq(31, i => v), 0, Flags(false, false, false, false), (x: int) => 0);
    assert s.regs[A64No(lhs)] == v == s.regs[A64No(rhs)];
  }

  // ---- Addresses of elements ----

  /** log2 of a power of two, by counting its trailing zeros. */
  function TrailingZeros(n: nat): nat
    requires n > 0
  {
    if n % 2 == 1 then 0 else 1 + TrailingZeros(n / 2)
  }

  /** Base plus the index, extended as its type says, shifted by log2 of the element size. */
  function ElemAddrInstr(dst: Reg, base: Reg, index: Reg, shift: nat): Instr
    requires HasA64(dst) && HasA64(base) && HasA64(index) && index.dtype.base.Some?
  {
    if index.dtype.base.value.size >= 8 then
      AddSubReg(Is64(dst), false, false, A64No(index), shift, A64No(base), A64No(dst))
    else ExtInstr(false, false, dst, base, Resize(index, 4), shift)
  }

  const PTR := Reg(Scratch, 0, 8, NoType)   // x8
  const FP := Reg(Frame, 0, 8, NoType)

  function BaseReg(obj: Reg): Reg { if obj.kind == Stack then PTR else obj }

  function BaseCode(obj: Reg): seq<Instr> { if obj.kind == Stack then AddCode(true, PTR, FP, obj.offset) else [] }

  function ElemAddrCode(dst: Reg, obj: Reg, index: Reg, elem: nat): seq<Instr>
    requires HasA64(dst) && HasA64(obj) && HasA64(index) && index.dtype.base.Some? && elem > 0
  {
    BaseCode(obj) + [ElemAddrInstr(dst, BaseReg(obj), index, TrailingZeros(elem))]
  }

  /** The shifted form exists. */
  predicate ShiftFits(dst: Reg, index: Reg, shift: nat)
    requires index.dtype.base.Some?
  {
    shift <= (if index.dtype.base.value.size < 8 then 4 else if Is64(dst) then 63 else 31)
  }

  lemma ShiftFitsExactly(dst: Reg, base: Reg, index: Reg, shift: nat)
    requires HasA64(dst) && HasA64(base) && HasA64(index) && index.dtype.base.Some?
    ensures WellFormed(ElemAddrInstr(dst, base, index, shift)) <==> ShiftFits(dst, index, shift)
  {
  }

  lemma {:induction false} ShlIsTimes(v: int, n: nat)
    ensures Shl(v, n) == v * Pow2(n)
  {
    if n > 0 {
      ShlIsTimes(v, n - 1);
    }
  }

  /** The address is base + index * 2^shift for the number the index stands for. */
  lemma ElemAddrMeaning(dst: Reg, base: Reg, index: Reg, shift: nat, s: State)
    requires Operand(dst) && dst.rsize == 8 && Operand(base) && base.rsize == 8
    requires Operand(index) && Typed(index) && index.dtype.base.Some? && TryGetAddr(index.dtype) == 0
    requires ShiftFits(dst, index, shift)
    ensures var i := ElemAddrInstr(dst, base, index, shift);
      && Straight(i)
      && Exec(i, s) == Write(s, true, A64No(dst), s.regs[A64No(base)] + ValueOf(s, index) * Pow2(shift))
  {
    hide Low, Reading, Shl, Pow2, Extended;
    var b, v: int := s.regs[A64No(base)], ValueOf(s, index);
    RegisterFull(s, A64No(base));
    RegisterFull(s, A64No(index));
    if index.rsize == 8 {
      ShlIsTimes(s.regs[A64No(index)], shift);
      WideValue(s, index);
      ScaledSame(s.regs[A64No(index)], v, Pow2(shift));
      SumSame(b, s.regs[A64No(index)] * Pow2(shift), v * Pow2(shift));
    } else {
      ShlIsTimes(v, shift);
      ExtendedIsReading(index, s.regs[A64No(index)]);
      SumSame(b, v * Pow2(shift), v * Pow2(shift));
    }
  }

  lemma SumSame(b: int, u: int, v: int)
    requires Low(8, u) == Low(8, v)
    ensures Low(8, b + Low(8, u)) == Low(8, b + v)
  {
    LowLow(8, u);
    LowSum(8, b, Low(8, u), b, v);
  }

  lemma ScaledSame(a: int, b: int, p: nat)
    requires Low(8, a) == Low(8, b)
    ensures Low(8, a * p) == Low(8, b * p)
  {
    var k := a / P64 - b / P64;
    assert a == b + P64 * k;
    assert a * p == b * p + P64 * (k * p);
    ModShift(b * p, P64, k * p);
  }

  // ---- The two backends ----

  ghost predicate SameOperand(sx: X86Machine.State, sa: State, r: Reg)
    requires InTable(r) && Operand(r)
  {
    X86Lower.ValueOf(sx, r) == ValueOf(sa, r)
  }

  /** Operands both backends accept. */
  predicate CommonOperands(dst: Reg, lhs: Reg, rhs: Reg) {
    SumOperands(dst, lhs, rhs) && InTable(dst) && InTable(lhs) && InTable(rhs)
  }

  lemma MovedReads(sx: X86Machine.State, w: nat, d: int, v: int)
    requires IsSize(w) && 0 <= d < 16
    ensures Low(w, X86Lower.Moved(sx, w, d, v).regs[d]) == Low(w, v)
  {
    X86Lower.MergeRead(w, sx.regs[d], v);
  }

  /** Started from the same operand values, both backends leave the same sum wherever the one
      for x86-64 is right. */
  lemma BackendsAgreeOnAdd(dst: Reg, lhs: Reg, rhs: Reg, sx: X86Machine.State, sa: State)
    requires CommonOperands(dst, lhs, rhs) && SameOperand(sx, sa, lhs) && SameOperand(sx, sa, rhs)
    requires X86Alias.AddFits(dst, lhs, rhs)
    ensures var (cx, ca) := (X86Lower.AddRegCode(dst, lhs, rhs), AddRegCode(dst, lhs, rhs));
      && X86Machine.StraightCode(cx) && StraightCode(ca)
      && Low(dst.rsize, X86Machine.Run(cx, sx).regs[X86No(dst)]) == Low(dst.rsize, Run(ca, sa).regs[A64No(dst)])
  {
    hide Low, Signed, Run, X86Machine.Run, X86Lower.AddRegCode, AddRegCode, X86Lower.Moved, X86No;
    X86Alias.AddRegExact(dst, lhs, rhs);
    AddRegMeaning(dst, lhs, rhs, sa);
    MovedReads(sx, dst.rsize, X86No(dst), ValueOf(sa, lhs) + ValueOf(sa, rhs));
  }

  /** And the same difference, where AArch64 extends a narrow left operand. */
  lemma BackendsAgreeOnSub(dst: Reg, lhs: Reg, rhs: Reg, sx: X86Machine.State, sa: State)
    requires CommonOperands(dst, lhs, rhs) && SameOperand(sx, sa, lhs) && SameOperand(sx, sa, rhs)
    requires !X86Alias.SubOverwrites(dst, lhs, rhs)
    requires lhs.rsize < rhs.rsize ==>
      dst.rsize == 8 && lhs.dtype.base.Some? && A64No(rhs) != TEMP
    ensures var (cx, ca) := (X86Lower.SubRegCode(dst, lhs, rhs), SubRegCode(dst, lhs, rhs));
      && X86Machine.StraightCode(cx) && StraightCode(ca)
      && Low(dst.rsize, X86Machine.Run(cx, sx).regs[X86No(dst)]) == Low(dst.rsize, Run(ca, sa).regs[A64No(dst)])
  {
    hide Low, Signed, Run, X86Machine.Run, X86Lower.SubRegCode, SubRegCode, X86Lower.Moved, X86No;
    X86Alias.SubRegExact(dst, lhs, rhs);
    MovedReads(sx, dst.rsize, X86No(dst), ValueOf(sa, lhs) - ValueOf(sa, rhs));
    if lhs.rsize < rhs.rsize {
      SubNarrowLeft(dst, lhs, rhs, sa);
    } else {
      SubRegMeaning(dst, lhs, rhs, sa);
    }
  }
}
