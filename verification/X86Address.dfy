// The address of an element on x86-64: the scaled address or the multiplication that is emitted,
// and what it computes.
module X86Address {
  import opened Words
  import opened Registers
  import opened X86Instr
  import opened X86Machine
  import opened X86Lower

  const PTR := Reg(Scratch, 0, 8, NoType)   // RAX
  const IDX := Reg(Scratch, 1, 8, NoType)   // RCX

  function BaseCode(obj: Reg): seq<Instr>
    requires InTable(obj)
  {
    if obj.kind == Stack then [Mem(OP_LEA, 8, RAX, RBP, NoIndex, -obj.offset)] else MovRegCode(PTR, obj)
  }

  /** One- and two-byte indices are extended in place. */
  function IndexCode(index: Reg): seq<Instr>
    requires InTable(index)
  {
    if index.rsize == 1 || index.rsize == 2 then MovRegCode(Resize(index, 8), index) else []
  }

  predicate ScalesDirectly(elem: nat) { elem == 1 || elem == 2 || elem == 4 || elem == 8 }

  /** A scaled address, or a multiplication first. */
  function ScaledCode(dst: Reg, index: Reg, elem: nat): seq<Instr>
    requires InTable(dst) && InTable(index)
  {
    if ScalesDirectly(elem) then [Mem(OP_LEA, RSize(dst), X86No(dst), RAX, Scaled(X86No(index), elem), 0)]
    else MovRegCode(IDX, Resize(index, 8)) + [ImulI(RCX, elem)] + AddRegCode(dst, PTR, IDX)
  }

  function ElemAddrCode(dst: Reg, obj: Reg, index: Reg, elem: nat): seq<Instr>
    requires InTable(dst) && InTable(obj) && InTable(index)
  {
    BaseCode(obj) + IndexCode(index) + ScaledCode(dst, index, elem)
  }

  // ---- What it computes ----

  predicate General(r: Reg) {
    (r.kind == Nreg || r.kind == Scratch || r.kind == Param || r.kind == RetReg) && InTable(r)
  }

  predicate Pair(r: Reg) { General(r) && InTable(Second(r)) && r.rsize == 8 }

  /** Index operands are no registers that the code uses itself (named registers are none). */
  predicate Subscript(r: Reg) { General(r) && IsSize(r.rsize) && X86No(r) != RAX && X86No(r) != RCX }

  /** Only the given registers differ. */
  ghost predicate Only(s: State, t: State, a: RegNo, b: RegNo, c: RegNo) {
    t.mem == s.mem && forall r: RegNo :: r != a && r != b && r != c ==> t.regs[r] == s.regs[r]
  }

  lemma BaseRuns(obj: Reg, s: State)
    requires if obj.kind == Stack then 0 <= obj.offset < 0x8000_0000 else Pair(obj)
    ensures Sound(BaseCode(obj))
    ensures Run(BaseCode(obj), s) == Moved(s, 8, RAX,
      if obj.kind == Stack then s.regs[RBP] - obj.offset else s.regs[X86No(obj)])
  {
    if obj.kind == Stack {
      Run1(BaseCode(obj)[0], s);
    } else {
      MovRegMeaning(PTR, obj, s);
      WideValue(s, obj, 8);
      MergeMod(8, s.regs[RAX], ValueOf(s, obj), s.regs[X86No(obj)]);
    }
  }

  /** The whole index register is scaled and added. */
  lemma ScaledRuns(dst: Reg, index: Reg, elem: nat, s: State)
    requires Pair(dst) && Subscript(index) && 0 < elem < 0x8000_0000
    ensures Sound(ScaledCode(dst, index, elem))
    ensures var t := Run(ScaledCode(dst, index, elem), s);
      && Only(s, t, X86No(dst), RCX, RCX)
      && t.regs[X86No(dst)] == (s.regs[RAX] + s.regs[X86No(index)] * elem) % P64
  {
    hide X86No;
    Numbers(index);
    if ScalesDirectly(elem) {
      DirectRuns(dst, index, elem, s);
    } else {
      MultipliedRuns(dst, index, elem, s);
    }
  }

  lemma Numbers(index: Reg)
    requires Subscript(index)
    ensures X86No(index) != RAX && X86No(index) != RCX && X86No(index) != RSP && X86No(index) != RBP
  {
  }

  lemma DirectRuns(dst: Reg, index: Reg, elem: nat, s: State)
    requires Pair(dst) && Subscript(index) && ScalesDirectly(elem)
    ensures var code := ScaledCode(dst, index, elem); var t := Run(code, s);
      && Sound(code) && Only(s, t, X86No(dst), RCX, RCX)
      && t.regs[X86No(dst)] == (s.regs[RAX] + s.regs[X86No(index)] * elem) % P64
  {
    hide X86No;
    Numbers(index);
    Run1(ScaledCode(dst, index, elem)[0], s);
  }

  lemma MultipliedRuns(dst: Reg, index: Reg, elem: nat, s: State)
    requires Pair(dst) && Subscript(index) && 0 < elem < 0x8000_0000 && !ScalesDirectly(elem)
    ensures var code := ScaledCode(dst, index, elem); var t := Run(code, s);
      && Sound(code) && Only(s, t, X86No(dst), RCX, RCX)
      && t.regs[X86No(dst)] == (s.regs[RAX] + s.regs[X86No(index)] * elem) % P64
  {
    hide Run, MovRegCode, AddRegCode, Low, ValueOf, Reading;
    var (wide, v) := (Resize(index, 8), s.regs[X86No(index)]);
    var (mv, mul, add) := (MovRegCode(IDX, wide), [ImulI(RCX, elem)], AddRegCode(dst, PTR, IDX));
    MovRegMeaning(IDX, wide, s);
    WideValue(s, wide, 8);
    MergeMod(8, s.regs[RCX], ValueOf(s, wide), v);
    var t := Moved(s, 8, RCX, v);
    LowSmall(8, v);
    Run1(ImulI(RCX, elem), t);
    var u := Moved(s, 8, RCX, v * elem);
    assert Exec(ImulI(RCX, elem), t) == u;
    RunAppend(mv, mul, s);
    AddRegMeaning(dst, PTR, IDX, u);
    RunAppend(mv + mul, add, s);
    ValueAt(u, PTR);
    ValueAt(u, IDX);
    var (a, b) := (ValueOf(u, PTR), ValueOf(u, IDX));
    LowSum(8, a, b, s.regs[RAX], v * elem);
    LowMod(8, s.regs[RAX] + v * elem);
    LowLow(8, v * elem);
    assert Run(ScaledCode(dst, index, elem), s) == Moved(u, 8, X86No(dst), a + b);
  }

  lemma ValueAt(s: State, r: Reg)
    requires X86Lower.Operand(r) && r.rsize == 8
    ensures Low(8, ValueOf(s, r)) == Low(8, s.regs[X86No(r)]) == s.regs[X86No(r)]
  {
    WideValue(s, r, 8);
    SmallMod(s.regs[X86No(r)], P64);
  }

  /** The state after a narrow index was extended in place. */
  ghost function Extended(s: State, index: Reg): State
    requires InTable(index)
  {
    if index.rsize == 1 || index.rsize == 2 then Moved(s, 8, X86No(index), ValueOf(s, index)) else s
  }

  lemma IndexRuns(index: Reg, s: State)
    requires Subscript(index)
    ensures Sound(IndexCode(index)) && Run(IndexCode(index), s) == Extended(s, index)
  {
    hide Low, Signed, Reading, X86No;
    if index.rsize == 1 || index.rsize == 2 {
      MovRegMeaning(Resize(index, 8), index, s);
    }
  }

  /** Extending changes one register, and not its low bytes. */
  lemma ExtendedKeeps(s: State, index: Reg)
    requires Subscript(index)
    ensures var t := Extended(s, index); var d := X86No(index);
      && t == s.(regs := s.regs[d := t.regs[d]])
      && Low(index.rsize, t.regs[d]) == Low(index.rsize, s.regs[d])
  {
    hide Low, Signed, X86No;
    if index.rsize == 1 || index.rsize == 2 {
      var v := ValueOf(s, index);
      WideValue(s, index, index.rsize);
      LowLow(8, v);
      ModLow(index.rsize, v);
    }
  }

  lemma ModLow(w: nat, v: int)
    requires w == 1 || w == 2
    ensures Low(w, Low(8, v)) == Low(w, v)
  {
    ModDiv(v, 256, 0x100_0000_0000_0000);
    ModDiv(v, P16, 0x1_0000_0000_0000);
  }

  ghost predicate Addresses(code: seq<Instr>, dst: Reg, obj: Reg, index: Reg, elem: nat, s: State)
    requires InTable(dst) && InTable(obj) && InTable(index)
  {
    && Sound(code)
    && var (e, t) := (Extended(s, index), Run(code, s));
      var b := if obj.kind == Stack then s.regs[RBP] - obj.offset else s.regs[X86No(obj)];
      && Only(e, t, RAX, RCX, X86No(dst))
      && t.regs[X86No(dst)] == (b % P64 + e.regs[X86No(index)] * elem) % P64
  }

  /** The emitted address is base + register * size, the register extended first if it is narrow. */
  lemma ElemAddrRuns(dst: Reg, obj: Reg, index: Reg, elem: nat, s: State)
    requires Pair(dst) && Subscript(index) && 0 < elem < 0x8000_0000
    requires if obj.kind == Stack then 0 <= obj.offset < 0x8000_0000 else Pair(obj)
    ensures Addresses(ElemAddrCode(dst, obj, index, elem), dst, obj, index, elem, s)
  {
    hide Run, X86No, Exec, BaseCode, IndexCode, ScaledCode, ValueOf, Low;
    Numbers(index);
    var b := if obj.kind == Stack then s.regs[RBP] - obj.offset else s.regs[X86No(obj)];
    BaseRuns(obj, s);
    var t := Moved(s, 8, RAX, b);
    IndexRuns(index, t);
    BaseApart(index, s, b);
    var u := Extended(t, index);
    ScaledRuns(dst, index, elem, u);
    RunAppend(BaseCode(obj), IndexCode(index), s);
    RunAppend(BaseCode(obj) + IndexCode(index), ScaledCode(dst, index, elem), s);
    LowMod(8, b);
  }

  /** The base and the index do not meet. */
  lemma BaseApart(index: Reg, s: State, b: int)
    requires Subscript(index)
    ensures var u := Extended(Moved(s, 8, RAX, b), index);
      Only(Extended(s, index), u, RAX, RAX, RAX) && u.regs[RAX] == Low(8, b)
  {
    hide Low, X86No, Reading;
    Numbers(index);
  }
}
