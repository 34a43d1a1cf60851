// The code of checked accesses on AArch64, executed: what it compares, which address and count
// it leaves.
module A64Slices {
  import opened Words
  import opened Bits
  import opened TypeSys
  import opened Registers
  import opened A64Instr
  import opened A64Machine
  import opened A64Lower
  import opened A64Sums
  import A64Linker
  import A64Moves
  import A64Compare
  import Conditions
  import S = Slices
  import R = SliceResults
  import O = SliceObjects

  // ---- The code ----

  /** Comparing an index with the length. */
  function LengthCode(x: S.Site): seq<Instr>
    requires Fits(x)
  {
    var r := S.Bounded(x);
    if x.obj.kind == Stack then [A64Compare.ComparingImm(r, x.len)]
    else A64Compare.Comparing(r, Second(x.obj))
  }

  function OrderCode(x: S.Site): seq<Instr>
    requires Fits(x)
  {
    A64Compare.Comparing(x.i, x.j)
  }

  function PointerCode(x: S.Site): seq<Instr>
    requires Fits(x)
  {
    if x.form.ToForm? then AddCode(true, x.dst, FP, x.obj.offset) else ElemAddrCode(x.dst, x.obj, x.i, x.elem)
  }

  function CountCode(x: S.Site): seq<Instr>
    requires Fits(x)
  {
    var d2 := Second(x.dst);
    match x.form
    case AtForm => []
    case FromForm =>
      (if x.obj.kind == Stack then A64Moves.MovCode(true, A64No(d2), x.len) else MovRegCode(d2, Second(x.obj)))
        + SubRegCode(d2, d2, Resize(x.i, 8))
    case BetweenForm =>
      var tmp := Resize(d2, x.i.rsize);
      SubRegCode(tmp, x.j, x.i) + MovRegCode(d2, tmp.(dtype := x.i.dtype))
    case ToForm => MovRegCode(d2, x.j)
  }

  // ---- Where it is used ----

  /** Index operands are typed, and no registers that the code uses itself (named registers
      are none). */
  predicate Subscript(r: Reg) {
    && Operand(r) && Typed(r) && r.dtype.base.Some? && TryGetAddr(r.dtype) == 0
    && A64No(r) != A64No(PTR) && A64No(r) != TEMP
  }

  predicate Pair(r: Reg) { General(r) && r.kind != Stack && General(Second(r)) && r.rsize == 8 }

  /** A stack array or a slice in two registers; no register is overwritten while it is needed,
      and the element's shift has an encoding. */
  predicate Fits(x: S.Site) {
    && Subscript(x.i) && Subscript(x.j) && x.i.rsize == x.j.rsize && IsSigned(x.i) == IsSigned(x.j)
    && x.elem > 0 && Pair(x.dst) && ShiftFits(x.dst, x.i, TrailingZeros(x.elem))
    && (if x.obj.kind == Stack then 0 <= x.obj.offset < 0x8000_0000 && x.len < 0x8000_0000
        else Pair(x.obj) && !x.form.ToForm? && Apart(x.obj, x.dst))
    && A64No(x.dst) != A64No(x.i) && A64No(x.dst) != A64No(x.j) && A64No(x.dst) != A64No(Second(x.dst))
    && A64No(Second(x.dst)) != A64No(x.i) && A64No(Second(x.dst)) != A64No(x.j)
    && A64No(x.dst) != A64No(FP)
  }

  predicate Apart(obj: Reg, dst: Reg)
    requires Pair(obj) && Pair(dst)
  {
    var count := A64No(Second(obj));
    A64No(obj) != TEMP && count != TEMP && count != A64No(dst)
  }

  // ---- What it does ----

  ghost function RawOf(s: State, r: Reg): int
    requires General(r)
  {
    s.regs[A64No(r)]
  }

  ghost function IndexOf(s: State, r: Reg): S.Index
    requires General(r)
  {
    S.Index(r.rsize, IsSigned(r), s.regs[A64No(r)])
  }

  ghost function SourceOf(s: State, x: S.Site): S.Source
    requires Fits(x)
  {
    if x.obj.kind == Stack then S.Array(s.regs[A64No(FP)], x.obj.offset, x.len)
    else S.Slice(s.regs[A64No(x.obj)], s.regs[A64No(Second(x.obj))])
  }

  ghost function OpAt(s: State, x: S.Site): S.Op
    requires Fits(x)
  {
    S.OpOf(x.form, IndexOf(s, x.i), IndexOf(s, x.j))
  }

  predicate Holds(cond: Conditions.Cond, f: Flags) { CondHolds(A64Linker.CondCode(cond), f) }

  /** Running the code: each comparison branches away or falls through. */
  ghost function Performed(x: S.Site, s: State): S.Result
    requires Fits(x)
  {
    ResultStraight(x);
    var t := Run(LengthCode(x), s);
    var u := if x.form.BetweenForm? then Run(OrderCode(x), t) else t;
    if Holds(S.BoundCond(x), t.flags) then S.Fails
    else if x.form.BetweenForm? && Holds(Conditions.HI, u.flags) then S.Fails
    else
      var v := Run(PointerCode(x) + CountCode(x), u);
      if x.form.AtForm? then S.Elem(v.regs[A64No(x.dst)])
      else S.Part(v.regs[A64No(x.dst)], v.regs[A64No(Second(x.dst))])
  }

  /** Only the given registers, and the flags, differ. */
  ghost predicate Only(s: State, t: State, a: RegNo, b: RegNo) {
    t.mem == s.mem && t.sp == s.sp && forall r: RegNo :: r != 31 && r != a && r != b ==> t.regs[r] == s.regs[r]
  }

  // ---- The address ----

  /** Besides the result: x8, for the base of a stack array. */
  function AlsoUsed(x: S.Site): RegNo
    requires Fits(x)
  {
    A64No(if x.obj.kind == Stack then PTR else x.dst)
  }

  lemma BaseRuns(obj: Reg, s: State)
    requires if obj.kind == Stack then 0 <= obj.offset else Pair(obj)
    ensures StraightCode(BaseCode(obj))
    ensures Run(BaseCode(obj), s) ==
      if obj.kind == Stack then Write(s, true, A64No(PTR), s.regs[A64No(FP)] - ImmUsed(obj.offset)) else s
  {
    hide Straight, Exec, AddCode, ImmUsed, Low;
    if obj.kind == Stack {
      SubImmMeaning(PTR, FP, obj.offset, s);
    }
  }

  /** The emitted address is the base plus the extended index, shifted. */
  lemma ElemAddrRuns(x: S.Site, s: State)
    requires Fits(x) && !x.form.ToForm?
    ensures var code := ElemAddrCode(x.dst, x.obj, x.i, x.elem); var t := Run(code, s);
      && StraightCode(code) && Only(s, t, AlsoUsed(x), A64No(x.dst))
      && t.regs[A64No(x.dst)] == S.Address(S.A64, SourceOf(s, x), IndexOf(s, x.i), x.elem)
  {
    hide Run, Exec, Straight, BaseCode, ElemAddrInstr, TrailingZeros, Pow2, ImmUsed, Reading;
    var (base, shift) := (BaseReg(x.obj), TrailingZeros(x.elem));
    BaseRuns(x.obj, s);
    var t := Run(BaseCode(x.obj), s);
    ElemAddrMeaning(x.dst, base, x.i, shift, t);
    var i := ElemAddrInstr(x.dst, base, x.i, shift);
    RunAppend(BaseCode(x.obj), [i], s);
    Run1(i, t);
    if x.obj.kind == Stack {
      LowMod(8, s.regs[A64No(FP)] - ImmUsed(x.obj.offset));
    }
    LowMod(8, t.regs[A64No(base)] + ValueOf(t, x.i) * Pow2(shift));
  }

  lemma PointerRuns(x: S.Site, s: State)
    requires Fits(x)
    ensures StraightCode(PointerCode(x))
    ensures var t := Run(PointerCode(x), s);
      Only(s, t, AlsoUsed(x), A64No(x.dst)) && t.regs[A64No(x.dst)] == PointerAt(x, s)
  {
    hide Run, AddCode, ElemAddrCode, ImmUsed;
    if x.form.ToForm? {
      SubImmMeaning(x.dst, FP, x.obj.offset, s);
      LowMod(8, s.regs[A64No(FP)] - ImmUsed(x.obj.offset));
    } else {
      ElemAddrRuns(x, s);
    }
  }

  ghost function PointerAt(x: S.Site, s: State): U64
    requires Fits(x)
  {
    var src := SourceOf(s, x);
    if x.form.ToForm? then S.BaseUsed(S.A64, src) else S.Address(S.A64, src, IndexOf(s, x.i), x.elem)
  }

  // ---- The counts ----

  ghost function CountAt(x: S.Site, s: State): U64
    requires Fits(x)
  {
    match x.form
    case AtForm => s.regs[A64No(Second(x.dst))]
    case FromForm => S.WideWord(S.Length(SourceOf(s, x)) - RawOf(s, x.i))
    case BetweenForm => S.WideWord(Reading(IsSigned(x.i), x.i.rsize, RawOf(s, x.j) - RawOf(s, x.i)))
    case ToForm => S.WideWord(ValueOf(s, x.j))
  }

  /** A move to a 64-bit register, whether or not an instruction is needed, of a full register
      or an extended one. */
  lemma MoveRuns(d: Reg, r: Reg, s: State)
    requires Operand(d) && d.rsize == 8 && d.dtype == NoType && Operand(r) && Typed(r)
    requires r.rsize == 8 || r.dtype.base.Some?
    ensures StraightCode(MovRegCode(d, r))
    ensures var t := Run(MovRegCode(d, r), s);
      Only(s, t, A64No(d), A64No(d)) && t.regs[A64No(d)] == Low(8, ValueOf(s, r))
  {
    hide Exec, Straight, Low, Signed, Reading;
    WideValue(s, r);
    LowSmall(8, s.regs[A64No(r)]);
    if !RegEq(d, r) {
      MovRegMeaning(d, r, s);
      Run1(MovRegInstr(d, r), s);
    }
  }

  ghost predicate LeavesCount(x: S.Site, code: seq<Instr>, s: State)
    requires Fits(x)
  {
    && StraightCode(code)
    && var (t, d2) := (Run(code, s), A64No(Second(x.dst)));
      Only(s, t, d2, d2) && t.regs[d2] == CountAt(x, s)
  }

  lemma FromCount(x: S.Site, s: State)
    requires Fits(x) && x.form.FromForm?
    ensures LeavesCount(x, CountCode(x), s)
  {
    hide Run, Exec, Straight, MovRegCode, A64Moves.MovCode, Low, Reading, PlainInstr;
    var (d, i) := (Second(x.dst), Resize(x.i, 8));
    var (n, v) := (if x.obj.kind == Stack then x.len else s.regs[A64No(Second(x.obj))], RawOf(s, i));
    var mv := if x.obj.kind == Stack then A64Moves.MovCode(true, A64No(d), x.len) else MovRegCode(d, Second(x.obj));
    if x.obj.kind == Stack {
      A64Moves.MovMeaning(true, A64No(d), x.len, s);
    } else {
      MoveRuns(d, Second(x.obj), s);
      WideValue(s, Second(x.obj));
      LowSmall(8, n);
    }
    var t := Run(mv, s);
    assert t.regs[A64No(d)] == n;
    var sub := PlainInstr(true, false, d, d, i);
    PlainMeaning(true, d, d, i, t);
    RunAppend(mv, [sub], s);
    Run1(sub, t);
    WideValue(t, d);
    WideValue(t, i);
    LowSum(8, ValueOf(t, d), ValueOf(t, i), n, v);
    LowMod(8, n - v);
    LowSmall(8, Exec(sub, t).regs[A64No(d)]);
  }

  lemma BetweenCount(x: S.Site, s: State)
    requires Fits(x) && x.form.BetweenForm?
    ensures LeavesCount(x, CountCode(x), s)
  {
    hide Run, Exec, Straight, MovRegCode, Low, Signed, Reading, PlainInstr;
    var (d, w) := (Second(x.dst), x.i.rsize);
    var tmp := Resize(d, w);
    var typed := tmp.(dtype := x.i.dtype);
    var sub := PlainInstr(true, false, tmp, x.j, x.i);
    PlainMeaning(true, tmp, x.j, x.i, s);
    var t := Exec(sub, s);
    Run1(sub, s);
    MoveRuns(d, typed, t);
    RunAppend([sub], MovRegCode(d, typed), s);
    WideValue(s, x.i);
    WideValue(s, x.j);
    var (a, b) := (ValueOf(s, x.j), ValueOf(s, x.i));
    LowSum(w, a, b, RawOf(s, x.j), RawOf(s, x.i));
    SameReading(IsSigned(x.i), w, t.regs[A64No(d)], RawOf(s, x.j) - RawOf(s, x.i));
    LowMod(8, ValueOf(t, typed));
  }

  lemma SameReading(signed: bool, w: nat, v: int, u: int)
    requires IsSize(w) && Low(w, v) == Low(w, u)
    ensures Reading(signed, w, v) == Reading(signed, w, u)
  {
    hide Low, Signed;
    SignedLow(w, v);
    SignedLow(w, u);
  }

  lemma CountRuns(x: S.Site, s: State)
    requires Fits(x)
    ensures StraightCode(CountCode(x))
    ensures var t := Run(CountCode(x), s); var d2 := A64No(Second(x.dst));
      Only(s, t, d2, d2) && (!x.form.AtForm? ==> t.regs[d2] == CountAt(x, s))
  {
    hide Run, MovRegCode, SubRegCode, A64Moves.MovCode, Low, Signed, Reading;
    match x.form
    case AtForm => Nothing(s);
    case FromForm => FromCount(x, s);
    case BetweenForm => BetweenCount(x, s);
    case ToForm =>
      MoveRuns(Second(x.dst), x.j, s);
      LowMod(8, ValueOf(s, x.j));
  }

  lemma Nothing(s: State)
    ensures StraightCode([]) && Run([], s) == s
  {
  }

  /** The registers the counts are computed from survive the address code. */
  lemma CountKept(x: S.Site, s: State, t: State)
    requires Fits(x) && Only(s, t, AlsoUsed(x), A64No(x.dst))
    ensures !x.form.AtForm? ==> CountAt(x, t) == CountAt(x, s)
  {
    hide Reading;
  }

  lemma ResultRuns(x: S.Site, s: State)
    requires Fits(x)
    ensures StraightCode(PointerCode(x) + CountCode(x))
    ensures var u := Run(PointerCode(x) + CountCode(x), s);
      && u.regs[A64No(x.dst)] == PointerAt(x, s)
      && (!x.form.AtForm? ==> u.regs[A64No(Second(x.dst))] == CountAt(x, s))
  {
    hide Run, PointerCode, CountCode, PointerAt, CountAt;
    PointerRuns(x, s);
    var t := Run(PointerCode(x), s);
    CountRuns(x, t);
    CountKept(x, s, t);
    RunAppend(PointerCode(x), CountCode(x), s);
  }

  lemma ResultStraight(x: S.Site)
    requires Fits(x)
    ensures StraightCode(LengthCode(x)) && StraightCode(OrderCode(x)) && StraightCode(PointerCode(x) + CountCode(x))
  {
    ResultRuns(x, A64Compare.Filled(0));
  }

  // ---- Refinement ----

  lemma ConstantLength(x: S.Site, s: State)
    requires Fits(x) && x.obj.kind == Stack
    ensures StraightCode(LengthCode(x))
    ensures Run(LengthCode(x), s) == s.(flags := A64Compare.ImmFlags(Bytes(S.Bounded(x).rsize > 4), RawOf(s, S.Bounded(x)), x.len))
  {
    hide Run, Exec, Straight, A64Compare.ImmFlags, A64Compare.CmpImmInstr;
    var r := S.Bounded(x);
    A64Compare.CmpImmMeaning(r, x.len, s);
    Run1(A64Compare.ComparingImm(r, x.len), s);
  }

  lemma SliceLength(x: S.Site, s: State)
    requires Fits(x) && x.obj.kind != Stack
    ensures StraightCode(LengthCode(x))
    ensures A64Compare.OnlyTemp(s, Run(LengthCode(x), s))
    ensures Run(LengthCode(x), s).flags
      == A64Compare.Comparison(8, ValueOf(s, S.Bounded(x)), s.regs[A64No(Second(x.obj))])
  {
    hide Run, Low, Reading, AddSubFlags, A64Compare.CmpRegCode;
    var r := S.Bounded(x);
    A64Compare.CmpRegMeaning(r, Second(x.obj), s);
    WideValue(s, r);
  }

  /** The branch after the first comparison is the one that the bounds are proved of. */
  lemma LengthRuns(x: S.Site, s: State)
    requires Fits(x)
    ensures StraightCode(LengthCode(x))
    ensures var t := Run(LengthCode(x), s);
      && Only(s, t, TEMP, TEMP)
      && Holds(S.BoundCond(x), t.flags) == S.LengthTaken(S.A64, S.BoundCond(x), IndexOf(s, S.Bounded(x)), SourceOf(s, x))
  {
    hide Run, LengthCode, AddSubFlags, Low, Reading, A64Compare.ImmFlags, A64Compare.Comparison, CondHolds;
    if x.obj.kind == Stack {
      ConstantLength(x, s);
    } else {
      SliceLength(x, s);
    }
  }

  lemma OrderRuns(x: S.Site, s: State)
    requires Fits(x)
    ensures StraightCode(OrderCode(x))
    ensures var t := Run(OrderCode(x), s);
      && Only(s, t, TEMP, TEMP)
      && Holds(Conditions.HI, t.flags) == S.Taken(S.A64, Conditions.HI, Bytes(x.i.rsize > 4), RawOf(s, x.i), RawOf(s, x.j))
  {
    hide Run, AddSubFlags, Low, Reading, CondHolds, A64Compare.CmpRegCode;
    A64Compare.CmpRegMeaning(x.i, x.j, s);
  }

  /** The comparisons keep everything the rest reads. */
  lemma SameInputs(x: S.Site, s: State, t: State)
    requires Fits(x) && Only(s, t, TEMP, TEMP)
    ensures IndexOf(t, x.i) == IndexOf(s, x.i) && IndexOf(t, x.j) == IndexOf(s, x.j) && SourceOf(t, x) == SourceOf(s, x)
    ensures PointerAt(x, t) == PointerAt(x, s) && (!x.form.AtForm? ==> CountAt(x, t) == CountAt(x, s))
  {
    hide Reading, S.Address, S.BaseUsed;
  }

  /** Executed from any state, the emitted code does what the model of accesses says: it takes
      the failing branch, or leaves that address and count. */
  lemma Refines(x: S.Site, s: State)
    requires Fits(x)
    ensures S.WellTyped(OpAt(s, x), SourceOf(s, x))
    ensures Performed(x, s) == S.Access(S.A64, OpAt(s, x), SourceOf(s, x), x.elem)
  {
    hide Run, LengthCode, OrderCode, PointerCode, CountCode, Reading, S.LengthTaken, S.Taken, S.Address, S.BaseUsed, Holds, Only;
    ResultStraight(x);
    LengthRuns(x, s);
    var t := Run(LengthCode(x), s);
    SameInputs(x, s, t);
    OrderRuns(x, t);
    var u := if x.form.BetweenForm? then Run(OrderCode(x), t) else t;
    if x.form.BetweenForm? {
      SameInputs(x, t, u);
    }
    ResultRuns(x, u);
  }

  /** So an access that does not fail stays inside its object. */
  lemma PerformedInside(x: S.Site, s: State, o: O.Object)
    requires Fits(x) && O.Viewing(SourceOf(s, x), o) && x.elem == o.elem
    requires R.Relied(S.A64, OpAt(s, x), SourceOf(s, x), x.elem)
    ensures Performed(x, s) != S.Fails ==> O.Lands(OpAt(s, x), SourceOf(s, x), Performed(x, s), o)
  {
    hide Performed, S.Access, O.Viewing, O.Lands, R.Relied;
    Refines(x, s);
    O.AccessInside(S.A64, OpAt(s, x), SourceOf(s, x), o);
  }

  // ---- A check that does not hold ----

  /** `[Arr * I]` for a byte array of 200 at FP - 208 and a signed byte I. */
  function ByteSite(): S.Site {
    var i := Reg(Nreg, 0, 1, DType(Some(BaseType(0, 1, true)), []));
    S.Site(S.AtForm, Reg(Stack, 208, 8, NoType), 200, 1, i, i, Reg(Scratch, 2, 8, NoType))
  }

  /** With -100 in I and zeros above it the check passes, and the address lies 100 bytes below the
      array. */
  lemma ByteIndexEscapes(s: State)
    requires s.regs[A64No(ByteSite().i)] == 156
    ensures var x := ByteSite();
      && Fits(x) && ValueOf(s, x.i) == -100
      && Performed(x, s) == S.Elem((s.regs[A64No(FP)] - 208 - 100) % P64)
      && !S.Safe(S.A64, S.AtForm, SourceOf(s, x), 1, true) && !S.Held(S.A64, IndexOf(s, x.i))
  {
    hide Performed, Run, LengthCode, S.Access;
    var x := ByteSite();
    assert TrailingZeros(1) == 0;
    Refines(x, s);
    ByteAccess(OpAt(s, x), SourceOf(s, x));
  }

  /** A 32-bit compare of 156 with 200. */
  lemma ByteAccess(op: S.Op, src: S.Source)
    requires op == S.At(S.Index(1, true, 156)) && src.Array? && src.off == 208 && src.len == 200
    ensures S.Access(S.A64, op, src, 1) == S.Elem((src.fp - 208 - 100) % P64)
  {
    hide S.LengthTaken, S.Taken;
    S.ChecksMean(S.A64, op, src, 1);
    ModSum((src.fp - 208) % P64, -100, src.fp - 208, -100, P64);
    assert Pow2(TrailingZeros(1)) == 1;
  }
}
