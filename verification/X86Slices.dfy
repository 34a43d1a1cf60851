// The code of checked accesses on x86-64, executed: what it compares, which address and count
// it leaves.
module X86Slices {
  import opened Words
  import opened TypeSys
  import opened Registers
  import opened X86Flags
  import opened X86Instr
  import opened X86Machine
  import opened X86Lower
  import opened X86Address
  import X86Compare
  import Conditions
  import S = Slices
  import R = SliceResults
  import O = SliceObjects

  // ---- The code ----

  /** Comparing an index with the length. */
  function LengthCode(x: S.Site): seq<Instr>
    requires Fits(x)
  {
    var r := S.Bounded(x);
    if x.obj.kind == Stack then [X86Compare.StraightCmp(r.rsize, X86No(r), x.len)]
    else X86Compare.CmpRegCode(r, Second(x.obj), S.BoundCond(x))
  }

  function CountCode(x: S.Site): seq<Instr>
    requires Fits(x)
  {
    var d2 := Second(x.dst);
    match x.form
    case AtForm => []
    case FromForm =>
      (if x.obj.kind == Stack then MovCode(8, X86No(d2), x.len) else MovRegCode(d2, Second(x.obj)))
        + SubRegCode(d2, d2, Resize(x.i, 8))
    case BetweenForm =>
      var tmp := Resize(d2, x.i.rsize);
      SubRegCode(tmp, x.j, x.i) + MovRegCode(d2, tmp.(dtype := x.i.dtype))
    case ToForm => MovRegCode(d2, x.j)
  }

  function PointerCode(x: S.Site): seq<Instr>
    requires Fits(x)
  {
    if x.form.ToForm? then [Mem(OP_LEA, 8, X86No(x.dst), RBP, NoIndex, -x.obj.offset)]
    else ElemAddrCode(x.dst, x.obj, x.i, x.elem)
  }

  function ResultCode(x: S.Site): seq<Instr>
    requires Fits(x)
  {
    PointerCode(x) + CountCode(x)
  }

  // ---- Where it is used ----

  /** A stack array or a slice in two registers; no register is overwritten while it is needed. */
  predicate Fits(x: S.Site) {
    && Subscript(x.i) && Subscript(x.j) && x.i.rsize == x.j.rsize && IsSigned(x.i) == IsSigned(x.j)
    && 0 < x.elem < 0x8000_0000 && Pair(x.dst)
    && (if x.obj.kind == Stack then 0 <= x.obj.offset < 0x8000_0000 && x.len < 0x8000_0000
        else Pair(x.obj) && !x.form.ToForm? && Apart(x.obj, x.dst))
    && X86No(x.dst) != X86No(x.i) && X86No(x.dst) != X86No(x.j) && X86No(x.dst) != X86No(Second(x.dst))
    && X86No(Second(x.dst)) != X86No(x.i) && X86No(Second(x.dst)) != X86No(x.j)
    && (x.obj.kind != Stack ==> X86No(Second(x.obj)) != X86No(x.i))
  }

  predicate Apart(obj: Reg, dst: Reg)
    requires Pair(obj) && Pair(dst)
  {
    var count := X86No(Second(obj));
    X86No(obj) != RAX && count != RAX && count != RCX && count != X86No(dst)
  }

  // ---- What it does ----

  ghost function IndexOf(s: State, r: Reg): S.Index
    requires InTable(r)
  {
    S.Index(r.rsize, IsSigned(r), s.regs[X86No(r)])
  }

  ghost function SourceOf(s: State, x: S.Site): S.Source
    requires Fits(x)
  {
    if x.obj.kind == Stack then S.Array(s.regs[RBP], x.obj.offset, x.len)
    else S.Slice(s.regs[X86No(x.obj)], s.regs[X86No(Second(x.obj))])
  }

  ghost function OpAt(s: State, x: S.Site): S.Op
    requires Fits(x)
  {
    S.OpOf(x.form, IndexOf(s, x.i), IndexOf(s, x.j))
  }

  /** Other bytes stand between the comparison with the length and its branch. */
  predicate Strays(x: S.Site) { x.obj.kind == Stack && X86Compare.Stray(S.Bounded(x).rsize, x.len) != [] }

  /** Running the code: each comparison branches away or falls through. */
  ghost function Performed(x: S.Site, s: State): S.Result
    requires Fits(x)
  {
    LengthEnds(x);
    OrderEnds(x);
    ResultStraight(x);
    var t := Run(LengthCode(x), s);
    if Strays(x) then S.Astray
    else if S.XHolds(S.BoundCond(x), FlagsAfter(LengthCode(x), s)) then S.Fails
    else if x.form.BetweenForm? && S.XHolds(Conditions.HI, FlagsAfter(OrderCode(x), t)) then S.Fails
    else
      var u := Run(ResultCode(x), if x.form.BetweenForm? then Run(OrderCode(x), t) else t);
      if x.form.AtForm? then S.Elem(u.regs[X86No(x.dst)])
      else S.Part(u.regs[X86No(x.dst)], u.regs[X86No(Second(x.dst))])
  }

  function OrderCode(x: S.Site): seq<Instr>
    requires Fits(x)
  {
    X86Compare.CmpRegCode(x.i, x.j, Conditions.HI)
  }

  lemma LengthEnds(x: S.Site)
    requires Fits(x)
    ensures EndsInCompare(LengthCode(x)) && StraightCode(LengthCode(x))
  {
    if x.obj.kind != Stack {
      X86Compare.CmpRegMeaning(S.Bounded(x), Second(x.obj), S.BoundCond(x), X86Compare.Filled(0));
    }
  }

  lemma OrderEnds(x: S.Site)
    requires Fits(x)
    ensures EndsInCompare(OrderCode(x)) && StraightCode(OrderCode(x))
  {
  }

  // ---- The counts ----

  ghost function RawOf(s: State, r: Reg): int
    requires InTable(r)
  {
    s.regs[X86No(r)]
  }

  /** The value at width w that a register is left with. */
  lemma MovedReading(s: State, w: nat, d: RegNo, v: int, u: int, signed: bool)
    requires IsSize(w) && Low(w, v) == Low(w, u)
    ensures Reading(signed, w, Moved(s, w, d, v).regs[d]) == Reading(signed, w, u)
  {
    hide Low, Signed;
    var x := Moved(s, w, d, v).regs[d];
    MergeRead(w, s.regs[d], v);
    SignedLow(w, x);
    SignedLow(w, u);
  }

  lemma SameNumber(r: Reg, dtype: DType)
    requires InTable(r)
    ensures X86No(r.(dtype := dtype)) == X86No(r) && X86No(PTR) == RAX
  {
  }

  /** The count of the result, from the operands. */
  ghost function CountAt(x: S.Site, s: State): U64
    requires Fits(x)
  {
    match x.form
    case AtForm => s.regs[X86No(Second(x.dst))]
    case FromForm => S.WideWord(S.Length(SourceOf(s, x)) - S.RegisterAfter(S.X86, IndexOf(s, x.i)))
    case BetweenForm => S.WideWord(Reading(IsSigned(x.i), x.i.rsize, RawOf(s, x.j) - RawOf(s, x.i)))
    case ToForm => S.WideWord(ValueOf(s, x.j))
  }

  /** The same from the registers as the counting code finds them. */
  ghost function CountRead(x: S.Site, s: State): U64
    requires Fits(x)
  {
    match x.form
    case AtForm => s.regs[X86No(Second(x.dst))]
    case FromForm => S.WideWord(S.Length(SourceOf(s, x)) - RawOf(s, x.i))
    case BetweenForm => S.WideWord(Reading(IsSigned(x.i), x.i.rsize, RawOf(s, x.j) - RawOf(s, x.i)))
    case ToForm => S.WideWord(ValueOf(s, x.j))
  }

  ghost predicate LeavesCount(x: S.Site, code: seq<Instr>, s: State)
    requires Fits(x)
  {
    && Sound(code)
    && var (t, d2) := (Run(code, s), X86No(Second(x.dst)));
      Only(s, t, d2, d2, d2) && t.regs[d2] == CountRead(x, s)
  }

  lemma FromCount(x: S.Site, s: State)
    requires Fits(x) && x.form.FromForm?
    ensures LeavesCount(x, CountCode(x), s)
  {
    hide Run, X86No, MovRegCode, MovCode, SubRegCode, Low, ValueOf, Reading;
    var (d, i) := (Second(x.dst), Resize(x.i, 8));
    var (n, v) := (if x.obj.kind == Stack then x.len else s.regs[X86No(Second(x.obj))], s.regs[X86No(i)]);
    var mv := if x.obj.kind == Stack then MovCode(8, X86No(d), x.len) else MovRegCode(d, Second(x.obj));
    if x.obj.kind == Stack {
      MovMeaning(8, X86No(d), x.len, s);
    } else {
      MovRegMeaning(d, Second(x.obj), s);
      ValueAt(s, Second(x.obj));
      MergeMod(8, s.regs[X86No(d)], ValueOf(s, Second(x.obj)), n);
    }
    var t := Moved(s, 8, X86No(d), n);
    SubRegMeaning(d, d, i, t);
    RunAppend(mv, SubRegCode(d, d, i), s);
    ValueAt(t, d);
    ValueAt(t, i);
    LowLow(8, n);
    LowSmall(8, v);
    LowSum(8, ValueOf(t, d), ValueOf(t, i), n, v);
    LowMod(8, n - v);
  }

  lemma BetweenCount(x: S.Site, s: State)
    requires Fits(x) && x.form.BetweenForm?
    ensures LeavesCount(x, CountCode(x), s)
  {
    hide Run, X86No, MovRegCode, SubRegCode, Low, Signed, Reading;
    var (d, w) := (Second(x.dst), x.i.rsize);
    var tmp := Resize(d, w);
    var typed := tmp.(dtype := x.i.dtype);
    var (a, b) := (ValueOf(s, x.j), ValueOf(s, x.i));
    SubRegMeaning(tmp, x.j, x.i, s);
    var t := Moved(s, w, X86No(d), a - b);
    MovRegMeaning(d, typed, t);
    RunAppend(SubRegCode(tmp, x.j, x.i), MovRegCode(d, typed), s);
    WideValue(s, x.i, w);
    WideValue(s, x.j, w);
    LowSum(w, a, b, s.regs[X86No(x.j)], s.regs[X86No(x.i)]);
    SameNumber(tmp, x.i.dtype);
    MovedReading(s, w, X86No(d), a - b, RawOf(s, x.j) - RawOf(s, x.i), IsSigned(x.i));
    LowMod(8, ValueOf(t, typed));
  }

  lemma ToCount(x: S.Site, s: State)
    requires Fits(x) && x.form.ToForm?
    ensures LeavesCount(x, CountCode(x), s)
  {
    hide Run, X86No, MovRegCode, Low, Signed, Reading;
    MovRegMeaning(Second(x.dst), x.j, s);
    LowMod(8, ValueOf(s, x.j));
  }

  // ---- Refinement ----

  lemma ToPointer(x: S.Site, s: State)
    requires Fits(x) && x.form.ToForm?
    ensures var code := [Mem(OP_LEA, 8, X86No(x.dst), RBP, NoIndex, -x.obj.offset)]; var d := X86No(x.dst);
      && Sound(code) && Only(s, Run(code, s), d, d, d)
      && Run(code, s).regs[d] == (s.regs[RBP] - x.obj.offset) % P64
  {
    hide X86No;
    Run1(Mem(OP_LEA, 8, X86No(x.dst), RBP, NoIndex, -x.obj.offset), s);
  }

  /** The pointer the result begins with. */
  ghost function PointerAt(x: S.Site, s: State): U64
    requires Fits(x)
  {
    var src := SourceOf(s, x);
    if x.form.ToForm? then S.BaseUsed(S.X86, src) else S.Address(S.X86, src, IndexOf(s, x.i), x.elem)
  }

  /** A narrow begin index is extended by the address code. */
  ghost function After(x: S.Site, s: State): State
    requires Fits(x)
  {
    if x.form.ToForm? then s else Extended(s, x.i)
  }

  /** Its register is then what the model of accesses says. */
  lemma AfterIndex(x: S.Site, s: State)
    requires Fits(x)
    ensures Extended(s, x.i).regs[X86No(x.i)] == S.RegisterAfter(S.X86, IndexOf(s, x.i))
  {
    hide X86No, Reading;
  }

  lemma AddressPart(x: S.Site, s: State)
    requires Fits(x)
    ensures Sound(PointerCode(x))
    ensures var t := Run(PointerCode(x), s);
      Only(After(x, s), t, RAX, RCX, X86No(x.dst)) && t.regs[X86No(x.dst)] == PointerAt(x, s)
  {
    hide X86No, Run, ElemAddrCode, Extended;
    if x.form.ToForm? {
      ToPointer(x, s);
    } else {
      ElemAddrRuns(x.dst, x.obj, x.i, x.elem, s);
      AfterIndex(x, s);
    }
  }

  /** The numbers the count is computed from survive the address code. */
  lemma CountKept(x: S.Site, s: State, t: State)
    requires Fits(x) && Only(After(x, s), t, RAX, RCX, X86No(x.dst))
    ensures !x.form.AtForm? ==> CountRead(x, t) == CountAt(x, s)
  {
    hide Low, Signed, Reading, Extended, S.RegisterAfter;
    Numbers(x.i);
    Numbers(x.j);
    AfterIndex(x, s);
    ExtendedKeeps(s, x.i);
    if x.form.BetweenForm? {
      var w := x.i.rsize;
      LowSum(w, RawOf(t, x.j), RawOf(t, x.i), RawOf(s, x.j), RawOf(s, x.i));
      SameReading(IsSigned(x.i), w, RawOf(t, x.j) - RawOf(t, x.i), RawOf(s, x.j) - RawOf(s, x.i));
    }
  }

  lemma SameReading(signed: bool, w: nat, v: int, u: int)
    requires IsSize(w) && Low(w, v) == Low(w, u)
    ensures Reading(signed, w, v) == Reading(signed, w, u)
  {
    hide Low, Signed;
    SignedLow(w, v);
    SignedLow(w, u);
  }

  lemma CountPart(x: S.Site, s: State, t: State)
    requires Fits(x) && Only(After(x, s), t, RAX, RCX, X86No(x.dst))
    ensures Sound(CountCode(x))
    ensures var (u, d2) := (Run(CountCode(x), t), X86No(Second(x.dst)));
      && u.regs[X86No(x.dst)] == t.regs[X86No(x.dst)]
      && (!x.form.AtForm? ==> u.regs[d2] == CountAt(x, s))
  {
    hide Run, MovRegCode, SubRegCode, MovCode, Low, Signed, Reading, CountAt, CountRead, After;
    CountKept(x, s, t);
    match x.form
    case AtForm => Nothing(t);
    case FromForm => FromCount(x, t);
    case BetweenForm => BetweenCount(x, t);
    case ToForm => ToCount(x, t);
  }

  lemma Nothing(s: State)
    ensures Sound([]) && Run([], s) == s
  {
  }

  lemma ResultRuns(x: S.Site, s: State)
    requires Fits(x)
    ensures Sound(ResultCode(x))
    ensures var u := Run(ResultCode(x), s);
      && u.regs[X86No(x.dst)] == PointerAt(x, s)
      && (!x.form.AtForm? ==> u.regs[X86No(Second(x.dst))] == CountAt(x, s))
  {
    hide Run, X86No, PointerCode, CountCode, Only, PointerAt, CountAt, After;
    AddressPart(x, s);
    CountPart(x, s, Run(PointerCode(x), s));
    RunAppend(PointerCode(x), CountCode(x), s);
  }

  lemma ResultStraight(x: S.Site)
    requires Fits(x)
    ensures StraightCode(ResultCode(x))
  {
    ResultRuns(x, X86Compare.Filled(0));
  }

  /** The branch after the first comparison is the one that the bounds are proved of. */
  lemma LengthRuns(x: S.Site, s: State)
    requires Fits(x)
    ensures EndsInCompare(LengthCode(x))
    ensures S.XHolds(S.BoundCond(x), FlagsAfter(LengthCode(x), s))
      == S.LengthTaken(S.X86, S.BoundCond(x), IndexOf(s, S.Bounded(x)), SourceOf(s, x))
    ensures Only(s, Run(LengthCode(x), s), RAX, RAX, RAX)
  {
    hide X86No, XCompare, Low, Reading, Signed;
    LengthEnds(x);
    var r := S.Bounded(x);
    if x.obj.kind == Stack {
      var i := X86Compare.StraightCmp(r.rsize, X86No(r), x.len);
      X86Compare.CmpImmFlags(r.rsize, X86No(r), x.len, s);
      Run1(i, s);
      assert [i][..0] == [];
    } else {
      SliceLength(x, s);
    }
  }

  lemma SliceLength(x: S.Site, s: State)
    requires Fits(x) && x.obj.kind != Stack
    ensures EndsInCompare(LengthCode(x))
    ensures FlagsAfter(LengthCode(x), s)
      == Comparison(8, ValueOf(s, S.Bounded(x)), s.regs[X86No(Second(x.obj))])
    ensures Only(s, Run(LengthCode(x), s), RAX, RAX, RAX)
  {
    hide XCompare, Low, Reading, Signed, MovRegCode, FlagsAfter, Run, EndsInCompare;
    var (r, n) := (S.Bounded(x), Second(x.obj));
    X86Compare.CmpRegMeaning(r, n, S.BoundCond(x), s);
    ValueAt(s, n);
    CompareKeeps(r, n, S.BoundCond(x), s);
  }

  /** A comparison changes no register but RAX. */
  lemma CompareKeeps(lhs: Reg, rhs: Reg, cond: nat, s: State)
    requires X86Lower.Operand(lhs) && X86Lower.Operand(rhs) && rhs.rsize == 8
    ensures StraightCode(X86Compare.CmpRegCode(lhs, rhs, cond))
    ensures Only(s, Run(X86Compare.CmpRegCode(lhs, rhs, cond), s), RAX, RAX, RAX)
  {
    hide Run, MovRegCode, X86No, Low, Reading, Signed;
    var code := X86Compare.CmpRegCode(lhs, rhs, cond);
    if lhs.rsize == rhs.rsize || X86Compare.Raw(lhs, rhs, cond) {
      Run1(code[0], s);
      assert code == [code[0]];
    } else {
      var (tmp, cmp) := (X86Compare.Temp(8), RR(OP_CMP_RM_R, 8, X86No(rhs), RAX));
      MovRegMeaning(tmp, lhs, s);
      SameNumber(tmp, NoType);
      RunAppend(MovRegCode(tmp, lhs), [cmp], s);
      Run1(cmp, Run(MovRegCode(tmp, lhs), s));
      assert code == MovRegCode(tmp, lhs) + [cmp];
      assert Run(code, s) == Moved(s, 8, RAX, ValueOf(s, lhs));
    }
  }

  lemma OrderRuns(x: S.Site, s: State)
    requires Fits(x)
    ensures EndsInCompare(OrderCode(x))
    ensures S.XHolds(Conditions.HI, FlagsAfter(OrderCode(x), s))
      == S.Taken(S.X86, Conditions.HI, x.i.rsize, s.regs[X86No(x.i)], s.regs[X86No(x.j)])
    ensures Run(OrderCode(x), s) == s
  {
    hide X86No, XCompare, Low;
    var cmp := OrderCode(x)[0];
    Run1(cmp, s);
    assert OrderCode(x) == [cmp] && [cmp][..0] == [];
  }

  /** Executed from any state, the emitted code does what the model of accesses says: it takes
      the failing branch, or leaves that address and count. */
  lemma Refines(x: S.Site, s: State)
    requires Fits(x)
    ensures S.WellTyped(OpAt(s, x), SourceOf(s, x))
    ensures Performed(x, s) == S.Access(S.X86, OpAt(s, x), SourceOf(s, x), x.elem)
  {
    hide X86No, Run, LengthCode, OrderCode, ResultCode, FlagsAfter, EndsInCompare, Reading, S.LengthTaken, S.Taken, S.Address, S.BaseUsed, S.XHolds;
    LengthEnds(x);
    OrderEnds(x);
    LengthRuns(x, s);
    var t := Run(LengthCode(x), s);
    OrderRuns(x, t);
    SameInputs(x, s, t);
    ResultRuns(x, t);
  }

  /** The first comparison keeps everything the rest reads. */
  lemma SameInputs(x: S.Site, s: State, t: State)
    requires Fits(x) && Only(s, t, RAX, RAX, RAX)
    ensures IndexOf(t, x.i) == IndexOf(s, x.i) && IndexOf(t, x.j) == IndexOf(s, x.j) && SourceOf(t, x) == SourceOf(s, x)
    ensures ValueOf(t, x.j) == ValueOf(s, x.j)
  {
    Numbers(x.i);
    Numbers(x.j);
  }

  /** So an access that does not fail stays inside its object. */
  lemma PerformedInside(x: S.Site, s: State, o: O.Object)
    requires Fits(x) && O.Viewing(SourceOf(s, x), o) && x.elem == o.elem
    requires R.Relied(S.X86, OpAt(s, x), SourceOf(s, x), x.elem)
    ensures Performed(x, s) != S.Fails ==> O.Lands(OpAt(s, x), SourceOf(s, x), Performed(x, s), o)
  {
    hide Performed, S.Access, O.Viewing, O.Lands, R.Relied;
    Refines(x, s);
    O.AccessInside(S.X86, OpAt(s, x), SourceOf(s, x), o);
  }

  // ---- A check that does not hold ----

  /** `[Arr * I]` for a byte array of 200 at RBP - 208 and a signed byte I. */
  function ByteSite(): S.Site {
    var i := Reg(Nreg, 0, 1, DType(Some(BaseType(0, 1, true)), []));
    S.Site(S.AtForm, Reg(Stack, 208, 8, NoType), 200, 1, i, i, Reg(Scratch, 2, 8, NoType))
  }

  /** With -100 in I the check passes, and the address lies 100 bytes below the array. */
  lemma ByteIndexEscapes(s: State)
    requires s.regs[X86No(ByteSite().i)] == 156
    ensures var x := ByteSite();
      && Fits(x) && ValueOf(s, x.i) == -100
      && Performed(x, s) == S.Elem((s.regs[RBP] - 208 - 100) % P64)
      && !S.Safe(S.X86, S.AtForm, SourceOf(s, x), 1, true)
  {
    hide Performed, Run, LengthCode, S.Access;
    var x := ByteSite();
    Refines(x, s);
    ByteAccess(OpAt(s, x), SourceOf(s, x));
  }

  /** An 8-bit compare of 156 with 200. */
  lemma ByteAccess(op: S.Op, src: S.Source)
    requires op == S.At(S.Index(1, true, 156)) && src.Array? && src.off == 208 && src.len == 200
    ensures S.Access(S.X86, op, src, 1) == S.Elem((src.fp - 208 - 100) % P64)
  {
    hide S.LengthTaken, S.Taken;
    S.ChecksMean(S.X86, op, src, 1);
    Below(src.fp);
  }

  lemma Below(p: int)
    ensures ((p - 208) % P64 + (P64 - 100) * 1) % P64 == (p - 208 - 100) % P64
  {
    ModSum((p - 208) % P64, P64 - 100, p - 208, -100, P64);
  }
}
