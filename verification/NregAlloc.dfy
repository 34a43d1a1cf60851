// Named registers: scopes of names, marks that give registers back at the end of a block, and
// the high-water mark that the frame saves.
module NregAlloc {
  import opened TypeSys
  import opened HashTables
  import opened Registers
  import opened NamedRegs
  import A64Frame
  import A64Machine
  import X86Frame

  const MARK_CAP := 10

  /** The registers of a name: one, or two for a slice. */
  datatype Range = Range(offset: nat, size: nat)

  function EndOf(r: Range): nat { r.offset + r.size }

  predicate Apart(a: Range, b: Range) { EndOf(a) <= b.offset || EndOf(b) <= a.offset }

  /** The parser's allocation state; counts are bytes in the source. */
  datatype Regs = Regs(scopes: seq<map<Key, Range>>, marks: seq<nat>, count: nat, maxCount: nat)

  function Start(): Regs { Regs([map[]], [], 0, 0) }

  datatype Step = Declare(name: Key, size: nat) | Enter | Leave

  function DeclareIn(s: Regs, name: Key, size: nat): Regs
    requires s.scopes != []
  {
    var top := |s.scopes| - 1;
    var count := (s.count + size) % 256;
    Regs(s.scopes[top := s.scopes[top][name := Range(s.count, size)]], s.marks, count,
      if count > s.maxCount then count else s.maxCount)
  }

  /** Opening a block; seven scopes are all there are. */
  function EnterBlock(s: Regs): Option<Regs> {
    if |s.scopes| >= MAX_DEPTH || |s.marks| >= MARK_CAP then None
    else Some(s.(scopes := s.scopes + [map[]], marks := s.marks + [s.count]))
  }

  function LeaveBlock(s: Regs): Regs {
    var scopes := if |s.scopes| <= 1 then s.scopes else s.scopes[..|s.scopes| - 1];
    if s.marks == [] then s.(scopes := scopes)
    else s.(scopes := scopes, count := s.marks[|s.marks| - 1], marks := s.marks[..|s.marks| - 1])
  }

  /** A run; None when the compiler aborts on the way. */
  function Run(steps: seq<Step>, s: Regs): Option<Regs>
    requires s.scopes != []
  {
    if steps == [] then Some(s)
    else match steps[0]
      case Declare(name, size) => Run(steps[1..], DeclareIn(s, name, size))
      case Enter => (match EnterBlock(s) case None => None case Some(t) => Run(steps[1..], t))
      case Leave => Run(steps[1..], LeaveBlock(s))
  }

  // ---- The invariant ----

  /** The first register of scope d. */
  function Base(s: Regs, d: nat): nat
    requires d <= |s.marks| + 1
  {
    if d == 0 then 0 else if d <= |s.marks| then s.marks[d - 1] else s.count
  }

  /** The names of each scope hold registers between its mark and the next. */
  predicate Placed(s: Regs) {
    |s.scopes| == |s.marks| + 1
    && forall d, k :: 0 <= d < |s.scopes| && k in s.scopes[d] ==>
         Base(s, d) <= s.scopes[d][k].offset && EndOf(s.scopes[d][k]) <= Base(s, d + 1)
  }

  /** The names of one scope hold disjoint registers. */
  predicate DisjointIn(scope: map<Key, Range>) {
    forall k, l :: k in scope && l in scope && k != l ==> Apart(scope[k], scope[l])
  }

  /** Scopes and marks are in lock step; the names of each scope hold disjoint registers between
      its mark and the next; no register is beyond the high-water mark. */
  predicate Inv(s: Regs) {
    && |s.scopes| == |s.marks| + 1 && s.count <= s.maxCount <= 255
    && (forall d :: 0 <= d < |s.scopes| ==> Base(s, d) <= Base(s, d + 1))
    && Placed(s)
    && (forall d :: 0 <= d < |s.scopes| ==> DisjointIn(s.scopes[d]))
  }

  lemma {:induction false} BaseMonotone(s: Regs, d: nat, e: nat)
    requires Inv(s) && d <= e <= |s.scopes|
    ensures Base(s, d) <= Base(s, e)
    decreases e - d
  {
    if d < e {
      BaseMonotone(s, d + 1, e);
    }
  }

  /** So any two names, in the same or in different open scopes, hold disjoint registers below
      the count. */
  lemma VisibleDisjoint(s: Regs, d: nat, k: Key, e: nat, l: Key)
    requires Inv(s) && d <= e < |s.scopes| && k in s.scopes[d] && l in s.scopes[e] && (d != e || k != l)
    ensures Apart(s.scopes[d][k], s.scopes[e][l])
    ensures EndOf(s.scopes[d][k]) <= s.count <= s.maxCount
  {
    BaseMonotone(s, d + 1, |s.scopes|);
    if d < e {
      BaseMonotone(s, d + 1, e);
    }
  }

  lemma DeclareBases(s: Regs, name: Key, size: nat)
    requires Inv(s) && s.count + size <= 255
    ensures var (t, top) := (DeclareIn(s, name, size), |s.scopes| - 1);
      && t.count == s.count + size && Base(t, top + 1) == t.count && Base(s, top + 1) == s.count
      && (forall d :: 0 <= d <= top ==> Base(t, d) == Base(s, d))
      && (forall d :: 0 <= d < top ==> t.scopes[d] == s.scopes[d])
      && t.scopes[top] == s.scopes[top][name := Range(s.count, size)]
  {
  }

  /** A range above all the others of a scope. */
  lemma StillDisjoint(scope: map<Key, Range>, name: Key, r: Range)
    requires DisjointIn(scope) && forall k :: k in scope ==> EndOf(scope[k]) <= r.offset
    ensures DisjointIn(scope[name := r])
  {
  }

  lemma DeclareKeeps(s: Regs, name: Key, size: nat)
    requires Inv(s) && s.count + size <= 255
    ensures Inv(DeclareIn(s, name, size))
  {
    hide DeclareIn, Base, DisjointIn;
    var (t, top) := (DeclareIn(s, name, size), |s.scopes| - 1);
    DeclareBases(s, name, size);
    StillDisjoint(s.scopes[top], name, Range(s.count, size));
    DeclareCounts(s, name, size);
  }

  lemma DeclareCounts(s: Regs, name: Key, size: nat)
    requires s.scopes != [] && s.count + size <= 255 && s.count <= s.maxCount <= 255
    ensures var t := DeclareIn(s, name, size);
      |t.scopes| == |s.scopes| && t.marks == s.marks && t.count <= t.maxCount <= 255
  {
  }

  lemma EnterKeeps(s: Regs)
    requires Inv(s) && EnterBlock(s).Some?
    ensures Inv(EnterBlock(s).value)
  {
    var t := EnterBlock(s).value;
    var top := |s.scopes|;
    assert forall d :: 0 <= d <= top ==> Base(t, d) == Base(s, d);
    assert Base(t, top + 1) == t.count;
    assert forall d :: 0 <= d < top ==> t.scopes[d] == s.scopes[d];
    assert t.scopes[top] == map[];
  }

  lemma LeaveKeeps(s: Regs)
    requires Inv(s)
    ensures Inv(LeaveBlock(s)) && LeaveBlock(s).maxCount == s.maxCount
  {
    var t := LeaveBlock(s);
    if s.marks != [] {
      var n := |s.marks|;
      BaseMonotone(s, n, n + 1);
      assert forall d :: 0 <= d < n ==> Base(t, d) == Base(s, d);
      assert Base(t, n) == t.count == Base(s, n);
    }
  }

  /** Every block entered inside is left again inside; d more are open. */
  predicate WellNested(steps: seq<Step>, d: nat) {
    if steps == [] then d == 0
    else match steps[0]
      case Declare(_, _) => WellNested(steps[1..], d)
      case Enter => WellNested(steps[1..], d + 1)
      case Leave => d > 0 && WellNested(steps[1..], d - 1)
  }

  /** Well-nested steps inside a block leave the n scopes and marks around it alone. */
  lemma {:induction false} OuterKept(steps: seq<Step>, d: nat, s: Regs, n: nat)
    requires WellNested(steps, d) && 1 <= n && |s.scopes| == n + 1 + d && |s.marks| == n + d && Run(steps, s).Some?
    ensures var t := Run(steps, s).value;
      |t.scopes| == n + 1 && t.scopes[..n] == s.scopes[..n] && t.marks == s.marks[..n]
    decreases |steps|
  {
    if steps != [] {
      match steps[0]
      case Declare(name, size) => OuterKept(steps[1..], d, DeclareIn(s, name, size), n);
      case Enter => OuterKept(steps[1..], d + 1, EnterBlock(s).value, n);
      case Leave => OuterKept(steps[1..], d - 1, LeaveBlock(s), n);
    }
  }

  /** A block gives back exactly its names and registers, whatever happened in it. */
  lemma BlockRestores(s: Regs, steps: seq<Step>)
    requires Inv(s) && WellNested(steps, 0) && EnterBlock(s).Some? && Run(steps, EnterBlock(s).value).Some?
    ensures var t := LeaveBlock(Run(steps, EnterBlock(s).value).value);
      t.scopes == s.scopes && t.marks == s.marks && t.count == s.count
  {
    var u := EnterBlock(s).value;
    OuterKept(steps, 0, u, |s.scopes|);
    assert u.scopes[..|s.scopes|] == s.scopes;
    assert u.marks[..|s.scopes|] == u.marks && u.marks[..|s.marks|] == s.marks;
  }

  predicate OneOrTwo(steps: seq<Step>) {
    forall k :: 0 <= k < |steps| && steps[k].Declare? ==> steps[k].size == 1 || steps[k].size == 2
  }

  lemma MaxGrows(s: Regs, name: Key, size: nat)
    requires s.scopes != []
    ensures DeclareIn(s, name, size).maxCount >= s.maxCount
  {
  }

  lemma {:induction false} MaxOnlyGrows(steps: seq<Step>, s: Regs)
    requires s.scopes != [] && Run(steps, s).Some?
    ensures Run(steps, s).value.maxCount >= s.maxCount
    decreases |steps|
  {
    if steps != [] {
      match steps[0]
      case Declare(name, size) => MaxOnlyGrows(steps[1..], DeclareIn(s, name, size));
      case Enter => MaxOnlyGrows(steps[1..], EnterBlock(s).value);
      case Leave => MaxOnlyGrows(steps[1..], LeaveBlock(s));
    }
  }

  /** Over every run the invariant holds, unless so many registers were once in use that the
      one-byte count was about to wrap; such a function has no frame. */
  lemma {:induction false} EveryRun(steps: seq<Step>, s: Regs)
    requires Inv(s) && OneOrTwo(steps) && Run(steps, s).Some?
    ensures var t := Run(steps, s).value; Inv(t) || t.maxCount >= 254
    decreases |steps|
  {
    hide Inv;
    InvShape(s);
    if steps != [] {
      var rest := steps[1..];
      assert forall k :: 0 <= k < |rest| ==> rest[k] == steps[k + 1];
      match steps[0]
      case Declare(name, size) =>
        assert size == 1 || size == 2;
        if s.count + size <= 255 {
          DeclareKeeps(s, name, size);
          EveryRun(rest, DeclareIn(s, name, size));
        } else {
          MaxGrows(s, name, size);
          MaxOnlyGrows(rest, DeclareIn(s, name, size));
        }
      case Enter =>
        EnterKeeps(s);
        EveryRun(rest, EnterBlock(s).value);
      case Leave =>
        LeaveKeeps(s);
        EveryRun(rest, LeaveBlock(s));
    }
  }

  lemma InvShape(s: Regs)
    requires Inv(s)
    ensures s.scopes != [] && s.count <= s.maxCount
  {
  }

  /** The run's k-th step gives register o to a name. */
  predicate Gives(steps: seq<Step>, k: nat, o: nat) {
    k < |steps| && steps[k].Declare? && StateAt(steps, Start(), k).Some?
    && StateAt(steps, Start(), k).value.count <= o < StateAt(steps, Start(), k).value.count + steps[k].size
  }

  /** A run below the wrap: every prefix kept the invariant and what it handed out lies below the
      high-water mark, which some step reached. */
  lemma GivenBelowMax(steps: seq<Step>, k: nat, o: nat)
    requires OneOrTwo(steps) && Run(steps, Start()).Some? && Run(steps, Start()).value.maxCount < 254
    requires Gives(steps, k, o)
    ensures o < Run(steps, Start()).value.maxCount
  {
    hide Run, Inv, DeclareIn;
    BelowWrap(steps, k);
    NextState(steps, Start(), k);
    RunPrefix(steps, k + 1, Start());
    DeclareRaises(StateAt(steps, Start(), k).value, steps[k].name, steps[k].size);
  }

  lemma DeclareRaises(s: Regs, name: Key, size: nat)
    requires s.scopes != [] && s.count + size <= 255
    ensures s.count + size <= DeclareIn(s, name, size).maxCount
  {
  }

  lemma BelowWrap(steps: seq<Step>, k: nat)
    requires OneOrTwo(steps) && k <= |steps| && Run(steps, Start()).Some? && Run(steps, Start()).value.maxCount < 254
    ensures StateAt(steps, Start(), k).Some?
    ensures var t := StateAt(steps, Start(), k).value;
      Inv(t) && t.count <= t.maxCount <= Run(steps, Start()).value.maxCount
  {
    hide Run, Inv, OneOrTwo;
    StartsWell(steps, k);
    RunPrefix(steps, k, Start());
    EveryRun(steps[..k], Start());
    InvShape(StateAt(steps, Start(), k).value);
  }

  /** A run from the start that ends with a frame the AArch64 backend accepts kept the invariant all
      along, and every machine register it ever gave a name is saved by that frame. */
  lemma AcceptedRuns(steps: seq<Step>, k: nat, locals: nat, calls: bool)
    requires OneOrTwo(steps) && k <= |steps| && Run(steps, Start()).Some?
    requires A64Frame.Supported(A64Frame.FrameInfo(Run(steps, Start()).value.maxCount, locals, calls))
    ensures StateAt(steps, Start(), k).Some? && Inv(StateAt(steps, Start(), k).value)
    ensures var f := A64Frame.FrameInfo(Run(steps, Start()).value.maxCount, locals, calls);
      forall o: nat :: Gives(steps, k, o) ==> HasA64(Named(o)) && A64No(Named(o)) in A64Frame.SavedRegs(f)
  {
    hide Run, Inv, OneOrTwo, Gives, A64Frame.SavedRegs, A64Raw;
    BelowWrap(steps, k);
    var f := A64Frame.FrameInfo(Run(steps, Start()).value.maxCount, locals, calls);
    forall o: nat | Gives(steps, k, o) ensures HasA64(Named(o)) && A64No(Named(o)) in A64Frame.SavedRegs(f) {
      GivenBelowMax(steps, k, o);
      A64NamedApart(f, o, o);
      A64SavedExactly(f, o);
    }
  }

  /** So its caller finds every register that was ever given to a name as it left it. */
  lemma GivenRestored(steps: seq<Step>, k: nat, o: nat, locals: nat, calls: bool, s: A64Machine.State, u: A64Machine.State)
    requires OneOrTwo(steps) && Run(steps, Start()).Some? && Gives(steps, k, o)
    requires var f := A64Frame.FrameInfo(Run(steps, Start()).value.maxCount, locals, calls);
      && A64Frame.Supported(f) && A64Frame.FrameFits(f) && A64Frame.FrameBytes(f) <= s.sp
      && A64Machine.StraightCode(A64Frame.PrologueCode(f)) && u.sp == A64Machine.Run(A64Frame.PrologueCode(f), s).sp
      && A64Frame.AgreeInside(A64Machine.Run(A64Frame.PrologueCode(f), s).mem, u.mem,
           s.sp - A64Frame.FrameBytes(f) + A64Frame.Objs(f), s.sp)
    ensures var f := A64Frame.FrameInfo(Run(steps, Start()).value.maxCount, locals, calls);
      && A64Machine.StraightCode(A64Frame.EpilogueCode(f)) && General(Named(o))
      && A64Machine.Run(A64Frame.EpilogueCode(f), u).regs[A64No(Named(o))] == s.regs[A64No(Named(o))]
  {
    hide Run, Inv, OneOrTwo, Gives, A64Machine.Run, A64Frame.PrologueCode, A64Frame.EpilogueCode, A64Frame.AgreeInside,
      A64Frame.FrameBytes, A64Frame.Objs, A64Frame.SavedRegs, A64Machine.Straight, A64Frame.FrameFits;
    GivenBelowMax(steps, k, o);
    var f := A64Frame.FrameInfo(Run(steps, Start()).value.maxCount, locals, calls);
    A64Frame.EpilogueRestores(f, s, u);
    assert A64Frame.CALLEE_START <= A64No(Named(o)) < A64Frame.CALLEE_START + f.maxNregs;
  }

  /** The high-water mark was reached by a declaration, or it was there before. */
  lemma {:induction false} MaxReached(steps: seq<Step>, s: Regs) returns (k: nat)
    requires s.scopes != [] && Run(steps, s).Some? && Run(steps, s).value.maxCount != s.maxCount
    ensures k < |steps| && steps[k].Declare? && StateAt(steps, s, k).Some?
    ensures (StateAt(steps, s, k).value.count + steps[k].size) % 256 == Run(steps, s).value.maxCount
    decreases |steps|
  {
    var next := match steps[0]
      case Declare(name, size) => DeclareIn(s, name, size)
      case Enter => EnterBlock(s).value
      case Leave => LeaveBlock(s);
    var rest := steps[1..];
    if Run(rest, next).value.maxCount == next.maxCount {
      assert steps[..0] == [];
      k := 0;
    } else {
      var j := MaxReached(rest, next);
      assert steps[..j + 1][1..] == rest[..j];
      k := j + 1;
    }
  }

  /** All machine registers that a run ever gave a name are saved by the x86-64 frame. */
  ghost predicate AllSaved(steps: seq<Step>, f: X86Frame.FrameInfo)
    requires X86Frame.Supported(f)
  {
    forall k: nat, o: nat :: Gives(steps, k, o) && o < 7 ==> X86No(Named(o)) in X86Frame.SavedRegs(f)
  }

  /** The x86-64 frame is made for the count at the end of the function, not for the highest one:
      it saves every register that was given to a name if and only if the two are the same, so
      not when an inner block needed more. */
  lemma X86SavesExactly(steps: seq<Step>, locals: nat, calls: bool)
    requires OneOrTwo(steps) && Run(steps, Start()).Some? && Run(steps, Start()).value.maxCount <= 7 && locals < 0x4000_0000
    ensures var t := Run(steps, Start()).value;
      && t.count <= t.maxCount
      && (AllSaved(steps, X86Frame.FrameInfo(t.count, locals, calls)) <==> t.count == t.maxCount)
  {
    hide Run, Inv, OneOrTwo, Gives, X86Frame.SavedRegs, X86No, DeclareIn;
    var t := Run(steps, Start()).value;
    assert steps[..|steps|] == steps;
    BelowWrap(steps, |steps|);
    var f := X86Frame.FrameInfo(t.count, locals, calls);
    if t.count == t.maxCount {
      forall k: nat, o: nat | Gives(steps, k, o) && o < 7 ensures X86No(Named(o)) in X86Frame.SavedRegs(f) {
        GivenBelowMax(steps, k, o);
        X86SavedExactly(f, o);
      }
    } else {
      var k := MaxGiven(steps);
      X86SavedExactly(f, t.maxCount - 1);
    }
  }

  lemma MaxGiven(steps: seq<Step>) returns (k: nat)
    requires OneOrTwo(steps) && Run(steps, Start()).Some? && 0 < Run(steps, Start()).value.maxCount < 254
    ensures Gives(steps, k, Run(steps, Start()).value.maxCount - 1)
  {
    hide Run, Inv;
    k := MaxReached(steps, Start());
    BelowWrap(steps, k);
    assert steps[k].size == 1 || steps[k].size == 2;
  }

  /** An instance: a name of an inner block lives in RBX, which the frame then does not save, so
      the caller gets back whatever the body left there. */
  lemma NestedNameNotSaved(name: Key)
    ensures var steps := [Enter, Declare(name, 1), Leave];
      && Run(steps, Start()) == Some(Regs([map[]], [], 0, 1))
      && Gives(steps, 1, 0) && X86No(Named(0)) == 3
    ensures var f := X86Frame.FrameInfo(0, 0, false);
      X86Frame.Supported(f) && 3 !in X86Frame.SavedRegs(f) && X86Frame.PrologueCode(f) == X86Frame.EpilogueCode(f) == []
  {
    var steps := [Enter, Declare(name, 1), Leave];
    var s1 := EnterBlock(Start()).value;
    var s2 := DeclareIn(s1, name, 1);
    assert steps[1..] == [Declare(name, 1), Leave] && steps[1..][1..] == [Leave] && [Leave][1..] == [];
    assert Run([Leave], s2) == Some(LeaveBlock(s2));
    assert LeaveBlock(s2).scopes == [map[]];
    assert steps[..1] == [Enter] && [Enter][1..] == [];
    assert StateAt(steps, Start(), 1) == Some(s1);
  }

  lemma StartsWell(steps: seq<Step>, k: nat)
    requires OneOrTwo(steps) && k <= |steps|
    ensures Inv(Start()) && OneOrTwo(steps[..k])
  {
  }

  lemma {:induction false} RunPrefix(steps: seq<Step>, k: nat, s: Regs)
    requires s.scopes != [] && k <= |steps| && Run(steps, s).Some?
    ensures Run(steps[..k], s).Some?
    ensures Run(steps[..k], s).value.maxCount <= Run(steps, s).value.maxCount
    decreases |steps|
  {
    if k == 0 {
      MaxOnlyGrows(steps, s);
    } else {
      var rest := steps[1..];
      assert steps[..k][1..] == rest[..k - 1];
      match steps[0]
      case Declare(name, size) => RunPrefix(rest, k - 1, DeclareIn(s, name, size));
      case Enter => RunPrefix(rest, k - 1, EnterBlock(s).value);
      case Leave => RunPrefix(rest, k - 1, LeaveBlock(s));
    }
  }

  // ---- The wrap of the one-byte count ----

  /** One declaration keeps the invariant exactly when the count does not wrap. */
  lemma DeclareExact(s: Regs, name: Key, size: nat)
    requires Inv(s) && (size == 1 || size == 2)
    ensures Inv(DeclareIn(s, name, size)) <==> s.count + size <= 255
  {
    if s.count + size <= 255 {
      DeclareKeeps(s, name, size);
    } else {
      var (t, top) := (DeclareIn(s, name, size), |s.scopes| - 1);
      assert t.count == s.count + size - 256;
      assert name in t.scopes[top] && t.scopes[top][name] == Range(s.count, size);
      assert Base(t, top + 1) == t.count;
    }
  }

  /** The state before step k of a run. */
  function StateAt(steps: seq<Step>, s: Regs, k: nat): Option<Regs>
    requires s.scopes != [] && k <= |steps|
  {
    Run(steps[..k], s)
  }

  /** No declaration of the run pushes the count past a byte. */
  predicate NeverWraps(steps: seq<Step>, s: Regs)
    requires s.scopes != []
  {
    forall k :: 0 <= k < |steps| && steps[k].Declare? && StateAt(steps, s, k).Some? ==>
      StateAt(steps, s, k).value.count + steps[k].size <= 255
  }

  predicate InvThroughout(steps: seq<Step>, s: Regs)
    requires s.scopes != []
  {
    forall k :: 0 <= k <= |steps| && StateAt(steps, s, k).Some? ==> Inv(StateAt(steps, s, k).value)
  }

  lemma NextState(steps: seq<Step>, s: Regs, k: nat)
    requires s.scopes != [] && k < |steps| && StateAt(steps, s, k).Some?
    ensures StateAt(steps, s, k).value.scopes != []
    ensures var t := StateAt(steps, s, k).value;
      StateAt(steps, s, k + 1) == match steps[k]
        case Declare(name, size) => Some(DeclareIn(t, name, size))
        case Enter => EnterBlock(t)
        case Leave => Some(LeaveBlock(t))
  {
    assert steps[..k + 1] == steps[..k] + [steps[k]];
    RunThen(steps[..k], steps[k], s);
  }

  lemma {:induction false} RunThen(steps: seq<Step>, last: Step, s: Regs)
    requires s.scopes != [] && Run(steps, s).Some?
    ensures Run(steps, s).value.scopes != []
    ensures Run(steps + [last], s) == match last
      case Declare(name, size) => Some(DeclareIn(Run(steps, s).value, name, size))
      case Enter => EnterBlock(Run(steps, s).value)
      case Leave => Some(LeaveBlock(Run(steps, s).value))
    decreases |steps|
  {
    if steps == [] {
      assert steps + [last] == [last] && [last][1..] == [];
    } else {
      assert (steps + [last])[1..] == steps[1..] + [last];
      match steps[0]
      case Declare(name, size) => RunThen(steps[1..], last, DeclareIn(s, name, size));
      case Enter => RunThen(steps[1..], last, EnterBlock(s).value);
      case Leave => RunThen(steps[1..], last, LeaveBlock(s));
    }
  }

  lemma InvStep(steps: seq<Step>, s: Regs, k: nat)
    requires Inv(s) && OneOrTwo(steps) && k < |steps|
    requires StateAt(steps, s, k + 1).Some? && StateAt(steps, s, k).Some? && Inv(StateAt(steps, s, k).value)
    ensures Inv(StateAt(steps, s, k + 1).value)
      <==> (steps[k].Declare? ==> StateAt(steps, s, k).value.count + steps[k].size <= 255)
  {
    hide Inv;
    InvShape(s);
    var t := StateAt(steps, s, k).value;
    NextState(steps, s, k);
    match steps[k]
    case Declare(name, size) => DeclareExact(t, name, size);
    case Enter => EnterKeeps(t);
    case Leave => LeaveKeeps(t);
  }

  lemma {:induction false} InvUpTo(steps: seq<Step>, s: Regs, k: nat)
    requires Inv(s) && OneOrTwo(steps) && NeverWraps(steps, s) && k <= |steps|
    ensures StateAt(steps, s, k).Some? ==> Inv(StateAt(steps, s, k).value)
  {
    hide Inv;
    InvShape(s);
    if k == 0 {
      assert steps[..0] == [];
    } else if StateAt(steps, s, k).Some? {
      EarlierState(steps, s, k - 1);
      InvUpTo(steps, s, k - 1);
      InvStep(steps, s, k - 1);
    }
  }

  lemma EarlierState(steps: seq<Step>, s: Regs, k: nat)
    requires s.scopes != [] && k < |steps| && StateAt(steps, s, k + 1).Some?
    ensures StateAt(steps, s, k).Some?
  {
    assert steps[..k + 1][..k] == steps[..k];
    RunPrefix(steps[..k + 1], k, s);
  }

  /** A run keeps the invariant throughout exactly when no declaration of it wraps the count. */
  lemma RunExact(steps: seq<Step>, s: Regs)
    requires Inv(s) && OneOrTwo(steps) && s.scopes != []
    ensures InvThroughout(steps, s) <==> NeverWraps(steps, s)
  {
    hide Inv;
    if NeverWraps(steps, s) {
      forall k | 0 <= k <= |steps| && StateAt(steps, s, k).Some? ensures Inv(StateAt(steps, s, k).value) {
        InvUpTo(steps, s, k);
      }
    }
    if InvThroughout(steps, s) {
      forall k | 0 <= k < |steps| && steps[k].Declare? && StateAt(steps, s, k).Some?
        ensures StateAt(steps, s, k).value.count + steps[k].size <= 255
      {
        NextState(steps, s, k);
        assert StateAt(steps, s, k + 1).Some?;
        InvStep(steps, s, k);
      }
    }
  }

  /** n declarations of two registers under one name. */
  function Slices(n: nat): (steps: seq<Step>)
    ensures |steps| == n
  {
    if n == 0 then [] else Slices(n - 1) + [Declare("s", 2)]
  }

  lemma {:induction false} SlicesRun(n: nat, s: Regs)
    requires |s.scopes| == 1 && s.count + 2 * n <= 255 && "s" !in s.scopes[0]
    ensures Run(Slices(n), s).Some?
    ensures var t := Run(Slices(n), s).value;
      t.count == s.count + 2 * n && |t.scopes| == 1 && forall k :: k in s.scopes[0] ==> k in t.scopes[0] && t.scopes[0][k] == s.scopes[0][k]
  {
    if n > 0 {
      SlicesRun(n - 1, s);
      RunThen(Slices(n - 1), Declare("s", 2), s);
    }
  }

  /** The wrapping run: one slice, 126 more, and two names at the end. */
  function Wrapping(): seq<Step> { BeforeWrap() + [Declare("b", 2)] + [Declare("c", 1)] }

  function BeforeWrap(): seq<Step> { [Declare("a", 2)] + Slices(126) }

  lemma BeforeWrapRun()
    ensures Run(BeforeWrap(), Start()).Some?
    ensures var t := Run(BeforeWrap(), Start()).value;
      t.count == 254 && |t.scopes| == 1 && "a" in t.scopes[0] && t.scopes[0]["a"] == Range(0, 2)
  {
    hide Run, Slices;
    var first := DeclareIn(Start(), "a", 2);
    SlicesRun(126, first);
    DeclareFirst("a", 2, Slices(126), Start());
  }

  lemma DeclareFirst(name: Key, size: nat, rest: seq<Step>, s: Regs)
    requires s.scopes != []
    ensures Run([Declare(name, size)] + rest, s) == Run(rest, DeclareIn(s, name, size))
  {
    assert ([Declare(name, size)] + rest)[1..] == rest;
  }

  lemma WrappingRun()
    ensures Run(Wrapping(), Start()).Some?
    ensures var t := Run(Wrapping(), Start()).value;
      && t.scopes != [] && "a" in t.scopes[0] && "c" in t.scopes[0]
      && t.scopes[0]["a"] == Range(0, 2) && t.scopes[0]["c"] == Range(0, 1)
  {
    hide BeforeWrap, Run, Slices;
    BeforeWrapRun();
    RunThen(BeforeWrap(), Declare("b", 2), Start());
    RunThen(BeforeWrap() + [Declare("b", 2)], Declare("c", 1), Start());
  }

  /** A run from the start that wraps: two visible names end up with the same register. */
  lemma WrapOverlaps()
    ensures OneOrTwo(Wrapping()) && Run(Wrapping(), Start()).Some?
    ensures var t := Run(Wrapping(), Start()).value;
      && t.scopes != [] && "a" in t.scopes[0] && "c" in t.scopes[0] && !Apart(t.scopes[0]["a"], t.scopes[0]["c"])
    ensures !InvThroughout(Wrapping(), Start()) && !NeverWraps(Wrapping(), Start())
  {
    hide Inv, InvThroughout, Run, Slices;
    var (r, n) := (Wrapping(), |BeforeWrap()|);
    WrappingRun();
    BeforeWrapRun();
    SlicesSizes(126);
    assert r[..n] == BeforeWrap() && r[n] == Declare("b", 2);
    assert StateAt(r, Start(), n).value.count + r[n].size == 256;
    StartsWell(r, 0);
    RunExact(r, Start());
  }

  lemma {:induction false} SlicesSizes(n: nat)
    ensures forall k :: 0 <= k < n ==> Slices(n)[k] == Declare("s", 2)
  {
    if n > 0 {
      SlicesSizes(n - 1);
    }
  }

  // ---- The imperative form ----

  class Allocator {
    const names: Scopes<Range>
    var marks: seq<nat>
    var count: nat
    var maxCount: nat

    ghost predicate Valid()
      reads this, names, set i | 0 <= i < |names.data| :: names.data[i],
        set i | 0 <= i < |names.data| :: names.data[i].entries
    {
      names.Valid() && |marks| == names.cur
    }

    ghost function State(): Regs
      requires Valid()
      reads this, names, set i | 0 <= i < |names.data| :: names.data[i],
        set i | 0 <= i < |names.data| :: names.data[i].entries
    {
      Regs(names.Stack(), marks, count, maxCount)
    }

    constructor (names: Scopes<Range>)
      requires names.Valid() && names.Stack() == [map[]]
      ensures Valid() && State() == Start()
    {
      this.names := names;
      marks, count, maxCount := [], 0, 0;
    }

    method AddNreg(dtype: DType)
      modifies this`count, this`maxCount
      ensures count == (old(count) + if HasSlice(dtype) then 2 else 1) % 256
      ensures maxCount == if count > old(maxCount) then count else old(maxCount)
    {
      var n := RegCount(dtype);
      count := (count + n) % 256;
      if count > maxCount {
        maxCount := count;
      }
    }

    /** A one-line declaration: the name gets the next registers. */
    method DeclareVar(name: Key, dtype: DType) returns (ok: bool)
      requires Valid()
      modifies this, names.data[names.cur], names.data[names.cur].entries
      ensures Valid()
      ensures State() == if ok then DeclareIn(old(State()), name, if HasSlice(dtype) then 2 else 1) else old(State())
    {
      hide Scopes.Stack, Scopes.Fullness, Table.Valid;
      names.StackIs();
      var r := Range(count, if HasSlice(dtype) then 2 else 1);
      ok := names.OverwriteId(name, r);
      if ok {
        AddNreg(dtype);
      }
    }

    /** Start of a block: a scope and a mark. */
    method StartOfBlock() returns (ok: bool)
      requires Valid()
      modifies this, names, names.data[..], set i | 0 <= i < |names.data| :: names.data[i].entries
      ensures Valid()
      ensures ok == EnterBlock(old(State())).Some?
      ensures State() == if ok then EnterBlock(old(State())).value else old(State())
    {
      hide Scopes.Stack, Table.Valid;
      names.StackIs();
      ok := names.Push();
      if ok {
        marks := marks + [count];
      }
    }

    /** End of a block: both are dropped and the registers above the mark are free again. */
    method EndOfBlock()
      requires Valid()
      modifies this, names
      ensures Valid() && State() == LeaveBlock(old(State()))
    {
      hide Scopes.Stack;
      names.StackIs();
      names.Pop();
      if marks != [] {
        count := marks[|marks| - 1];
        marks := marks[..|marks| - 1];
      }
    }
  }
}
