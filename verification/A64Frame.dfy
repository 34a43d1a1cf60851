// AArch64 function entry and exit code: save slots, locals, the frame pointer, and what a
// well-behaved body gets back.
module A64Frame {
  import opened Words
  import opened Memory
  import opened A64Instr
  import opened A64Machine
  import opened A64Stores
  import X86Frame

  const FP: RegNo := 29
  const LR: RegNo := 30
  const SP: RegNo := 31
  const CALLEE_START := 19

  /** What the parser knows about a finished function body: the most named registers it ever
      held at once, the bytes of its locals, and whether it calls. */
  datatype FrameInfo = FrameInfo(maxNregs: nat, locals: nat, calls: bool)

  predicate Frameless(f: FrameInfo) { !f.calls && f.maxNregs == 0 && f.locals == 0 }

  /** Fewer than nine callee-saved registers; otherwise an error is reported. */
  predicate Supported(f: FrameInfo) { f.maxNregs + CALLEE_START < 28 }

  predicate NeedsFP(f: FrameInfo) { f.calls || f.locals > 0 }

  /** x(19+n-1) down to x19. */
  function CalleeDown(n: nat): (rs: seq<RegNo>)
    requires n <= 8
    ensures |rs| == n && forall i :: 0 <= i < n ==> rs[i] == CALLEE_START + n - 1 - i
  {
    if n == 0 then [] else [CALLEE_START + n - 1] + CalleeDown(n - 1)
  }

  /** Saved registers, in slot order. */
  function SavedRegs(f: FrameInfo): seq<RegNo>
    requires Supported(f)
  {
    (if NeedsFP(f) then [FP, LR] else []) + CalleeDown(f.maxNregs)
  }

  /** Aligned bytes of the locals; the save slots start above them. */
  function Objs(f: FrameInfo): nat { X86Frame.Align16(f.locals) }

  function FrameBytes(f: FrameInfo): nat
    requires Supported(f)
  {
    X86Frame.Align16(8 * |SavedRegs(f)|) + Objs(f)
  }

  function SpImm(sub: bool, rd: RegNo, bytes: nat): Instr {
    AddSubImm(true, sub, false, false, bytes % 4096, SP, rd)
  }

  /** The last register of an odd list is saved alone. */
  function Single(load: bool, rt: RegNo, offset: nat): Instr {
    LdStScaled(3, Flag(load), offset / 8 % 4096, SP, rt)
  }

  function SaveCode(load: bool, rs: seq<RegNo>, offset: nat): seq<Instr> {
    if |rs| >= 2 then [PairInstr(load, Offset, rs[0], rs[1], SP, offset)] + SaveCode(load, rs[2..], offset + 16)
    else if |rs| == 1 then [Single(load, rs[0], offset)]
    else []
  }

  function SetFP(f: FrameInfo): seq<Instr> { if NeedsFP(f) then [SpImm(false, FP, Objs(f))] else [] }

  function PrologueCode(f: FrameInfo): seq<Instr>
    requires Supported(f)
  {
    var rs, size: int := SavedRegs(f), FrameBytes(f);
    if Frameless(f) then []
    else if Objs(f) > 0 then [SpImm(true, SP, size)] + SaveCode(false, rs, Objs(f)) + SetFP(f)
    else if |rs| >= 2 then [PairInstr(false, PreIndex, rs[0], rs[1], SP, -size)] + SaveCode(false, rs[2..], 16) + SetFP(f)
    else [LdStOff(3, 0, PreIndex, SignExt(-size % 512, 512), SP, rs[0])]
  }

  function EpilogueCode(f: FrameInfo): seq<Instr>
    requires Supported(f)
  {
    var rs, size: int := SavedRegs(f), FrameBytes(f);
    if Frameless(f) then []
    else if Objs(f) > 0 then SaveCode(true, rs, Objs(f)) + [SpImm(false, SP, size)]
    else if |rs| >= 2 then SaveCode(true, rs[2..], 16) + [PairInstr(true, PostIndex, rs[0], rs[1], SP, size)]
    else [LdStOff(3, 1, PostIndex, SignExt(size % 512, 512), SP, rs[0])]
  }

  /** Every pair offset has an encoding; the other fields then fit as well. */
  predicate FrameFits(f: FrameInfo)
    requires Supported(f)
  {
    Objs(f) == 0 || Objs(f) + 16 * (|SavedRegs(f)| / 2 - 1) <= 504
  }

  // ---- Slots ----

  /** No register twice, and only general ones. */
  predicate Saveable(rs: seq<RegNo>) {
    && (forall i :: 0 <= i < |rs| ==> rs[i] != 31)
    && (forall i, j :: 0 <= i < j < |rs| ==> rs[i] != rs[j])
  }

  /** Offsets from `offset` on can be encoded. */
  predicate SlotsFit(n: nat, offset: nat) { offset % 16 == 0 && (n >= 2 ==> offset + 16 * (n / 2 - 1) <= 504) && offset <= 4096 }

  ghost predicate Holds(m: Mem, base: int, rs: seq<RegNo>, regs: Regs) {
    forall i :: 0 <= i < |rs| ==> rs[i] != 31 && Load(m, base + 8 * i, 8) == LE(regs[rs[i]], 8)
  }

  /** The memories agree outside [a, b). */
  ghost predicate AgreeOutside(m: Mem, m': Mem, a: int, b: int) {
    forall x :: 0 <= x < P64 && (x < a || b <= x) ==> m'(x) == m(x)
  }

  ghost predicate AgreeInside(m: Mem, m': Mem, a: int, b: int) {
    forall x :: a <= x < b ==> m'(x) == m(x)
  }

  lemma LoadAgrees(m: Mem, m': Mem, a: int, b: int, at: int)
    requires 0 <= a <= at && at + 8 <= b <= P64 && AgreeInside(m, m', a, b)
    ensures Load(m', at, 8) == Load(m, at, 8)
  {
    forall k | 0 <= k < 8 ensures m'(At(at, k)) == m(At(at, k)) {
      SmallMod(at + k, P64);
    }
  }

  // ---- Saving ----

  lemma PairStored(rt: RegNo, rt2: RegNo, offset: nat, s: State)
    requires rt != 31 && rt2 != 31 && PairEncodable(offset) && s.sp + offset + 16 <= P64
    ensures var i := PairInstr(false, Offset, rt, rt2, SP, offset); var a := s.sp + offset;
      && Straight(i) && Exec(i, s).mem == Store(Store(s.mem, a, LE(s.regs[rt], 8)), a + 8, LE(s.regs[rt2], 8))
      && Exec(i, s) == s.(mem := Exec(i, s).mem)
  {
    PairOffset(offset);
    SmallMod(s.regs[rt], P64);
    SmallMod(s.regs[rt2], P64);
    SmallMod(s.sp, P64);
  }

  lemma TwoSlots(m: Mem, a: int, bs: seq<Byte>, cs: seq<Byte>)
    requires 0 <= a && a + 16 <= P64 && |bs| == 8 && |cs| == 8
    ensures var m' := Store(Store(m, a, bs), a + 8, cs);
      Load(m', a, 8) == bs && Load(m', a + 8, 8) == cs && AgreeOutside(m, m', a, a + 16)
  {
    hide Store, Load;
    var m1 := Store(m, a, bs);
    LoadStored(m, a, bs);
    LoadStored(m1, a + 8, cs);
    LoadElsewhere(m1, a + 8, cs, a, 8);
    forall x | 0 <= x < P64 && (x < a || a + 16 <= x) ensures Store(m1, a + 8, cs)(x) == m(x) {
      StoreElsewhere(m1, a + 8, cs, x);
      StoreElsewhere(m, a, bs, x);
    }
  }

  lemma SingleExec(rt: RegNo, offset: nat, s: State)
    requires rt != 31 && offset % 8 == 0 && offset <= 4096
    ensures var i := Single(false, rt, offset);
      Straight(i) && Exec(i, s) == s.(mem := Store(s.mem, s.sp + offset, LE(s.regs[rt], 8)))
  {
    hide Load, LE, Store;
    SmallMod(s.regs[rt], P64);
    SmallMod(s.sp, P64);
    assert offset / 8 * 8 == offset;
  }

  lemma SingleStored(rt: RegNo, offset: nat, s: State)
    requires rt != 31 && offset % 8 == 0 && offset <= 4096 && s.sp + offset + 8 <= P64
    ensures var i := Single(false, rt, offset); var a := s.sp + offset;
      && Straight(i) && Exec(i, s) == s.(mem := Store(s.mem, a, LE(s.regs[rt], 8)))
      && Load(Exec(i, s).mem, a, 8) == LE(s.regs[rt], 8)
      && AgreeOutside(s.mem, Exec(i, s).mem, a, a + 8)
  {
    hide Load, LE, Store, Low;
    var a := s.sp + offset;
    SingleExec(rt, offset, s);
    LoadStored(s.mem, a, LE(s.regs[rt], 8));
    forall x | 0 <= x < P64 && (x < a || a + 8 <= x) ensures Store(s.mem, a, LE(s.regs[rt], 8))(x) == s.mem(x) {
      StoreElsewhere(s.mem, a, LE(s.regs[rt], 8), x);
    }
  }

  /** Two slots more in front of the others. */
  lemma HoldsMore(m: Mem, m1: Mem, m': Mem, base: int, rs: seq<RegNo>, regs: Regs)
    requires |rs| >= 2 && 0 <= base && base + 8 * |rs| <= P64
    requires Saveable(rs) && Load(m1, base, 8) == LE(regs[rs[0]], 8) && Load(m1, base + 8, 8) == LE(regs[rs[1]], 8)
    requires AgreeOutside(m, m1, base, base + 16)
    requires Holds(m', base + 16, rs[2..], regs) && AgreeOutside(m1, m', base + 16, base + 8 * |rs|)
    ensures Holds(m', base, rs, regs) && AgreeOutside(m, m', base, base + 8 * |rs|)
  {
    hide Load, LE;
    LoadAgrees(m1, m', base, base + 16, base);
    LoadAgrees(m1, m', base, base + 16, base + 8);
    forall i | 0 <= i < |rs| ensures rs[i] != 31 && Load(m', base + 8 * i, 8) == LE(regs[rs[i]], 8) {
      if i >= 2 {
        assert rs[i] == rs[2..][i - 2] && base + 8 * i == base + 16 + 8 * (i - 2);
      }
    }
  }

  lemma {:induction false} SaveAll(rs: seq<RegNo>, offset: nat, s: State)
    requires Saveable(rs) && SlotsFit(|rs|, offset) && s.sp + offset + 8 * |rs| <= P64
    ensures StraightCode(SaveCode(false, rs, offset))
    ensures var t := Run(SaveCode(false, rs, offset), s);
      && t == s.(mem := t.mem)
      && Holds(t.mem, s.sp + offset, rs, s.regs)
      && AgreeOutside(s.mem, t.mem, s.sp + offset, s.sp + offset + 8 * |rs|)
    decreases |rs|
  {
    hide Exec, Straight, PairInstr, Single, AgreeOutside, Holds, Load, Store, LE;
    var base := s.sp + offset;
    if |rs| >= 2 {
      var i := PairInstr(false, Offset, rs[0], rs[1], SP, offset);
      PairStored(rs[0], rs[1], offset, s);
      TwoSlots(s.mem, base, LE(s.regs[rs[0]], 8), LE(s.regs[rs[1]], 8));
      var s1 := Exec(i, s);
      SaveAll(rs[2..], offset + 16, s1);
      RunCons(i, SaveCode(false, rs[2..], offset + 16), s);
      HoldsMore(s.mem, s1.mem, Run(SaveCode(false, rs[2..], offset + 16), s1).mem, base, rs, s.regs);
    } else if |rs| == 1 {
      SingleStored(rs[0], offset, s);
      Run1(Single(false, rs[0], offset), s);
      HoldsOne(Exec(Single(false, rs[0], offset), s).mem, base, rs, s.regs);
    } else {
      HoldsNone(s.mem, base, rs, s.regs);
    }
  }

  lemma HoldsOne(m: Mem, base: int, rs: seq<RegNo>, regs: Regs)
    requires Saveable(rs) && |rs| == 1 && Load(m, base, 8) == LE(regs[rs[0]], 8)
    ensures Holds(m, base, rs, regs)
  {
  }

  lemma HoldsNone(m: Mem, base: int, rs: seq<RegNo>, regs: Regs)
    requires rs == []
    ensures Holds(m, base, rs, regs) && AgreeOutside(m, m, base, base)
  {
  }

  // ---- Restoring ----

  /** The listed registers have their old values and the others are as in `from`. */
  ghost predicate Restored(rs: seq<RegNo>, old_: Regs, from: Regs, now: Regs) {
    && (forall i :: 0 <= i < |rs| ==> rs[i] != 31 && now[rs[i]] == old_[rs[i]])
    && (forall r: RegNo :: r != 31 && r !in rs ==> now[r] == from[r])
  }

  lemma LoadedBack(m: Mem, a: int, v: U64)
    requires Load(m, a, 8) == LE(v, 8)
    ensures Low(8, FromLE(Load(m, a, 8))) == v
  {
    FromLERoundTrip(v, 8);
    Pow256Sizes();
    SmallMod(v, P64);
  }

  lemma PairLoaded(rt: RegNo, rt2: RegNo, offset: nat, v: U64, w: U64, u: State)
    requires rt != 31 && rt2 != 31 && rt != rt2 && PairEncodable(offset) && u.sp + offset + 16 <= P64
    requires Load(u.mem, u.sp + offset, 8) == LE(v, 8) && Load(u.mem, u.sp + offset + 8, 8) == LE(w, 8)
    ensures var i := PairInstr(true, Offset, rt, rt2, SP, offset);
      Straight(i) && Exec(i, u) == u.(regs := u.regs[rt := v][rt2 := w])
  {
    hide Load, LE, FromLE, Store;
    PairOffset(offset);
    SmallMod(u.sp, P64);
    LoadedBack(u.mem, u.sp + offset, v);
    LoadedBack(u.mem, u.sp + offset + 8, w);
  }

  lemma SingleLoaded(rt: RegNo, offset: nat, v: U64, u: State)
    requires rt != 31 && offset % 8 == 0 && offset <= 4096 && Load(u.mem, u.sp + offset, 8) == LE(v, 8)
    ensures var i := Single(true, rt, offset);
      Straight(i) && Exec(i, u) == u.(regs := u.regs[rt := v])
  {
    hide Load, LE, FromLE, Store;
    SmallMod(u.sp, P64);
    LoadedBack(u.mem, u.sp + offset, v);
  }

  lemma {:induction false} RestoreAll(rs: seq<RegNo>, offset: nat, old_: Regs, u: State)
    requires Saveable(rs) && SlotsFit(|rs|, offset) && u.sp + offset + 8 * |rs| <= P64
    requires Holds(u.mem, u.sp + offset, rs, old_)
    ensures StraightCode(SaveCode(true, rs, offset))
    ensures var v := Run(SaveCode(true, rs, offset), u);
      v == u.(regs := v.regs) && Restored(rs, old_, u.regs, v.regs)
    decreases |rs|
  {
    hide Exec, Straight, PairInstr, Single, Load, LE;
    if |rs| >= 2 {
      var i := PairInstr(true, Offset, rs[0], rs[1], SP, offset);
      var base := u.sp + offset;
      assert Load(u.mem, base + 8 * 0, 8) == LE(old_[rs[0]], 8) && Load(u.mem, base + 8 * 1, 8) == LE(old_[rs[1]], 8);
      PairLoaded(rs[0], rs[1], offset, old_[rs[0]], old_[rs[1]], u);
      var u1 := Exec(i, u);
      HoldsRest(u.mem, base, rs, old_);
      RestoreAll(rs[2..], offset + 16, old_, u1);
      RunCons(i, SaveCode(true, rs[2..], offset + 16), u);
      RestoredMore(rs, old_, u.regs, Run(SaveCode(true, rs[2..], offset + 16), u1).regs);
    } else if |rs| == 1 {
      assert Load(u.mem, u.sp + offset + 8 * 0, 8) == LE(old_[rs[0]], 8);
      SingleLoaded(rs[0], offset, old_[rs[0]], u);
      Run1(Single(true, rs[0], offset), u);
    }
  }

  lemma HoldsRest(m: Mem, base: int, rs: seq<RegNo>, regs: Regs)
    requires |rs| >= 2 && Holds(m, base, rs, regs)
    ensures Holds(m, base + 16, rs[2..], regs)
  {
    forall i | 0 <= i < |rs[2..]| ensures rs[2..][i] != 31 && Load(m, base + 16 + 8 * i, 8) == LE(regs[rs[2..][i]], 8) {
      assert base + 16 + 8 * i == base + 8 * (i + 2) && rs[2..][i] == rs[i + 2];
    }
  }

  lemma RestoredMore(rs: seq<RegNo>, old_: Regs, from: Regs, now: Regs)
    requires Saveable(rs) && |rs| >= 2
    requires Restored(rs[2..], old_, from[rs[0] := old_[rs[0]]][rs[1] := old_[rs[1]]], now)
    ensures Restored(rs, old_, from, now)
  {
    assert rs == [rs[0], rs[1]] + rs[2..];
    assert forall r :: r in rs <==> r == rs[0] || r == rs[1] || r in rs[2..];
    assert forall i :: 2 <= i < |rs| ==> rs[i] == rs[2..][i - 2];
  }

  // ---- The stack pointer ----

  lemma SpMoved(sub: bool, rd: RegNo, n: nat, s: State)
    requires n < 4096 && (if sub then n <= s.sp else s.sp + n < P64)
    ensures var i := SpImm(sub, rd, n); var r := if sub then s.sp - n else s.sp + n;
      Straight(i) && Exec(i, s) == if rd == 31 then s.(sp := r) else s.(regs := s.regs[rd := r])
  {
    SmallMod(s.sp, P64);
    SmallMod(if sub then s.sp - n else s.sp + n, P64);
  }

  /** A pre-indexed store is a move of the stack pointer and a store at its new value. */
  lemma PreIndexed(rt: RegNo, rt2: RegNo, n: int, s: State)
    requires 0 <= n && rt != 31 && rt2 != 31 && n % 8 == 0 && n <= 512 && n <= s.sp
    ensures var i := PairInstr(false, PreIndex, rt, rt2, SP, -n); var s0 := s.(sp := s.sp - n);
      && Straight(i) && Straight(PairInstr(false, Offset, rt, rt2, SP, 0))
      && Exec(i, s) == Exec(PairInstr(false, Offset, rt, rt2, SP, 0), s0)
  {
    PairOffset(-n);
    PairOffset(0);
    SmallMod(s.sp, P64);
    SmallMod(s.sp - n, P64);
  }

  lemma PostIndexed(rt: RegNo, rt2: RegNo, n: nat, s: State)
    requires rt != 31 && rt2 != 31 && rt != rt2 && n % 8 == 0 && n <= 504 && s.sp + n < P64
    ensures var i := PairInstr(true, PostIndex, rt, rt2, SP, n); var j := PairInstr(true, Offset, rt, rt2, SP, 0);
      && Straight(i) && Straight(j)
      && Exec(i, s) == Exec(j, s).(sp := s.sp + n)
  {
    PairOffset(n);
    PairOffset(0);
    SmallMod(s.sp, P64);
    SmallMod(s.sp + n, P64);
  }

  // ---- The whole frame ----

  lemma SavedSaveable(f: FrameInfo)
    requires Supported(f)
    ensures Saveable(SavedRegs(f)) && |SavedRegs(f)| == f.maxNregs + (if NeedsFP(f) then 2 else 0)
    ensures 8 * |SavedRegs(f)| + Objs(f) <= FrameBytes(f) && FrameBytes(f) % 16 == 0
    ensures FrameFits(f) ==> SlotsFit(|SavedRegs(f)|, Objs(f)) && FrameBytes(f) < 4096
    ensures Objs(f) > 0 <==> f.locals > 0
  {
  }

  /** The stack pointer is down and the registers are in their slots. */
  ghost predicate Entered(f: FrameInfo, s: State, t: State)
    requires Supported(f) && FrameBytes(f) <= s.sp
  {
    && t.sp == s.sp - FrameBytes(f)
    && t.regs == (if NeedsFP(f) then s.regs[FP := t.sp + Objs(f)] else s.regs)
    && Holds(t.mem, t.sp + Objs(f), SavedRegs(f), s.regs)
    && AgreeOutside(s.mem, t.mem, t.sp + Objs(f), t.sp + Objs(f) + 8 * |SavedRegs(f)|)
  }

  lemma SetFPRun(f: FrameInfo, s: State)
    requires Objs(f) < 4096 && s.sp + Objs(f) < P64
    ensures StraightCode(SetFP(f))
    ensures Run(SetFP(f), s) == if NeedsFP(f) then s.(regs := s.regs[FP := s.sp + Objs(f)]) else s
  {
    hide Exec, Straight;
    SpMoved(false, FP, Objs(f), s);
    if NeedsFP(f) {
      Run1(SpImm(false, FP, Objs(f)), s);
    }
  }

  /** With locals: make room first, then save above them. */
  lemma EnterWithLocals(f: FrameInfo, s: State)
    requires Supported(f) && FrameFits(f) && FrameBytes(f) <= s.sp && Objs(f) > 0
    ensures StraightCode(PrologueCode(f)) && Entered(f, s, Run(PrologueCode(f), s))
  {
    hide Exec, Straight, SetFP, SaveCode, Holds, AgreeOutside, SpImm, SavedRegs, FrameBytes, Objs;
    var (rs, size) := (SavedRegs(f), FrameBytes(f));
    SavedSaveable(f);
    SpMoved(true, SP, size, s);
    var s1 := s.(sp := s.sp - size);
    SaveAll(rs, Objs(f), s1);
    var s2 := Run(SaveCode(false, rs, Objs(f)), s1);
    SetFPRun(f, s2);
    RunAppend(SaveCode(false, rs, Objs(f)), SetFP(f), s1);
    RunCons(SpImm(true, SP, size), SaveCode(false, rs, Objs(f)) + SetFP(f), s);
    assert PrologueCode(f) == [SpImm(true, SP, size)] + (SaveCode(false, rs, Objs(f)) + SetFP(f));
  }

  /** Without locals: the first pair moves the stack pointer. */
  lemma EnterWithPairs(f: FrameInfo, s: State)
    requires Supported(f) && FrameBytes(f) <= s.sp && Objs(f) == 0 && |SavedRegs(f)| >= 2
    ensures StraightCode(PrologueCode(f)) && Entered(f, s, Run(PrologueCode(f), s))
  {
    hide Exec, Straight, SetFP, Holds, AgreeOutside, PairInstr, SavedRegs, FrameBytes, Objs, Run;
    var rs, size: int := SavedRegs(f), FrameBytes(f);
    SavedSaveable(f);
    SmallFrame(f);
    var s1 := s.(sp := s.sp - size);
    var (i, j) := (PairInstr(false, PreIndex, rs[0], rs[1], SP, -size), PairInstr(false, Offset, rs[0], rs[1], SP, 0));
    PreIndexed(rs[0], rs[1], size, s);
    SaveAll(rs, 0, s1);
    var rest := SaveCode(false, rs[2..], 16);
    StraightTail(j, rest, SaveCode(false, rs, 0));
    RunCons(j, rest, s1);
    var s2 := Run(SaveCode(false, rs, 0), s1);
    SetFPRun(f, s2);
    ThreeParts(i, rest, SetFP(f), s);
    assert PrologueCode(f) == [i] + rest + SetFP(f);
  }

  lemma ThreeParts(i: Instr, rest: seq<Instr>, tail: seq<Instr>, s: State)
    requires Straight(i) && StraightCode(rest) && StraightCode(tail)
    ensures StraightCode([i] + rest + tail) && Run([i] + rest + tail, s) == Run(tail, Run(rest, Exec(i, s)))
  {
    hide Straight, Exec, Run;
    RunCons(i, rest, s);
    RunAppend([i] + rest, tail, s);
  }

  lemma StraightTail(j: Instr, rest: seq<Instr>, code: seq<Instr>)
    requires code == [j] + rest && StraightCode(code)
    ensures Straight(j) && StraightCode(rest)
  {
    assert code[0] == j && forall k :: 0 <= k < |rest| ==> rest[k] == code[k + 1];
  }

  lemma SmallFrame(f: FrameInfo)
    requires Supported(f) && Objs(f) == 0
    ensures FrameBytes(f) <= 80 && FrameFits(f)
  {
  }

  lemma PreIndexedSingle(rt: RegNo, s: State)
    requires rt != 31 && 16 <= s.sp
    ensures var i := LdStOff(3, 0, PreIndex, -16, SP, rt);
      && Straight(i) && Straight(Single(false, rt, 0))
      && Exec(i, s) == Exec(Single(false, rt, 0), s.(sp := s.sp - 16))
  {
    hide Load, LE, Store;
    SmallMod(s.sp, P64);
    SmallMod(s.sp - 16, P64);
    SmallMod(s.regs[rt], P64);
  }

  lemma EnterWithOne(f: FrameInfo, s: State)
    requires Supported(f) && FrameBytes(f) <= s.sp && Objs(f) == 0 && |SavedRegs(f)| == 1
    ensures StraightCode(PrologueCode(f)) && Entered(f, s, Run(PrologueCode(f), s))
  {
    hide Holds, AgreeOutside, Load, LE, Store, Exec, Straight;
    SavedSaveable(f);
    var rs := SavedRegs(f);
    var s1 := s.(sp := s.sp - 16);
    PreIndexedSingle(rs[0], s);
    SingleStored(rs[0], 0, s1);
    var i := LdStOff(3, 0, PreIndex, -16, SP, rs[0]);
    assert PrologueCode(f) == [i];
    Run1(i, s);
    var t := Exec(i, s);
    HoldsOne(t.mem, t.sp, rs, s.regs);
  }

  lemma EnterFrameless(f: FrameInfo, s: State)
    requires Supported(f) && Frameless(f)
    ensures FrameBytes(f) == 0 && Entered(f, s, s)
  {
  }

  /** The prologue lowers the stack pointer by a multiple of 16, puts every saved register in
      its own slot right above the locals, and points x29 between the two; everything at or
      above the old stack pointer is untouched. */
  lemma PrologueMeaning(f: FrameInfo, s: State)
    requires Supported(f) && FrameFits(f) && FrameBytes(f) <= s.sp
    ensures StraightCode(PrologueCode(f)) && Entered(f, s, Run(PrologueCode(f), s))
    ensures var t := Run(PrologueCode(f), s);
      && (s.sp % 16 == 0 ==> t.sp % 16 == 0)
      && t.sp + f.locals <= t.sp + Objs(f)
      && t.sp + Objs(f) + 8 * |SavedRegs(f)| <= s.sp
      && (forall x :: s.sp <= x < P64 ==> t.mem(x) == s.mem(x))
  {
    hide PrologueCode, Exec, Straight, Holds, SavedRegs, FrameBytes;
    SavedSaveable(f);
    SavedNone(f);
    if Frameless(f) {
      EnterFrameless(f, s);
      FramelessCode(f);
    } else if Objs(f) > 0 {
      EnterWithLocals(f, s);
    } else if |SavedRegs(f)| >= 2 {
      EnterWithPairs(f, s);
    } else {
      EnterWithOne(f, s);
    }
  }

  lemma FramelessCode(f: FrameInfo)
    requires Supported(f) && Frameless(f)
    ensures PrologueCode(f) == [] && EpilogueCode(f) == []
  {
  }

  lemma SavedNone(f: FrameInfo)
    requires Supported(f)
    ensures SavedRegs(f) == [] <==> Frameless(f)
  {
  }

  // ---- Leaving ----

  lemma SingleLoadedPost(rt: RegNo, v: U64, u: State)
    requires rt != 31 && u.sp + 16 < P64 && Load(u.mem, u.sp, 8) == LE(v, 8)
    ensures var i := LdStOff(3, 1, PostIndex, 16, SP, rt);
      Straight(i) && Exec(i, u) == u.(regs := u.regs[rt := v], sp := u.sp + 16)
  {
    hide Load, LE, FromLE, Store;
    SmallMod(u.sp, P64);
    SmallMod(u.sp + 16, P64);
    LoadedBack(u.mem, u.sp, v);
  }

  lemma LeaveWithLocals(f: FrameInfo, old_: Regs, u: State)
    requires Supported(f) && FrameFits(f) && Objs(f) > 0 && u.sp + FrameBytes(f) < P64
    requires Holds(u.mem, u.sp + Objs(f), SavedRegs(f), old_)
    ensures StraightCode(EpilogueCode(f))
    ensures var v := Run(EpilogueCode(f), u);
      v == u.(regs := v.regs, sp := u.sp + FrameBytes(f)) && Restored(SavedRegs(f), old_, u.regs, v.regs)
  {
    hide Exec, Straight, SaveCode, Holds, SpImm, SavedRegs, FrameBytes, Objs, Restored;
    var (rs, size) := (SavedRegs(f), FrameBytes(f));
    SavedSaveable(f);
    RestoreAll(rs, Objs(f), old_, u);
    var u1 := Run(SaveCode(true, rs, Objs(f)), u);
    SpMoved(false, SP, size, u1);
    Run1(SpImm(false, SP, size), u1);
    RunAppend(SaveCode(true, rs, Objs(f)), [SpImm(false, SP, size)], u);
  }

  lemma LeaveWithPairs(f: FrameInfo, old_: Regs, u: State)
    requires Supported(f) && Objs(f) == 0 && |SavedRegs(f)| >= 2 && u.sp + FrameBytes(f) < P64
    requires Holds(u.mem, u.sp, SavedRegs(f), old_)
    ensures StraightCode(EpilogueCode(f))
    ensures var v := Run(EpilogueCode(f), u);
      v == u.(regs := v.regs, sp := u.sp + FrameBytes(f)) && Restored(SavedRegs(f), old_, u.regs, v.regs)
  {
    hide Exec, Straight, PairInstr, Load, LE, Store, SavedRegs, FrameBytes, Objs;
    var (rs, size) := (SavedRegs(f), FrameBytes(f));
    SavedSaveable(f);
    SmallFrame(f);
    assert Load(u.mem, u.sp + 8 * 0, 8) == LE(old_[rs[0]], 8) && Load(u.mem, u.sp + 8 * 1, 8) == LE(old_[rs[1]], 8);
    HoldsRest(u.mem, u.sp, rs, old_);
    RestoreAll(rs[2..], 16, old_, u);
    var u1 := Run(SaveCode(true, rs[2..], 16), u);
    var i := PairInstr(true, PostIndex, rs[0], rs[1], SP, size);
    PostIndexed(rs[0], rs[1], size, u1);
    PairLoaded(rs[0], rs[1], 0, old_[rs[0]], old_[rs[1]], u1);
    Run1(i, u1);
    RunAppend(SaveCode(true, rs[2..], 16), [i], u);
    RestoredLast(rs, old_, u.regs, u1.regs, Exec(i, u1).regs);
    FrameNonempty(f);
  }

  lemma FrameNonempty(f: FrameInfo)
    requires Supported(f) && |SavedRegs(f)| >= 2
    ensures !Frameless(f)
  {
  }

  /** The first pair may also be restored last. */
  lemma RestoredLast(rs: seq<RegNo>, old_: Regs, from: Regs, mid: Regs, now: Regs)
    requires Saveable(rs) && |rs| >= 2 && Restored(rs[2..], old_, from, mid)
    requires now == mid[rs[0] := old_[rs[0]]][rs[1] := old_[rs[1]]]
    ensures Restored(rs, old_, from, now)
  {
    assert rs == [rs[0], rs[1]] + rs[2..];
    assert forall r :: r in rs <==> r == rs[0] || r == rs[1] || r in rs[2..];
    assert forall i :: 2 <= i < |rs| ==> rs[i] == rs[2..][i - 2];
  }

  lemma LeaveWithOne(f: FrameInfo, old_: Regs, u: State)
    requires Supported(f) && Objs(f) == 0 && |SavedRegs(f)| == 1 && u.sp + FrameBytes(f) < P64
    requires Holds(u.mem, u.sp, SavedRegs(f), old_)
    ensures StraightCode(EpilogueCode(f))
    ensures var v := Run(EpilogueCode(f), u);
      v == u.(regs := v.regs, sp := u.sp + FrameBytes(f)) && Restored(SavedRegs(f), old_, u.regs, v.regs)
  {
    hide Load, LE, Store, Exec, Straight;
    var rs := SavedRegs(f);
    assert Load(u.mem, u.sp + 8 * 0, 8) == LE(old_[rs[0]], 8);
    SingleLoadedPost(rs[0], old_[rs[0]], u);
    var i := LdStOff(3, 1, PostIndex, 16, SP, rs[0]);
    assert EpilogueCode(f) == [i];
    Run1(i, u);
  }

  lemma LeaveFrame(f: FrameInfo, old_: Regs, u: State)
    requires Supported(f) && FrameFits(f) && u.sp + FrameBytes(f) < P64
    requires Holds(u.mem, u.sp + Objs(f), SavedRegs(f), old_)
    ensures StraightCode(EpilogueCode(f))
    ensures var v := Run(EpilogueCode(f), u);
      v == u.(regs := v.regs, sp := u.sp + FrameBytes(f)) && Restored(SavedRegs(f), old_, u.regs, v.regs)
  {
    hide EpilogueCode, Exec, Straight, Holds, SavedRegs, FrameBytes;
    SavedNone(f);
    if Frameless(f) {
      EnterFrameless(f, u);
      FramelessCode(f);
    } else if Objs(f) > 0 {
      LeaveWithLocals(f, old_, u);
    } else if |SavedRegs(f)| >= 2 {
      LeaveWithPairs(f, old_, u);
    } else {
      LeaveWithOne(f, old_, u);
    }
  }

  /** A body that keeps the stack pointer and the save slots (and may do anything else, in
      particular write its locals) gets everything back: SP, x29 and x30 when they were saved,
      and every callee-saved register it was given. */
  lemma EpilogueRestores(f: FrameInfo, s: State, u: State)
    requires Supported(f) && FrameFits(f) && FrameBytes(f) <= s.sp
    requires StraightCode(PrologueCode(f))
    requires u.sp == Run(PrologueCode(f), s).sp
    requires AgreeInside(Run(PrologueCode(f), s).mem, u.mem, s.sp - FrameBytes(f) + Objs(f), s.sp)
    ensures StraightCode(EpilogueCode(f))
    ensures var v := Run(EpilogueCode(f), u);
      && v.sp == s.sp && v.mem == u.mem
      && (forall r: RegNo :: CALLEE_START <= r < CALLEE_START + f.maxNregs ==> v.regs[r] == s.regs[r])
      && (NeedsFP(f) ==> v.regs[FP] == s.regs[FP] && v.regs[LR] == s.regs[LR])
      && (forall r: RegNo :: r != 31 && r !in SavedRegs(f) ==> v.regs[r] == u.regs[r])
  {
    hide EpilogueCode, PrologueCode, Exec, Straight, FrameBytes, SavedRegs, Objs, Load, LE, Run;
    var t, rs, base := Run(PrologueCode(f), s), SavedRegs(f), s.sp - FrameBytes(f) + Objs(f);
    SavedSaveable(f);
    PrologueMeaning(f, s);
    forall i | 0 <= i < |rs| ensures rs[i] != 31 && Load(u.mem, base + 8 * i, 8) == LE(s.regs[rs[i]], 8) {
      LoadAgrees(t.mem, u.mem, base, s.sp, base + 8 * i);
    }
    LeaveFrame(f, s.regs, u);
    RestoredByName(f, s.regs, u.regs, Run(EpilogueCode(f), u).regs);
  }

  lemma RestoredByName(f: FrameInfo, old_: Regs, from: Regs, now: Regs)
    requires Supported(f) && Restored(SavedRegs(f), old_, from, now)
    ensures forall r: RegNo :: CALLEE_START <= r < CALLEE_START + f.maxNregs ==> now[r] == old_[r]
    ensures NeedsFP(f) ==> now[FP] == old_[FP] && now[LR] == old_[LR]
  {
    var (rs, first) := (SavedRegs(f), if NeedsFP(f) then 2 else 0);
    forall r: RegNo | CALLEE_START <= r < CALLEE_START + f.maxNregs ensures now[r] == old_[r] {
      assert rs[first + f.maxNregs - 1 - (r - CALLEE_START)] == r;
    }
    if NeedsFP(f) {
      assert rs[0] == FP && rs[1] == LR;
    }
  }

  /** The frame has an encoding exactly when its last pair's offset does: past that, the field
      is cut and the pair goes elsewhere. */
  lemma EncodableExact(f: FrameInfo)
    requires Supported(f) && f.locals > 0
    ensures FrameFits(f) <==>
      forall k :: 0 <= k < |SavedRegs(f)| / 2 ==> PairOffsetUsed(Objs(f) + 16 * k) == Objs(f) + 16 * k
  {
    SavedSaveable(f);
    var last := |SavedRegs(f)| / 2 - 1;
    forall k | 0 <= k <= last ensures PairOffsetUsed(Objs(f) + 16 * k) == Objs(f) + 16 * k <==> Objs(f) + 16 * k <= 504 {
      PairOffset(Objs(f) + 16 * k);
    }
    if !FrameFits(f) {
      assert PairOffsetUsed(Objs(f) + 16 * last) != Objs(f) + 16 * last;
    }
  }

  function PairOffsetUsed(offset: nat): int { PairInstr(true, Offset, 0, 1, SP, offset).imm7 * 8 }
}
