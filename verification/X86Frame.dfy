// x86-64 function entry and exit code: saved registers, stack alignment, and what a
// well-behaved body gets back.
module X86Frame {
  import opened Words
  import opened Memory
  import opened Registers
  import opened X86Instr
  import opened X86RoundTrip
  import opened X86Machine

  /** What the parser knows about a finished function body. */
  datatype FrameInfo = FrameInfo(nregs: nat, locals: nat, calls: bool)

  predicate Supported(f: FrameInfo) {
    f.nregs <= |CALLEE_REGS| && f.locals < 0x4000_0000
  }

  function Align16(x: nat): (y: nat)
    ensures y % 16 == 0 && x <= y < x + 16
  {
    (x + 15) / 16 * 16
  }

  const SHADOW := 32

  function StackSize(f: FrameInfo): nat {
    var base := Align16((if f.calls then SHADOW else 0) + f.locals);
    var tmp := f.nregs + (if f.locals > 0 then 1 else 0) + (if f.calls then 1 else 0);
    if tmp % 2 == 1 then base + 8 else base
  }

  /** Registers in the order they are pushed. */
  function SavedRegs(f: FrameInfo): seq<RegNo>
    requires Supported(f)
  {
    (if f.locals > 0 then [RBP] else []) + CalleeSeq(f.nregs)
  }

  function CalleeSeq(n: nat): (r: seq<RegNo>)
    requires n <= |CALLEE_REGS|
    ensures |r| == n && forall k :: 0 <= k < n ==> r[k] == CALLEE_REGS[k]
  {
    if n == 0 then [] else CalleeSeq(n - 1) + [CALLEE_REGS[n - 1]]
  }

  function Pushes(rs: seq<RegNo>): (code: seq<Instr>)
    ensures StraightCode(code)
  {
    if rs == [] then [] else [Push(rs[0])] + Pushes(rs[1..])
  }

  /** Pops in the opposite order. */
  function Pops(rs: seq<RegNo>): (code: seq<Instr>)
    ensures StraightCode(code)
  {
    if rs == [] then [] else [Pop(rs[|rs| - 1])] + Pops(rs[..|rs| - 1])
  }

  function SetFrame(f: FrameInfo): seq<Instr> {
    if f.locals == 0 then []
    else if f.calls then [Mem(OP_LEA, 8, RBP, RSP, NoIndex, -SHADOW)]
    else [RR(OP_MOV_RM_R, 8, RSP, RBP)]
  }

  function Adjust(digit: Bits3, n: nat): seq<Instr> {
    if n == 0 then [] else [AluI(digit, 8, RSP, n)]
  }

  function PrologueCode(f: FrameInfo): seq<Instr>
    requires Supported(f)
  {
    Pushes(SavedRegs(f)) + (SetFrame(f) + Adjust(ALU_SUB, StackSize(f)))
  }

  function EpilogueCode(f: FrameInfo): seq<Instr>
    requires Supported(f)
  {
    Adjust(ALU_ADD, StackSize(f)) + Pops(SavedRegs(f))
  }

  // ---- Pushing and popping a list of registers ----

  /** No register twice, and never the stack pointer. */
  predicate Saveable(rs: seq<RegNo>) {
    && (forall i :: 0 <= i < |rs| ==> rs[i] != RSP)
    && (forall i, j :: 0 <= i < j < |rs| ==> rs[i] != rs[j])
  }

  /** The slot of the i-th pushed register, counting down from the entry stack pointer. */
  function Slot(top: int, i: int): int { top - 8 * (i + 1) }

  ghost predicate Holds(m: Mem, top: int, rs: seq<RegNo>, regs: Regs) {
    forall i :: 0 <= i < |rs| ==> Load(m, Slot(top, i), 8) == LE(regs[rs[i]], 8)
  }

  lemma PushExec(r: RegNo, s: State)
    requires r != RSP && s.regs[RSP] >= 8
    ensures Exec(Push(r), s) == State(s.regs[RSP := s.regs[RSP] - 8], Store(s.mem, s.regs[RSP] - 8, LE(s.regs[r], 8)))
  {
    SmallMod(s.regs[RSP] - 8, P64);
  }

  lemma {:induction false} PushAll(rs: seq<RegNo>, s: State)
    requires Saveable(rs) && s.regs[RSP] >= 8 * |rs|
    ensures var t := Run(Pushes(rs), s); var top := s.regs[RSP];
      && t.regs == s.regs[RSP := top - 8 * |rs|]
      && Holds(t.mem, top, rs, s.regs)
      && (forall x :: top <= x < P64 ==> t.mem(x) == s.mem(x))
    decreases |rs|
  {
    hide Exec, Holds, LE, Store;
    if rs != [] {
      var top := s.regs[RSP];
      PushExec(rs[0], s);
      var s1 := State(s.regs[RSP := top - 8], Store(s.mem, top - 8, LE(s.regs[rs[0]], 8)));
      PushAll(rs[1..], s1);
      RunCons(Push(rs[0]), Pushes(rs[1..]), s);
      HoldsCons(s.mem, s1.mem, Run(Pushes(rs[1..]), s1).mem, top, rs, s.regs, s1.regs);
    } else {
      assert s.regs[RSP := s.regs[RSP]] == s.regs;
      NothingHeld(s.mem, s.regs);
    }
  }

  lemma NothingHeld(m: Mem, regs: Regs)
    ensures Holds(m, regs[RSP], [], regs)
  {
  }

  /** Adding the first slot under the others. */
  lemma HoldsCons(m: Mem, m1: Mem, m': Mem, top: int, rs: seq<RegNo>, regs: Regs, regs1: Regs)
    requires Saveable(rs) && rs != [] && 8 * |rs| <= top < P64
    requires m1 == Store(m, top - 8, LE(regs[rs[0]], 8)) && regs1 == regs[RSP := top - 8]
    requires Holds(m', top - 8, rs[1..], regs1)
    requires forall x :: top - 8 <= x < P64 ==> m'(x) == m1(x)
    ensures Holds(m', top, rs, regs)
    ensures forall x :: top <= x < P64 ==> m'(x) == m(x)
  {
    hide Load, LE, Store;
    forall x | top <= x < P64 ensures m'(x) == m(x) {
      StoreElsewhere(m, top - 8, LE(regs[rs[0]], 8), x);
    }
    forall i | 0 <= i < |rs| ensures Load(m', Slot(top, i), 8) == LE(regs[rs[i]], 8) {
      if i == 0 {
        LoadStored(m, top - 8, LE(regs[rs[0]], 8));
        LoadUnchanged(m1, m', top - 8, top - 8);
      } else {
        assert rs[i] == rs[1..][i - 1] && Slot(top, i) == Slot(top - 8, i - 1);
      }
    }
  }

  lemma PushRegs(rs: seq<RegNo>, s: State)
    requires Saveable(rs) && s.regs[RSP] >= 8 * |rs|
    ensures Run(Pushes(rs), s).regs == s.regs[RSP := s.regs[RSP] - 8 * |rs|]
  {
    PushAll(rs, s);
  }

  lemma LoadUnchanged(m: Mem, m': Mem, a: int, low: int)
    requires 0 <= low <= a && a + 8 <= P64
    requires forall x :: low <= x < P64 ==> m'(x) == m(x)
    ensures Load(m', a, 8) == Load(m, a, 8)
  {
    forall k | 0 <= k < 8 ensures m'(At(a, k)) == m(At(a, k)) {
      SmallMod(a + k, P64);
    }
  }

  lemma PopExec(r: RegNo, s: State, v: U64)
    requires r != RSP && s.regs[RSP] + 8 < P64 && Load(s.mem, s.regs[RSP], 8) == LE(v, 8)
    ensures Straight(Pop(r)) && Exec(Pop(r), s) == s.(regs := s.regs[RSP := s.regs[RSP] + 8][r := v])
  {
    FromLERoundTrip(v, 8);
    Pow256Sizes();
    SmallMod(v, P64);
    SmallMod(s.regs[RSP] + 8, P64);
  }

  lemma LastOf(rs: seq<RegNo>)
    requires rs != []
    ensures forall x :: x in rs <==> x in rs[..|rs| - 1] || x == rs[|rs| - 1]
  {
    assert rs == rs[..|rs| - 1] + [rs[|rs| - 1]];
  }

  lemma {:induction false} PopAll(rs: seq<RegNo>, top: int, old_: Regs, u: State)
    requires Saveable(rs) && 8 * |rs| <= top < P64 && u.regs[RSP] == top - 8 * |rs|
    requires Holds(u.mem, top, rs, old_)
    ensures var v := Run(Pops(rs), u);
      && v.mem == u.mem && v.regs[RSP] == top
      && (forall i :: 0 <= i < |rs| ==> v.regs[rs[i]] == old_[rs[i]])
      && (forall r: RegNo :: r != RSP && r !in rs ==> v.regs[r] == u.regs[r])
    decreases |rs|
  {
    hide Exec, Straight, Load, LE;
    if rs != [] {
      var n := |rs| - 1;
      var r, v := rs[n], old_[rs[n]];
      var u1 := u.(regs := u.regs[RSP := u.regs[RSP] + 8][r := v]);
      assert Slot(top, n) == u.regs[RSP];
      PopExec(r, u, v);
      PopAll(rs[..n], top, old_, u1);
      RunCons(Pop(r), Pops(rs[..n]), u);
      LastOf(rs);
    }
  }

  // ---- The whole frame ----

  lemma SavedRegsSaveable(f: FrameInfo)
    requires Supported(f)
    ensures Saveable(SavedRegs(f))
    ensures |SavedRegs(f)| == f.nregs + (if f.locals > 0 then 1 else 0)
  {
  }

  lemma SubStackPointer(n: nat, s: State)
    requires n <= s.regs[RSP] && 0 < n < 0x8000_0000
    ensures var i := AluI(ALU_SUB, 8, RSP, n);
      Straight(i) && Exec(i, s) == s.(regs := s.regs[RSP := s.regs[RSP] - n])
  {
    LowSmall(8, n);
    LowSmall(8, s.regs[RSP]);
    LowSmall(8, s.regs[RSP] - n);
  }

  lemma AddStackPointer(n: nat, s: State)
    requires s.regs[RSP] + n < P64 && 0 < n < 0x8000_0000
    ensures var i := AluI(ALU_ADD, 8, RSP, n);
      Straight(i) && Exec(i, s) == s.(regs := s.regs[RSP := s.regs[RSP] + n])
  {
    LowSmall(8, n);
    LowSmall(8, s.regs[RSP]);
    LowSmall(8, s.regs[RSP] + n);
  }

  lemma AdjustExec(digit: Bits3, n: nat, s: State)
    requires (digit == ALU_SUB && n <= s.regs[RSP]) || (digit == ALU_ADD && s.regs[RSP] + n < P64)
    requires n < 0x8000_0000
    ensures StraightCode(Adjust(digit, n))
    ensures Run(Adjust(digit, n), s)
         == s.(regs := s.regs[RSP := if digit == ALU_SUB then s.regs[RSP] - n else s.regs[RSP] + n])
  {
    if n == 0 {
      assert s.regs[RSP := s.regs[RSP]] == s.regs;
    } else {
      if digit == ALU_SUB {
        SubStackPointer(n, s);
      } else {
        AddStackPointer(n, s);
      }
      Run1(AluI(digit, 8, RSP, n), s);
    }
  }

  /** RBP after the prologue's frame instruction. */
  function FramePointer(f: FrameInfo, sp: int, rbp: int): int {
    if f.locals == 0 then rbp else if f.calls then sp - SHADOW else sp
  }

  lemma SetFrameExec(f: FrameInfo, s: State)
    requires SHADOW <= s.regs[RSP]
    ensures StraightCode(SetFrame(f))
    ensures Run(SetFrame(f), s) == s.(regs := s.regs[RBP := FramePointer(f, s.regs[RSP], s.regs[RBP])])
  {
    if f.locals == 0 {
      assert s.regs[RBP := s.regs[RBP]] == s.regs;
    } else {
      var i := SetFrame(f)[0];
      LowSmall(8, s.regs[RSP]);
      LowSmall(8, s.regs[RSP] - SHADOW);
      assert SetFrame(f) == [i];
      Run1(i, s);
    }
  }

  /** Bytes the frame takes below the entry stack pointer. */
  function FrameBytes(f: FrameInfo): nat
    requires Supported(f)
  {
    8 * |SavedRegs(f)| + StackSize(f)
  }

  lemma FrameAlignment(f: FrameInfo, top: int)
    requires Supported(f)
    ensures StackSize(f) < 0x8000_0000
    ensures top % 16 == 8 ==> (top - FrameBytes(f)) % 16 == if f.calls then 0 else 8
    ensures f.locals > 0 ==> StackSize(f) >= f.locals + (if f.calls then SHADOW else 0)
  {
    SavedRegsSaveable(f);
    var n := |SavedRegs(f)|;
    var base := Align16((if f.calls then SHADOW else 0) + f.locals);
    if top % 16 == 8 {
      Parity(top, n, base, if (n % 2 == 0) == f.calls then 8 else 0);
    }
  }

  lemma Parity(top: int, n: nat, base: nat, odd: nat)
    requires base % 16 == 0 && (odd == 0 || odd == 8) && top % 16 == 8
    ensures (top - (8 * n + (base + odd))) % 16 == if (odd == 8) == (n % 2 == 0) then 0 else 8
  {
    var h, b := n / 2, base / 16;
    assert 8 * n == 16 * h + 8 * (n % 2);
  }

  /** After the pushes: set the frame pointer, then make room. */
  lemma MakeRoom(f: FrameInfo, s: State)
    requires StackSize(f) < 0x8000_0000 && StackSize(f) + SHADOW <= s.regs[RSP]
    ensures StraightCode(SetFrame(f) + Adjust(ALU_SUB, StackSize(f)))
    ensures Run(SetFrame(f) + Adjust(ALU_SUB, StackSize(f)), s)
         == s.(regs := s.regs[RBP := FramePointer(f, s.regs[RSP], s.regs[RBP])][RSP := s.regs[RSP] - StackSize(f)])
  {
    hide Exec, Straight, SetFrame, Adjust, StackSize;
    SetFrameExec(f, s);
    var s2 := s.(regs := s.regs[RBP := FramePointer(f, s.regs[RSP], s.regs[RBP])]);
    AdjustExec(ALU_SUB, StackSize(f), s2);
    RunAppend(SetFrame(f), Adjust(ALU_SUB, StackSize(f)), s);
  }

  lemma PushThen(rs: seq<RegNo>, rest: seq<Instr>, s: State)
    requires Saveable(rs) && StraightCode(rest) && s.regs[RSP] >= 8 * |rs|
    ensures StraightCode(Pushes(rs) + rest)
    ensures Run(Pushes(rs) + rest, s)
         == Run(rest, State(s.regs[RSP := s.regs[RSP] - 8 * |rs|], Run(Pushes(rs), s).mem))
  {
    PushRegs(rs, s);
    RunAppend(Pushes(rs), rest, s);
  }

  lemma SavesStraight(rs: seq<RegNo>, s: State)
    requires Saveable(rs) && s.regs[RSP] >= 8 * |rs|
    ensures StraightCode(Pushes(rs))
  {
    PushRegs(rs, s);
  }

  /** The three parts of the prologue in turn. */
  lemma PrologueRun(f: FrameInfo, s: State, saves: U64)
    requires Supported(f) && StackSize(f) < 0x8000_0000 && StackSize(f) + SHADOW <= saves
    requires Saveable(SavedRegs(f)) && s.regs[RSP] == saves + 8 * |SavedRegs(f)|
    ensures StraightCode(PrologueCode(f))
    ensures Run(PrologueCode(f), s)
        == State(s.regs[RSP := saves][RBP := FramePointer(f, saves, s.regs[RBP])][RSP := saves - StackSize(f)],
                 Run(Pushes(SavedRegs(f)), s).mem)
  {
    hide Run, Pushes, SetFrame, Adjust, StackSize, FramePointer, SavedRegs;
    SavesStraight(SavedRegs(f), s);
    var s1 := State(s.regs[RSP := saves], Run(Pushes(SavedRegs(f)), s).mem);
    MakeRoom(f, s1);
    PushThen(SavedRegs(f), SetFrame(f) + Adjust(ALU_SUB, StackSize(f)), s);
  }

  /** The prologue saves the registers in slots right below the entry stack pointer, puts the
      locals between the new stack pointer and those slots, 32 bytes below them when it calls, and
      aligns the stack for calls. */
  lemma PrologueMeaning(f: FrameInfo, s: State)
    requires Supported(f) && FrameBytes(f) + SHADOW <= s.regs[RSP]
    ensures StraightCode(PrologueCode(f))
    ensures var t := Run(PrologueCode(f), s); var top := s.regs[RSP]; var saves := top - 8 * |SavedRegs(f)|;
      && t.regs[RSP] == top - FrameBytes(f)
      && t.regs[RBP] == FramePointer(f, saves, s.regs[RBP])
      && (forall r: RegNo :: r != RSP && r != RBP ==> t.regs[r] == s.regs[r])
      && Holds(t.mem, top, SavedRegs(f), s.regs)
      && (f.locals > 0 ==> t.regs[RSP] <= t.regs[RBP] - f.locals && t.regs[RBP] == saves - (if f.calls then 32 else 0))
      && (top % 16 == 8 ==> t.regs[RSP] % 16 == if f.calls then 0 else 8)
      && (forall x :: top <= x < P64 ==> t.mem(x) == s.mem(x))
  {
    hide Run, Pushes, PrologueCode, Holds, StackSize, SavedRegs;
    SavedRegsSaveable(f);
    FrameAlignment(f, s.regs[RSP]);
    PushAll(SavedRegs(f), s);
    PrologueRun(f, s, s.regs[RSP] - 8 * |SavedRegs(f)|);
  }

  /** A body that keeps the stack pointer and the save slots gets everything back: the stack
      pointer, RBP when it was changed, and every saved register. */
  lemma EpilogueRestores(f: FrameInfo, s: State, u: State)
    requires Supported(f) && FrameBytes(f) + SHADOW <= s.regs[RSP]
    requires StraightCode(PrologueCode(f))
    requires u.regs[RSP] == Run(PrologueCode(f), s).regs[RSP]
    requires forall x :: s.regs[RSP] - 8 * |SavedRegs(f)| <= x < s.regs[RSP] ==> u.mem(x) == Run(PrologueCode(f), s).mem(x)
    ensures StraightCode(EpilogueCode(f))
    ensures var v := Run(EpilogueCode(f), u);
      && v.mem == u.mem
      && v.regs[RSP] == s.regs[RSP]
      && (forall k :: 0 <= k < f.nregs ==> v.regs[CALLEE_REGS[k]] == s.regs[CALLEE_REGS[k]])
      && v.regs[RBP] == (if f.locals > 0 then s.regs else u.regs)[RBP]
      && (forall r: RegNo :: r != RSP && r !in SavedRegs(f) ==> v.regs[r] == u.regs[r])
  {
    var t, top, rs := Run(PrologueCode(f), s), s.regs[RSP], SavedRegs(f);
    SavedRegsSaveable(f);
    FrameAlignment(f, 0);
    PrologueMeaning(f, s);
    forall i | 0 <= i < |rs| ensures Load(u.mem, Slot(top, i), 8) == LE(s.regs[rs[i]], 8) {
      SlotUnchanged(t.mem, u.mem, top, |rs|, i);
    }
    EpilogueRun(f, top, s.regs, u);
    RestoredByName(f, s.regs, Run(EpilogueCode(f), u).regs);
    FrameRegNotCallee(f);
  }

  lemma EpilogueRun(f: FrameInfo, top: int, old_: Regs, u: State)
    requires Supported(f) && FrameBytes(f) <= top < P64 && u.regs[RSP] == top - FrameBytes(f)
    requires Saveable(SavedRegs(f)) && StackSize(f) < 0x8000_0000
    requires Holds(u.mem, top, SavedRegs(f), old_)
    ensures StraightCode(EpilogueCode(f))
    ensures var v := Run(EpilogueCode(f), u); var rs := SavedRegs(f);
      && v.mem == u.mem && v.regs[RSP] == top
      && (forall i :: 0 <= i < |rs| ==> v.regs[rs[i]] == old_[rs[i]])
      && (forall r: RegNo :: r != RSP && r !in rs ==> v.regs[r] == u.regs[r])
  {
    var rs := SavedRegs(f);
    AdjustExec(ALU_ADD, StackSize(f), u);
    var u1 := Run(Adjust(ALU_ADD, StackSize(f)), u);
    PopAll(rs, top, old_, u1);
    RunAppend(Adjust(ALU_ADD, StackSize(f)), Pops(rs), u);
  }

  lemma RestoredByName(f: FrameInfo, old_: Regs, now: Regs)
    requires Supported(f)
    requires forall i :: 0 <= i < |SavedRegs(f)| ==> now[SavedRegs(f)[i]] == old_[SavedRegs(f)[i]]
    ensures forall k :: 0 <= k < f.nregs ==> now[CALLEE_REGS[k]] == old_[CALLEE_REGS[k]]
    ensures f.locals > 0 ==> now[RBP] == old_[RBP]
  {
    var shift := |SavedRegs(f)| - f.nregs;
    forall k | 0 <= k < f.nregs ensures now[CALLEE_REGS[k]] == old_[CALLEE_REGS[k]] {
      assert SavedRegs(f)[k + shift] == CALLEE_REGS[k];
    }
    if f.locals > 0 {
      assert SavedRegs(f)[0] == RBP;
    }
  }

  lemma FrameRegNotCallee(f: FrameInfo)
    requires Supported(f)
    ensures f.locals == 0 ==> RBP !in SavedRegs(f)
  {
  }

  lemma SlotUnchanged(m: Mem, m': Mem, top: int, n: nat, i: nat)
    requires i < n && 8 * n <= top < P64
    requires forall x :: top - 8 * n <= x < top ==> m'(x) == m(x)
    ensures Load(m', Slot(top, i), 8) == Load(m, Slot(top, i), 8)
  {
    forall k | 0 <= k < 8 ensures m'(At(Slot(top, i), k)) == m(At(Slot(top, i), k)) {
      SmallMod(Slot(top, i) + k, P64);
    }
  }

  // ---- The bytes of the frame code ----

  lemma {:induction false} PushesFaithful(rs: seq<RegNo>)
    ensures AllFaithful(Pushes(rs)) && AllFaithful(Pops(rs))
    decreases |rs|
  {
    if rs != [] {
      PushesFaithful(rs[1..]);
      PushesFaithful(rs[..|rs| - 1]);
    }
  }

  lemma AdjustFaithful(digit: Bits3, n: nat)
    requires n < 0x8000_0000
    ensures AllFaithful(Adjust(digit, n))
  {
  }

  lemma SetFrameFaithful(f: FrameInfo)
    ensures AllFaithful(SetFrame(f))
  {
  }

  /** The emitted prologue and epilogue decode back to exactly these instructions. */
  lemma FrameDecodes(f: FrameInfo)
    requires Supported(f)
    ensures DecodeAll(EncodeAll(PrologueCode(f))) == PrologueCode(f)
    ensures DecodeAll(EncodeAll(EpilogueCode(f))) == EpilogueCode(f)
  {
    hide Encode, SavedRegs, StackSize;
    FrameAlignment(f, 0);
    PushesFaithful(SavedRegs(f));
    AdjustFaithful(ALU_SUB, StackSize(f));
    AdjustFaithful(ALU_ADD, StackSize(f));
    SetFrameFaithful(f);
    StreamRoundTrip(PrologueCode(f));
    StreamRoundTrip(EpilogueCode(f));
  }
}
