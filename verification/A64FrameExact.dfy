// Exactly which AArch64 frames give a function back what it entered with.
module A64FrameExact {
  import opened Words
  import opened Memory
  import opened A64Instr
  import opened A64Machine
  import opened A64Stores
  import opened A64Frame

  // ---- Frame code of any size can be run ----

  lemma {:induction false} SaveStraight(load: bool, rs: seq<RegNo>, offset: nat)
    requires Saveable(rs)
    ensures StraightCode(SaveCode(load, rs, offset))
    decreases |rs|
  {
    hide WellFormed;
    if |rs| >= 2 {
      SaveStraight(load, rs[2..], offset + 16);
      PairStraight(load, Offset, rs[0], rs[1], offset);
    } else if |rs| == 1 {
      SingleStraight(load, rs[0], offset);
    }
  }

  lemma PairStraight(load: bool, mode: Mode, rt: RegNo, rt2: RegNo, bytes: int)
    requires rt != rt2
    ensures Straight(PairInstr(load, mode, rt, rt2, SP, bytes))
  {
  }

  lemma SingleStraight(load: bool, rt: RegNo, offset: nat)
    ensures Straight(Single(load, rt, offset))
  {
  }

  lemma SpStraight(sub: bool, rd: RegNo, bytes: nat)
    ensures Straight(SpImm(sub, rd, bytes))
  {
  }

  lemma FrameStraight(f: FrameInfo)
    requires Supported(f)
    ensures StraightCode(PrologueCode(f)) && StraightCode(EpilogueCode(f))
  {
    hide Straight, SaveCode, PairInstr, SpImm, Single, Objs, FrameBytes, SavedRegs;
    SavedSaveable(f);
    var rs, size: int := SavedRegs(f), FrameBytes(f);
    SaveStraight(false, rs, Objs(f));
    SaveStraight(true, rs, Objs(f));
    SpStraight(true, SP, size);
    SpStraight(false, SP, size);
    SpStraight(false, FP, Objs(f));
    SavedNone(f);
    if |rs| >= 2 {
      PairStraight(false, PreIndex, rs[0], rs[1], -size);
      PairStraight(true, PostIndex, rs[0], rs[1], size);
      SaveStraight(false, rs[2..], 16);
      SaveStraight(true, rs[2..], 16);
    } else if |rs| == 1 {
      IndexedStraight(rs[0], size);
    }
  }

  lemma IndexedStraight(rt: RegNo, size: int)
    ensures Straight(LdStOff(3, 0, PreIndex, SignExt(-size % 512, 512), SP, rt))
    ensures Straight(LdStOff(3, 1, PostIndex, SignExt(size % 512, 512), SP, rt))
  {
  }

  // ---- What is wanted of a frame ----

  /** If there is room below s and the body, ending in u, kept the stack pointer and the bytes
      of the save area, then the frame had its full size and everything saved comes back. */
  ghost predicate FrameHolds(f: FrameInfo, s: State, u: State)
    requires Supported(f)
  {
    FrameStraight(f);
    var t := Run(PrologueCode(f), s);
    FrameBytes(f) <= s.sp && u.sp == t.sp && AgreeInside(t.mem, u.mem, s.sp - FrameBytes(f) + Objs(f), s.sp) ==>
      && t.sp == s.sp - FrameBytes(f)
      && ComesBack(f, s, Run(EpilogueCode(f), u))
  }

  ghost predicate ComesBack(f: FrameInfo, s: State, v: State)
    requires Supported(f)
  {
    && v.sp == s.sp
    && forall i :: 0 <= i < |SavedRegs(f)| ==> SavedRegs(f)[i] != 31 && v.regs[SavedRegs(f)[i]] == s.regs[SavedRegs(f)[i]]
  }

  lemma EncodableHolds(f: FrameInfo, s: State, u: State)
    requires Supported(f) && FrameFits(f)
    ensures FrameHolds(f, s, u)
  {
    hide PrologueCode, EpilogueCode, Straight, Exec, SavedRegs, FrameBytes, Objs, Load, LE, Run, FrameFits;
    FrameStraight(f);
    var t, rs := Run(PrologueCode(f), s), SavedRegs(f);
    var base := s.sp - FrameBytes(f) + Objs(f);
    if FrameBytes(f) <= s.sp && u.sp == t.sp && AgreeInside(t.mem, u.mem, base, s.sp) {
      SavedSaveable(f);
      PrologueMeaning(f, s);
      forall i | 0 <= i < |rs| ensures rs[i] != 31 && Load(u.mem, base + 8 * i, 8) == LE(s.regs[rs[i]], 8) {
        LoadAgrees(t.mem, u.mem, base, s.sp, base + 8 * i);
      }
      LeaveFrame(f, s.regs, u);
    }
  }

  // ---- Running save code with any offsets ----

  lemma PairStoreRun(rt: RegNo, rt2: RegNo, bytes: int, s: State)
    requires rt != rt2
    ensures var i := PairInstr(false, Offset, rt, rt2, SP, bytes);
      Straight(i) && Exec(i, s) == s.(mem := Exec(i, s).mem)
  {
    hide Store, LE;
  }

  lemma SingleStoreRun(rt: RegNo, offset: nat, s: State)
    ensures var i := Single(false, rt, offset); Straight(i) && Exec(i, s) == s.(mem := Exec(i, s).mem)
  {
    hide Store, LE;
  }

  /** Saving changes memory only. */
  lemma {:induction false} SavesRun(rs: seq<RegNo>, offset: nat, s: State)
    requires Saveable(rs)
    ensures StraightCode(SaveCode(false, rs, offset))
    ensures Run(SaveCode(false, rs, offset), s) == s.(mem := Run(SaveCode(false, rs, offset), s).mem)
    decreases |rs|
  {
    hide Exec, Straight, PairInstr, Single;
    if |rs| >= 2 {
      var i := PairInstr(false, Offset, rs[0], rs[1], SP, offset);
      PairStoreRun(rs[0], rs[1], offset, s);
      SavesRun(rs[2..], offset + 16, Exec(i, s));
      RunCons(i, SaveCode(false, rs[2..], offset + 16), s);
    } else if |rs| == 1 {
      SingleStoreRun(rs[0], offset, s);
      Run1(Single(false, rs[0], offset), s);
    }
  }

  /** What a load of eight bytes at an address gives. */
  ghost function Loaded(m: Mem, a: int): int { Low(8, FromLE(Load(m, a, 8))) }

  lemma PairLoadRun(rt: RegNo, rt2: RegNo, offset: nat, u: State)
    requires rt != 31 && rt2 != 31 && rt != rt2
    ensures var i := PairInstr(true, Offset, rt, rt2, SP, offset); var a := u.sp + PairOffsetUsed(offset);
      && Straight(i)
      && Exec(i, u) == u.(regs := u.regs[rt := Loaded(u.mem, a)][rt2 := Loaded(u.mem, a + 8)])
  {
    hide Load, FromLE;
    SmallMod(u.sp, P64);
  }

  lemma SingleLoadRun(rt: RegNo, offset: nat, u: State)
    requires rt != 31
    ensures var i := Single(true, rt, offset);
      Straight(i) && Exec(i, u) == u.(regs := u.regs[rt := Exec(i, u).regs[rt]])
  {
    hide Load, FromLE;
  }

  /** Every pair's first register is loaded from where its offset field says. */
  ghost predicate PairsLoaded(rs: seq<RegNo>, offset: nat, u: State, v: State) {
    && v == u.(regs := v.regs)
    && (forall r: RegNo :: r != 31 && r !in rs ==> v.regs[r] == u.regs[r])
    && (forall p :: 0 <= p < |rs| / 2 ==>
          rs[2 * p] != 31 && v.regs[rs[2 * p]] == Loaded(u.mem, u.sp + PairOffsetUsed(offset + 16 * p)))
  }

  /** Restoring loads the first register of every pair from the offset its field encodes. */
  lemma {:induction false} LoadsRun(rs: seq<RegNo>, offset: nat, u: State)
    requires Saveable(rs)
    ensures StraightCode(SaveCode(true, rs, offset))
    ensures PairsLoaded(rs, offset, u, Run(SaveCode(true, rs, offset), u))
    decreases |rs|
  {
    hide Exec, Straight, PairInstr, Single, Loaded, PairOffsetUsed, PairsLoaded;
    if |rs| >= 2 {
      var i := PairInstr(true, Offset, rs[0], rs[1], SP, offset);
      var rest := rs[2..];
      PairLoadRun(rs[0], rs[1], offset, u);
      var u1 := Exec(i, u);
      LoadsRun(rest, offset + 16, u1);
      RunCons(i, SaveCode(true, rest, offset + 16), u);
      PairsOfRest(rs, offset, u, u1, Run(SaveCode(true, rest, offset + 16), u1));
    } else if |rs| == 1 {
      SingleLoadRun(rs[0], offset, u);
      Run1(Single(true, rs[0], offset), u);
      NoPair(rs, offset, u, Exec(Single(true, rs[0], offset), u));
    } else {
      NoPair(rs, offset, u, u);
    }
  }

  lemma NoPair(rs: seq<RegNo>, offset: nat, u: State, v: State)
    requires |rs| < 2 && v == u.(regs := v.regs)
    requires forall r: RegNo :: r != 31 && r !in rs ==> v.regs[r] == u.regs[r]
    ensures PairsLoaded(rs, offset, u, v)
  {
  }

  lemma PairsOfRest(rs: seq<RegNo>, offset: nat, u: State, u1: State, v: State)
    requires Saveable(rs) && |rs| >= 2 && u1 == u.(regs := u1.regs)
    requires u1.regs[rs[0]] == Loaded(u.mem, u.sp + PairOffsetUsed(offset))
    requires forall r: RegNo :: r != 31 && r != rs[0] && r != rs[1] ==> u1.regs[r] == u.regs[r]
    requires PairsLoaded(rs[2..], offset + 16, u1, v)
    ensures PairsLoaded(rs, offset, u, v)
  {
    hide Loaded, PairOffsetUsed;
    assert rs == [rs[0], rs[1]] + rs[2..];
    assert rs[0] !in rs[2..] by {
      assert forall k :: 0 <= k < |rs[2..]| ==> rs[2..][k] == rs[k + 2];
    }
    forall p | 0 <= p < |rs| / 2
      ensures rs[2 * p] != 31 && v.regs[rs[2 * p]] == Loaded(u.mem, u.sp + PairOffsetUsed(offset + 16 * p))
    {
      if p > 0 {
        var q := p - 1;
        assert rs[2..][2 * q] == rs[2 * p] && offset + 16 + 16 * q == offset + 16 * p;
      }
    }
  }

  // ---- A frame that cannot be encoded ----

  lemma SpByAny(sub: bool, rd: RegNo, n: nat, s: State)
    requires if sub then n % 4096 <= s.sp else s.sp + n % 4096 < P64
    ensures var i := SpImm(sub, rd, n); var r := if sub then s.sp - n % 4096 else s.sp + n % 4096;
      Straight(i) && Exec(i, s) == if rd == 31 then s.(sp := r) else s.(regs := s.regs[rd := r])
  {
    SmallMod(s.sp, P64);
    SmallMod(if sub then s.sp - n % 4096 else s.sp + n % 4096, P64);
  }

  /** With locals the stack pointer falls by the frame size cut to twelve bits. */
  lemma EntrySP(f: FrameInfo, s: State)
    requires Supported(f) && Objs(f) > 0 && FrameBytes(f) <= s.sp && Objs(f) % 4096 + s.sp < P64
    ensures StraightCode(PrologueCode(f)) && Run(PrologueCode(f), s).sp == s.sp - FrameBytes(f) % 4096
  {
    hide Exec, Straight, SaveCode, SpImm, SavedRegs, FrameBytes, Objs;
    var (rs, size) := (SavedRegs(f), FrameBytes(f));
    FrameStraight(f);
    SavedSaveable(f);
    SpByAny(true, SP, size, s);
    var s1 := s.(sp := s.sp - size % 4096);
    SavesRun(rs, Objs(f), s1);
    var s2 := Run(SaveCode(false, rs, Objs(f)), s1);
    SetFPKeepsSP(f, s2);
    RunAppend(SaveCode(false, rs, Objs(f)), SetFP(f), s1);
    RunCons(SpImm(true, SP, size), SaveCode(false, rs, Objs(f)) + SetFP(f), s);
    assert PrologueCode(f) == [SpImm(true, SP, size)] + (SaveCode(false, rs, Objs(f)) + SetFP(f));
  }

  lemma SetFPKeepsSP(f: FrameInfo, s: State)
    requires Objs(f) % 4096 + s.sp < P64
    ensures StraightCode(SetFP(f)) && Run(SetFP(f), s).sp == s.sp
  {
    hide Exec, Straight, SpImm, Objs;
    SpByAny(false, FP, Objs(f), s);
    if NeedsFP(f) {
      Run1(SpImm(false, FP, Objs(f)), s);
    }
  }

  lemma ExitRegs(f: FrameInfo, u: State, p: nat)
    requires Supported(f) && Objs(f) > 0 && p < |SavedRegs(f)| / 2 && u.sp + FrameBytes(f) % 4096 < P64
    ensures StraightCode(EpilogueCode(f)) && SavedRegs(f)[2 * p] != 31
    ensures Run(EpilogueCode(f), u).regs[SavedRegs(f)[2 * p]] == Loaded(u.mem, u.sp + PairOffsetUsed(Objs(f) + 16 * p))
  {
    hide Exec, Straight, SaveCode, SpImm, SavedRegs, FrameBytes, Objs, Loaded, PairOffsetUsed;
    var (rs, size) := (SavedRegs(f), FrameBytes(f));
    SavedSaveable(f);
    LoadsRun(rs, Objs(f), u);
    var u1 := Run(SaveCode(true, rs, Objs(f)), u);
    SpByAny(false, SP, size, u1);
    Run1(SpImm(false, SP, size), u1);
    RunAppend(SaveCode(true, rs, Objs(f)), [SpImm(false, SP, size)], u);
  }

  /** Past the encodable range a pair goes far below its slot. */
  lemma CutOffset(o: nat, objs: nat)
    requires o > 504 && o % 16 == 0 && objs <= o <= objs + 64
    ensures PairOffsetUsed(o) + 16 <= objs && PairOffsetUsed(o) >= -512
  {
    var q := o / 8;
    assert o == 8 * q && q >= 64;
    assert Quot8(o) == q;
  }

  const TOP: U64 := 0x1000_0000_0000

  ghost function Blank(): State { State(seq(31, i => 0), TOP, Flags(false, false, false, false), (x: int) => 0) }

  /** The body leaves ones everywhere but in the save area. */
  ghost function Scribbled(t: State, a: int, b: int): State {
    var m: Mem := (x: int) => (if a <= x < b then t.mem(x) else 1) as Byte;
    t.(mem := m)
  }

  lemma OnesLoaded(m: Mem, a: int)
    requires 0 <= a && a + 8 <= P64 && forall x :: a <= x < a + 8 ==> m(x) == 1
    ensures Loaded(m, a) != 0
  {
    var bs := Load(m, a, 8);
    SmallMod(a, P64);
    assert bs[0] == 1;
    assert FromLE(bs) % 256 == 1;
    ModDiv(FromLE(bs), 256, 0x100_0000_0000_0000);
  }

  lemma LongFrameFails(f: FrameInfo)
    requires Supported(f) && Objs(f) > 0 && 4096 <= FrameBytes(f) < 0x1_0000_0000 && Objs(f) < 0x1_0000_0000
    ensures !FrameHolds(f, Blank(), Run(StraightPrologue(f), Blank()))
  {
    hide PrologueCode, EpilogueCode, Run, SavedRegs, FrameBytes, Objs;
    EntrySP(f, Blank());
  }

  function StraightPrologue(f: FrameInfo): (code: seq<Instr>)
    requires Supported(f)
    ensures StraightCode(code) && code == PrologueCode(f)
  {
    FrameStraight(f);
    PrologueCode(f)
  }

  lemma FarPairFails(f: FrameInfo)
    requires Supported(f) && !FrameFits(f) && FrameBytes(f) < 4096
    ensures var t := Run(StraightPrologue(f), Blank());
      !FrameHolds(f, Blank(), Scribbled(t, TOP - FrameBytes(f) + Objs(f), TOP))
  {
    hide PrologueCode, EpilogueCode, Run, SavedRegs, FrameBytes, Objs, Loaded, PairOffsetUsed;
    var (s, rs, size, objs) := (Blank(), SavedRegs(f), FrameBytes(f), Objs(f));
    UnencodableShape(f);
    EntrySP(f, s);
    var t := Run(StraightPrologue(f), s);
    var base := TOP - size + objs;
    var u := Scribbled(t, base, TOP);
    var p := |rs| / 2 - 1;
    CutOffset(objs + 16 * p, objs);
    var a := u.sp + PairOffsetUsed(objs + 16 * p);
    OnesLoaded(u.mem, a);
    ExitRegs(f, u, p);
    var v := Run(EpilogueCode(f), u);
    assert v.regs[rs[2 * p]] != s.regs[rs[2 * p]];
    NotBack(f, s, v, 2 * p);
  }

  lemma NotBack(f: FrameInfo, s: State, v: State, i: nat)
    requires Supported(f) && i < |SavedRegs(f)| && SavedRegs(f)[i] != 31 && v.regs[SavedRegs(f)[i]] != s.regs[SavedRegs(f)[i]]
    ensures !ComesBack(f, s, v)
  {
  }

  lemma UnencodableShape(f: FrameInfo)
    requires Supported(f) && !FrameFits(f)
    ensures var (n, objs) := (|SavedRegs(f)|, Objs(f));
      && objs > 0 && objs % 16 == 0 && 2 <= n <= 10 && objs + 16 * (n / 2 - 1) > 504 && objs <= FrameBytes(f)
  {
    SavedSaveable(f);
  }

  /** For every saved-register count the source supports: the stack pointer falls by the frame
      size and everything saved comes back, from every state and for every such body, exactly
      when the frame can be encoded. */
  lemma FrameExact(f: FrameInfo)
    requires Supported(f) && f.locals < 0x8000_0000
    ensures (forall s: State, u: State :: FrameHolds(f, s, u)) <==> FrameFits(f)
  {
    hide FrameHolds, Run;
    if FrameFits(f) {
      forall s: State, u: State ensures FrameHolds(f, s, u) {
        EncodableHolds(f, s, u);
      }
    } else {
      UnencodableShape(f);
      if FrameBytes(f) >= 4096 {
        LongFrameFails(f);
      } else {
        FarPairFails(f);
      }
    }
  }

  /** For one, with 512 bytes of locals x29 and x30 are saved 512 bytes below the stack pointer,
      and with 4080 bytes the stack pointer does not move at all. */
  lemma FramesThatFail()
    ensures !FrameFits(FrameInfo(0, 512, true)) && PairOffsetUsed(512) == -512
    ensures !FrameFits(FrameInfo(0, 4080, true)) && FrameBytes(FrameInfo(0, 4080, true)) % 4096 == 0
  {
  }
}
