// The AArch64 emitters that put several stores, and the frame code.
module A64EmitLoops {
  import opened Words
  import opened TypeSys
  import opened Registers
  import opened A64Instr
  import opened A64Machine
  import opened A64Buffer
  import opened A64Bits
  import opened A64Stores
  import opened A64Emit
  import Frames = A64Frame
  import X86Stores

  // ---- Packed values ----

  lemma {:induction false} PackedWellFormed(rn: RegNo, offset: int, src: RegNo, n: nat)
    ensures AllWellFormed(StorePackedCode(rn, offset, src, n))
    decreases n
  {
    hide MemInstr;
    if n > 0 {
      MemShape(ChunkBits(n), 0, src, rn, offset);
      PackedWellFormed(rn, offset + X86Stores.Chunk(n), src, n - X86Stores.Chunk(n));
    }
  }

  ghost function PackedWords(rn: RegNo, offset: int, src: RegNo, n: nat): seq<U32> {
    PackedWellFormed(rn, offset, src, n);
    EncodeAll(StorePackedCode(rn, offset, src, n))
  }

  /** The words for the next chunk: its store and, when more is left, the shift. */
  ghost function ChunkWords(rn: RegNo, offset: int, src: RegNo, n: nat): seq<U32>
    requires n > 0
  {
    var c := X86Stores.Chunk(n);
    MemShape(ChunkBits(n), 0, src, rn, offset);
    LsrShape(c * 8, src);
    [EncodeOne(MemInstr(ChunkBits(n), 0, src, rn, offset))]
    + if n > c then [EncodeOne(LsrInstr(true, c * 8, src, src))] else []
  }

  lemma PackedUnfold(rn: RegNo, offset: int, src: RegNo, n: nat)
    requires n > 0
    ensures var c := X86Stores.Chunk(n); var i := MemInstr(ChunkBits(n), 0, src, rn, offset);
      StorePackedCode(rn, offset, src, n) ==
        if n > c then [i] + ([LsrInstr(true, c * 8, src, src)] + StorePackedCode(rn, offset + c, src, n - c)) else [i]
  {
    hide MemInstr, LsrInstr, ChunkBits;
  }

  lemma PackedStep(rn: RegNo, offset: int, src: RegNo, n: nat)
    requires n > 0
    ensures var c := X86Stores.Chunk(n);
      PackedWords(rn, offset, src, n) == ChunkWords(rn, offset, src, n) + PackedWords(rn, offset + c, src, n - c)
  {
    hide MemInstr, LsrInstr, EncodeOne, WellFormed, EncodeAll, AllWellFormed, StorePackedCode, Straight, X86Stores.Chunk, ChunkBits;
    var c := X86Stores.Chunk(n);
    var (i, j, rest) := (MemInstr(ChunkBits(n), 0, src, rn, offset), LsrInstr(true, c * 8, src, src),
                         StorePackedCode(rn, offset + c, src, n - c));
    PackedWellFormed(rn, offset, src, n);
    PackedWellFormed(rn, offset + c, src, n - c);
    PackedUnfold(rn, offset, src, n);
    ChunkShapes(rn, offset, src, n);
    if n > c {
      TwoThen(i, j, rest);
    } else {
      OneWord(i);
      PackedNone(rn, offset + c, src);
    }
  }

  lemma ChunkShapes(rn: RegNo, offset: int, src: RegNo, n: nat)
    requires n > 0
    ensures var c := X86Stores.Chunk(n);
      0 < c <= n && WellFormed(MemInstr(ChunkBits(n), 0, src, rn, offset)) && WellFormed(LsrInstr(true, c * 8, src, src))
  {
    hide MemInstr, LsrInstr;
    MemShape(ChunkBits(n), 0, src, rn, offset);
    LsrShape(X86Stores.Chunk(n) * 8, src);
    StraightForm(MemInstr(ChunkBits(n), 0, src, rn, offset));
  }

  lemma TwoThen(i: Instr, j: Instr, rest: seq<Instr>)
    requires WellFormed(i) && WellFormed(j) && AllWellFormed(rest)
    ensures AllWellFormed([i] + ([j] + rest))
    ensures EncodeAll([i] + ([j] + rest)) == [EncodeOne(i)] + [EncodeOne(j)] + EncodeAll(rest)
  {
    hide WellFormed, EncodeOne, EncodeAll;
    EncodeCons(j, rest);
    EncodeCons(i, [j] + rest);
  }

  lemma LsrShape(amount: int, src: RegNo)
    ensures WellFormed(LsrInstr(true, amount, src, src))
  {
  }

  lemma AssocMany(all: seq<U32>, done: seq<U32>, ws: seq<U32>, rest: seq<U32>)
    requires all == done + (ws + rest)
    ensures all == (done + ws) + rest
  {
  }

  method PutChunk(out: WordBuffer, base: Reg, offset: int, src: Reg, left: nat)
    requires out.Valid() && HasA64(base) && HasA64(src) && TryGetAddr(src.dtype) == 0 && left > 0
    modifies out, out.body
    ensures out.Emitted(ChunkWords(A64No(base), offset, A64No(src), left))
  {
    hide WordBuffer.Valid, Encode, Decode, EncodeOne, MemInstr, LsrInstr;
    var chunk: nat := if left >= 8 then 8 else if left >= 4 then 4 else if left >= 2 then 2 else 1;
    MemOp(out, false, Resize(src, chunk), base, offset);
    if left > chunk {
      EmitLsrImm(out, Resize(src, 8), Resize(src, 8), chunk * 8);
    }
  }

  method EmitStorePacked(out: WordBuffer, base: Reg, offset: int, src: Reg, nbytes: nat)
    requires out.Valid() && HasA64(base) && HasA64(src) && TryGetAddr(src.dtype) == 0
    modifies out, out.body
    ensures AllWellFormed(StorePackedCode(A64No(base), offset, A64No(src), nbytes))
    ensures out.Emitted(EncodeAll(StorePackedCode(A64No(base), offset, A64No(src), nbytes)))
  {
    hide WordBuffer.Valid, EncodeAll, ChunkWords, PackedWords;
    var rn, rt := A64No(base), A64No(src);
    PackedIs(rn, offset, rt, nbytes);
    ghost var all, done: seq<U32> := PackedWords(rn, offset, rt, nbytes), [];
    var left: nat, pos := nbytes, 0;
    while left > 0
      invariant out.Emitted(done) && all == done + PackedWords(rn, offset + pos, rt, left)
    {
      var chunk := X86Stores.Chunk(left);
      PackedStep(rn, offset + pos, rt, left);
      PutChunk(out, base, offset + pos, src, left);
      ghost var ws := ChunkWords(rn, offset + pos, rt, left);
      left := left - chunk;
      pos := pos + chunk;
      AssocMany(all, done, ws, PackedWords(rn, offset + pos, rt, left));
      done := done + ws;
    }
    PackedNone(rn, offset + pos, rt);
  }

  lemma PackedNone(rn: RegNo, offset: int, src: RegNo)
    ensures PackedWords(rn, offset, src, 0) == []
  {
  }

  lemma PackedIs(rn: RegNo, offset: int, src: RegNo, n: nat)
    ensures AllWellFormed(StorePackedCode(rn, offset, src, n))
    ensures PackedWords(rn, offset, src, n) == EncodeAll(StorePackedCode(rn, offset, src, n))
  {
    PackedWellFormed(rn, offset, src, n);
  }

  // ---- Zero fill ----

  lemma {:induction false} HalvesWellFormed(rn: RegNo, offset: int, size: nat, rsize: nat)
    ensures AllWellFormed(ZeroHalves(rn, offset, size, rsize))
    decreases rsize
  {
    hide MemInstr, WellFormed, AllWellFormed;
    if size == 0 || rsize == 0 {
      NoneWellFormed();
    } else if size >= rsize {
      var i := MemInstr(ChunkBits(rsize), 0, 31, rn, offset);
      MemShape(ChunkBits(rsize), 0, 31, rn, offset);
      StraightForm(i);
      HalvesWellFormed(rn, offset + rsize, size - rsize, rsize / 2);
      OneMoreWellFormed(i, ZeroHalves(rn, offset + rsize, size - rsize, rsize / 2));
    } else {
      HalvesWellFormed(rn, offset, size, rsize / 2);
    }
  }

  lemma NoneWellFormed()
    ensures AllWellFormed([])
  {
  }

  lemma OneMoreWellFormed(i: Instr, rest: seq<Instr>)
    requires WellFormed(i) && AllWellFormed(rest)
    ensures AllWellFormed([i] + rest)
  {
    hide WellFormed;
  }

  lemma StraightForm(i: Instr)
    requires Straight(i)
    ensures WellFormed(i)
  {
  }

  lemma {:induction false} EightsWellFormed(rn: RegNo, offset: int, size: nat)
    ensures AllWellFormed(ZeroEights(rn, offset, size))
    decreases size
  {
    hide MemInstr, WellFormed;
    if size >= 8 {
      MemShape(3, 0, 31, rn, offset);
      StraightForm(MemInstr(3, 0, 31, rn, offset));
      EightsWellFormed(rn, offset + 8, size - 8);
    } else {
      HalvesWellFormed(rn, offset, size, 4);
    }
  }

  lemma {:induction false} ZerofillWellFormed(rn: RegNo, offset: int, size: nat)
    ensures AllWellFormed(ZerofillCode(rn, offset, size))
    decreases size
  {
    hide ZeroEights;
    if size >= 16 {
      ZerofillWellFormed(rn, offset + 16, size - 16);
    } else {
      EightsWellFormed(rn, offset, size);
    }
  }

  ghost function ZeroWords(rn: RegNo, offset: int, size: nat): seq<U32> {
    ZerofillWellFormed(rn, offset, size);
    EncodeAll(ZerofillCode(rn, offset, size))
  }

  ghost function EightWords(rn: RegNo, offset: int, size: nat): seq<U32> {
    EightsWellFormed(rn, offset, size);
    EncodeAll(ZeroEights(rn, offset, size))
  }

  ghost function HalfWords(rn: RegNo, offset: int, size: nat, rsize: nat): seq<U32> {
    HalvesWellFormed(rn, offset, size, rsize);
    EncodeAll(ZeroHalves(rn, offset, size, rsize))
  }

  lemma ZeroWordsStep(rn: RegNo, offset: int, size: nat)
    ensures size >= 16 ==> var i := PairInstr(false, Offset, 31, 31, rn, offset);
      WellFormed(i) && ZeroWords(rn, offset, size) == [EncodeOne(i)] + ZeroWords(rn, offset + 16, size - 16)
    ensures size < 16 ==> ZeroWords(rn, offset, size) == EightWords(rn, offset, size)
  {
    hide EncodeOne;
    if size >= 16 {
      ZerofillWellFormed(rn, offset + 16, size - 16);
      EncodeCons(PairInstr(false, Offset, 31, 31, rn, offset), ZerofillCode(rn, offset + 16, size - 16));
    }
  }

  lemma EightWordsStep(rn: RegNo, offset: int, size: nat)
    ensures size >= 8 ==> var i := MemInstr(3, 0, 31, rn, offset);
      WellFormed(i) && EightWords(rn, offset, size) == [EncodeOne(i)] + EightWords(rn, offset + 8, size - 8)
    ensures size < 8 ==> EightWords(rn, offset, size) == HalfWords(rn, offset, size, 4)
  {
    hide Encode, Decode, EncodeOne, MemInstr, WellFormed, ZeroHalves;
    if size >= 8 {
      MemShape(3, 0, 31, rn, offset);
      StraightForm(MemInstr(3, 0, 31, rn, offset));
      EightsWellFormed(rn, offset + 8, size - 8);
      EncodeCons(MemInstr(3, 0, 31, rn, offset), ZeroEights(rn, offset + 8, size - 8));
    }
  }

  lemma HalfWordsStep(rn: RegNo, offset: int, size: nat, rsize: nat)
    requires size > 0 && rsize > 0
    ensures size >= rsize ==> var i := MemInstr(ChunkBits(rsize), 0, 31, rn, offset);
      WellFormed(i) && HalfWords(rn, offset, size, rsize) == [EncodeOne(i)] + HalfWords(rn, offset + rsize, size - rsize, rsize / 2)
    ensures size < rsize ==> HalfWords(rn, offset, size, rsize) == HalfWords(rn, offset, size, rsize / 2)
  {
    hide Encode, Decode, EncodeOne, MemInstr, WellFormed;
    if size >= rsize {
      MemShape(ChunkBits(rsize), 0, 31, rn, offset);
      StraightForm(MemInstr(ChunkBits(rsize), 0, 31, rn, offset));
      HalvesWellFormed(rn, offset + rsize, size - rsize, rsize / 2);
      EncodeCons(MemInstr(ChunkBits(rsize), 0, 31, rn, offset), ZeroHalves(rn, offset + rsize, size - rsize, rsize / 2));
    }
  }

  lemma HalfWordsNone(rn: RegNo, offset: int, rsize: nat)
    ensures HalfWords(rn, offset, 0, rsize) == []
  {
  }

  const XZR := Reg(RdNone, 0, 8, NoType)
  const WZR := Reg(RdNone, 0, 4, NoType)

  /** The halving loop: `size < 2 * rsize` keeps it going no further than one byte. */
  method PutZeroHalves(out: WordBuffer, base: Reg, start: int, total: nat)
    requires out.Valid() && HasA64(base) && total < 8
    modifies out, out.body
    ensures out.Emitted(HalfWords(A64No(base), start, total, 4))
  {
    hide WordBuffer.Valid, Encode, Decode, EncodeOne, EncodeAll, MemInstr, HalfWords;
    var rn := A64No(base);
    ghost var all, done: seq<U32> := HalfWords(rn, start, total, 4), [];
    var offset, size: nat, rsize: nat := start, total, 4;
    while size > 0
      invariant rsize == 4 || rsize == 2 || rsize == 1 || rsize == 0
      invariant size == 0 || size < 2 * rsize
      invariant out.Emitted(done) && all == done + HalfWords(rn, offset, size, rsize)
      decreases rsize
    {
      HalfWordsStep(rn, offset, size, rsize);
      if size >= rsize {
        MemOp(out, false, Resize(WZR, rsize), base, offset);
        ghost var w := EncodeOne(MemInstr(ChunkBits(rsize), 0, 31, rn, offset));
        size := size - rsize;
        offset := offset + rsize;
        Assoc(all, done, w, HalfWords(rn, offset, size, rsize / 2));
        done := done + [w];
      }
      rsize := rsize / 2;
    }
    HalfWordsNone(rn, offset, rsize);
  }

  method PutZeroEights(out: WordBuffer, base: Reg, start: int, total: nat)
    requires out.Valid() && HasA64(base)
    modifies out, out.body
    ensures out.Emitted(EightWords(A64No(base), start, total))
  {
    hide WordBuffer.Valid, Encode, Decode, EncodeOne, EncodeAll, MemInstr, EightWords, HalfWords;
    var rn := A64No(base);
    ghost var all, done: seq<U32> := EightWords(rn, start, total), [];
    var offset, size: nat := start, total;
    while size >= 8
      invariant out.Emitted(done) && all == done + EightWords(rn, offset, size)
    {
      EightWordsStep(rn, offset, size);
      MemOp(out, false, XZR, base, offset);
      ghost var w := EncodeOne(MemInstr(3, 0, 31, rn, offset));
      size := size - 8;
      offset := offset + 8;
      Assoc(all, done, w, EightWords(rn, offset, size));
      done := done + [w];
    }
    EightWordsStep(rn, offset, size);
    PutZeroHalves(out, base, offset, size);
  }

  method EmitZerofill(out: WordBuffer, dst: Reg, start: int, dtype: DType)
    requires out.Valid() && HasA64(dst) && dtype.base.Some? && Size(dtype) >= 0
    modifies out, out.body
    ensures AllWellFormed(ZerofillCode(A64No(dst), start, Size(dtype)))
    ensures out.Emitted(EncodeAll(ZerofillCode(A64No(dst), start, Size(dtype))))
  {
    hide WordBuffer.Valid, Encode, Decode, EncodeOne, EncodeAll, PairInstr, EightWords, ZeroWords, ZerofillCode, Size;
    var rn := A64No(dst);
    ZerofillIs(rn, start, Size(dtype));
    ghost var all, done: seq<U32> := ZeroWords(rn, start, Size(dtype)), [];
    var offset, size: nat := start, Size(dtype);
    while size >= 16
      invariant out.Emitted(done) && all == done + ZeroWords(rn, offset, size)
    {
      ZeroWordsStep(rn, offset, size);
      EmitStp(out, XZR, XZR, dst, offset);
      ghost var w := EncodeOne(PairInstr(false, Offset, 31, 31, rn, offset));
      size := size - 16;
      offset := offset + 16;
      Assoc(all, done, w, ZeroWords(rn, offset, size));
      done := done + [w];
    }
    ZeroWordsStep(rn, offset, size);
    PutZeroEights(out, dst, offset, size);
  }

  lemma ZerofillIs(rn: RegNo, offset: int, size: nat)
    ensures AllWellFormed(ZerofillCode(rn, offset, size))
    ensures ZeroWords(rn, offset, size) == EncodeAll(ZerofillCode(rn, offset, size))
  {
    ZerofillWellFormed(rn, offset, size);
  }

  // ---- Function entry and exit ----

  lemma SpWord(sub: bool, rd: RegNo, bytes: nat)
    ensures var i := Frames.SpImm(sub, rd, bytes);
      WellFormed(i) && AddSubImm64(if sub then OP_SUB_SP_IMM else OP_ADD_SP_IMM, rd, 31, bytes) == EncodeOne(i)
  {
    hide Encode;
    AddSubImmWord(true, sub, false, false, bytes % 4096, 31, rd);
  }

  lemma SingleWord(load: bool, rt: RegNo, offset: nat)
    ensures var i := Frames.Single(load, rt, offset);
      WellFormed(i) && StrOff64Word(if load then OP_LDR_OFF64 else OP_STR_OFF64, rt, 31, offset) == EncodeOne(i)
  {
    hide Encode;
    ScaledWord(3, Flag(load), offset / 8 % 4096, 31, rt);
  }

  lemma IndexedWord(load: bool, rt: RegNo, bytes: int)
    ensures var i := LdStOff(3, Flag(load), if load then PostIndex else PreIndex, SignExt(bytes % 512, 512), 31, rt);
      WellFormed(i) && StrImm9Word(if load then OP_LDR_POST else OP_STR_PRE, rt, 31, bytes) == EncodeOne(i)
  {
    hide Decode;
    assert SignExt(bytes % 512, 512) % 512 == bytes % 512;
  }

  function StpWord(base: int, rt: RegNo, rt2: RegNo, rn: RegNo, bytes: int): int {
    base + Quot8(bytes) % 128 * 0x8000 + rt2 * 1024 + rn * 32 + rt
  }

  function StrOff64Word(base: int, rt: RegNo, rn: RegNo, bytes: nat): int {
    base + bytes / 8 % 4096 * 1024 + rn * 32 + rt
  }

  function StrImm9Word(base: int, rt: RegNo, rn: RegNo, bytes: int): int {
    base + bytes % 512 * 4096 + rn * 32 + rt
  }

  function AddSubImm64(base: int, rd: RegNo, rn: RegNo, imm: nat): int {
    base + imm % 4096 * 1024 + rn * 32 + rd
  }

  lemma FramePairWord(load: bool, mode: Mode, rt: RegNo, rt2: RegNo, bytes: int)
    ensures var i := PairInstr(load, mode, rt, rt2, 31, bytes);
      WellFormed(i) && StpWord(PairOp(load, mode), rt, rt2, 31, bytes) == EncodeOne(i)
  {
    hide Encode;
    PairWord(load, mode, rt, rt2, 31, bytes);
  }

  lemma {:induction false} SaveWellFormed(load: bool, rs: seq<RegNo>, offset: nat)
    ensures AllWellFormed(Frames.SaveCode(load, rs, offset))
    decreases |rs|
  {
    hide PairInstr, Frames.Single, WellFormed;
    if |rs| >= 2 {
      FramePairWord(load, Offset, rs[0], rs[1], offset);
      SaveWellFormed(load, rs[2..], offset + 16);
    } else if |rs| == 1 {
      SingleWord(load, rs[0], offset);
    }
  }

  ghost function SaveWords(load: bool, rs: seq<RegNo>, offset: nat): seq<U32> {
    SaveWellFormed(load, rs, offset);
    EncodeAll(Frames.SaveCode(load, rs, offset))
  }

  lemma SaveWordsStep(load: bool, rs: seq<RegNo>, offset: nat)
    ensures |rs| >= 2 ==> var i := PairInstr(load, Offset, rs[0], rs[1], 31, offset);
      WellFormed(i) && SaveWords(load, rs, offset) == [EncodeOne(i)] + SaveWords(load, rs[2..], offset + 16)
    ensures |rs| == 1 ==> var i := Frames.Single(load, rs[0], offset);
      WellFormed(i) && SaveWords(load, rs, offset) == [EncodeOne(i)]
    ensures |rs| == 0 ==> SaveWords(load, rs, offset) == []
  {
    hide Encode, Decode, EncodeOne, PairInstr, Frames.Single, WellFormed;
    if |rs| >= 2 {
      FramePairWord(load, Offset, rs[0], rs[1], offset);
      SaveWellFormed(load, rs[2..], offset + 16);
      EncodeCons(PairInstr(load, Offset, rs[0], rs[1], 31, offset), Frames.SaveCode(load, rs[2..], offset + 16));
    } else if |rs| == 1 {
      SingleWord(load, rs[0], offset);
      OneWord(Frames.Single(load, rs[0], offset));
    }
  }

  /** Save a pair and put its restore. */
  method PutPair(out: WordBuffer, rt: RegNo, rt2: RegNo, offset: nat)
    requires out.Valid()
    modifies out, out.body, out.prol
    ensures WellFormed(PairInstr(false, Offset, rt, rt2, 31, offset)) && WellFormed(PairInstr(true, Offset, rt, rt2, 31, offset))
    ensures out.EmittedBoth([EncodeOne(PairInstr(true, Offset, rt, rt2, 31, offset))],
                            [EncodeOne(PairInstr(false, Offset, rt, rt2, 31, offset))])
  {
    hide WordBuffer.Valid, Encode, Decode, EncodeOne, PairInstr, WellFormed, StpWord;
    FramePairWord(false, Offset, rt, rt2, offset);
    FramePairWord(true, Offset, rt, rt2, offset);
    out.PutPrologue(StpWord(OP_STP_OFF, rt, rt2, 31, offset));
    out.PutWord(StpWord(OP_LDP_OFF, rt, rt2, 31, offset));
  }

  method PutSingle(out: WordBuffer, rt: RegNo, offset: nat)
    requires out.Valid()
    modifies out, out.body, out.prol
    ensures WellFormed(Frames.Single(false, rt, offset)) && WellFormed(Frames.Single(true, rt, offset))
    ensures out.EmittedBoth([EncodeOne(Frames.Single(true, rt, offset))], [EncodeOne(Frames.Single(false, rt, offset))])
  {
    hide WordBuffer.Valid, Encode, Decode, EncodeOne, Frames.Single, WellFormed, StrOff64Word;
    SingleWord(false, rt, offset);
    SingleWord(true, rt, offset);
    out.PutPrologue(StrOff64Word(OP_STR_OFF64, rt, 31, offset));
    out.PutWord(StrOff64Word(OP_LDR_OFF64, rt, 31, offset));
  }

  lemma CalleePair(n: nat)
    requires 2 <= n <= 8
    ensures Frames.CalleeDown(n)[0] == Frames.CALLEE_START + n - 1 && Frames.CalleeDown(n)[1] == Frames.CALLEE_START + n - 2
    ensures Frames.CalleeDown(n)[2..] == Frames.CalleeDown(n - 2)
  {
  }

  /** Pairs of callee-saved registers from the top down, and a last one alone. */
  method PutCalleeSaves(out: WordBuffer, count: nat, start: nat)
    requires out.Valid() && count <= 8
    modifies out, out.body, out.prol
    ensures out.EmittedBoth(SaveWords(true, Frames.CalleeDown(count), start), SaveWords(false, Frames.CalleeDown(count), start))
  {
    hide WordBuffer.Valid, Encode, Decode, EncodeOne, PairInstr, Frames.Single, SaveWords, Frames.CalleeDown, WellFormed;
    var remaining: nat, off: nat := count, start;
    ghost var saves, restores := SaveWords(false, Frames.CalleeDown(count), start), SaveWords(true, Frames.CalleeDown(count), start);
    ghost var saved: seq<U32>, restored: seq<U32> := [], [];
    while remaining > 1
      invariant remaining <= count && out.EmittedBoth(restored, saved)
      invariant saves == saved + SaveWords(false, Frames.CalleeDown(remaining), off)
      invariant restores == restored + SaveWords(true, Frames.CalleeDown(remaining), off)
    {
      var reg0 := Frames.CALLEE_START + remaining - 1;
      var reg1 := reg0 - 1;
      CalleePair(remaining);
      SaveWordsStep(false, Frames.CalleeDown(remaining), off);
      SaveWordsStep(true, Frames.CalleeDown(remaining), off);
      PutPair(out, reg0, reg1, off);
      ghost var w, r := EncodeOne(PairInstr(false, Offset, reg0, reg1, 31, off)), EncodeOne(PairInstr(true, Offset, reg0, reg1, 31, off));
      remaining := remaining - 2;
      off := off + 16;
      Assoc(saves, saved, w, SaveWords(false, Frames.CalleeDown(remaining), off));
      Assoc(restores, restored, r, SaveWords(true, Frames.CalleeDown(remaining), off));
      saved, restored := saved + [w], restored + [r];
    }
    SaveWordsStep(false, Frames.CalleeDown(remaining), off);
    SaveWordsStep(true, Frames.CalleeDown(remaining), off);
    CalleeOne(remaining);
    if remaining == 1 {
      remaining := remaining - 1;
      PutSingle(out, Frames.CALLEE_START + remaining, off);
    }
  }

  lemma CalleeOne(n: nat)
    requires n <= 1
    ensures Frames.CalleeDown(n) == if n == 1 then [Frames.CALLEE_START] else []
  {
  }

  /** How many callee-saved registers follow the first saved pair. */
  function AfterPair(f: Frames.FrameInfo): int { if Frames.NeedsFP(f) then f.maxNregs else f.maxNregs - 2 }

  lemma FirstPairIs(f: Frames.FrameInfo)
    requires Frames.Supported(f) && |Frames.SavedRegs(f)| >= 2
    ensures var rs := Frames.SavedRegs(f);
      && AfterPair(f) >= 0 && rs[2..] == Frames.CalleeDown(AfterPair(f))
      && (if Frames.NeedsFP(f) then rs[0] == Frames.FP && rs[1] == Frames.LR
          else rs[0] == Frames.CALLEE_START + f.maxNregs - 1 && rs[1] == rs[0] - 1)
  {
  }

  ghost function FPWords(f: Frames.FrameInfo): seq<U32> {
    SpWord(false, Frames.FP, Frames.Objs(f));
    if Frames.NeedsFP(f) then [EncodeOne(Frames.SpImm(false, Frames.FP, Frames.Objs(f)))] else []
  }

  lemma SetFPWords(f: Frames.FrameInfo)
    ensures AllWellFormed(Frames.SetFP(f)) && EncodeAll(Frames.SetFP(f)) == FPWords(f)
  {
    hide Encode, Decode, EncodeOne, Frames.SpImm, WellFormed;
    SpWord(false, Frames.FP, Frames.Objs(f));
    if Frames.NeedsFP(f) {
      OneWord(Frames.SpImm(false, Frames.FP, Frames.Objs(f)));
    }
  }

  lemma LocalsWords(f: Frames.FrameInfo)
    requires Frames.Supported(f) && Frames.Objs(f) > 0
    ensures AllWellFormed(Frames.PrologueCode(f)) && AllWellFormed(Frames.EpilogueCode(f))
    ensures var (rs, size, objs) := (Frames.SavedRegs(f), Frames.FrameBytes(f), Frames.Objs(f));
      && WellFormed(Frames.SpImm(true, 31, size)) && WellFormed(Frames.SpImm(false, 31, size))
      && EncodeAll(Frames.PrologueCode(f)) == [EncodeOne(Frames.SpImm(true, 31, size))] + SaveWords(false, rs, objs) + FPWords(f)
      && EncodeAll(Frames.EpilogueCode(f)) == SaveWords(true, rs, objs) + [EncodeOne(Frames.SpImm(false, 31, size))]
  {
    hide Encode, Decode, EncodeOne, Frames.SpImm, WellFormed, Frames.SavedRegs, Frames.SaveCode, Frames.SetFP, FPWords, Frames.Objs, Frames.FrameBytes;
    var (rs, size, objs) := (Frames.SavedRegs(f), Frames.FrameBytes(f), Frames.Objs(f));
    HasLocals(f);
    SpWord(true, 31, size);
    SpWord(false, 31, size);
    SaveWellFormed(false, rs, objs);
    SaveWellFormed(true, rs, objs);
    SetFPWords(f);
    OneWord(Frames.SpImm(false, 31, size));
    EncodeAppend(Frames.SaveCode(true, rs, objs), [Frames.SpImm(false, 31, size)]);
    EncodeCons(Frames.SpImm(true, 31, size), Frames.SaveCode(false, rs, objs));
    EncodeAppend([Frames.SpImm(true, 31, size)] + Frames.SaveCode(false, rs, objs), Frames.SetFP(f));
  }

  lemma HasLocals(f: Frames.FrameInfo)
    requires Frames.Objs(f) > 0
    ensures !Frames.Frameless(f) && Frames.NeedsFP(f)
  {
  }

  lemma PairsWords(f: Frames.FrameInfo)
    requires Frames.Supported(f) && Frames.Objs(f) == 0 && |Frames.SavedRegs(f)| >= 2
    ensures AllWellFormed(Frames.PrologueCode(f)) && AllWellFormed(Frames.EpilogueCode(f))
    ensures var rs, size: int := Frames.SavedRegs(f), Frames.FrameBytes(f);
      var (st, ld) := (PairInstr(false, PreIndex, rs[0], rs[1], 31, -size), PairInstr(true, PostIndex, rs[0], rs[1], 31, size));
      && WellFormed(st) && WellFormed(ld)
      && EncodeAll(Frames.PrologueCode(f)) == [EncodeOne(st)] + SaveWords(false, rs[2..], 16) + FPWords(f)
      && EncodeAll(Frames.EpilogueCode(f)) == SaveWords(true, rs[2..], 16) + [EncodeOne(ld)]
  {
    hide Encode, Decode, EncodeOne, PairInstr, WellFormed, Frames.SavedRegs, Frames.SaveCode, Frames.SetFP, FPWords, Frames.Objs, Frames.FrameBytes;
    var rs, size: int := Frames.SavedRegs(f), Frames.FrameBytes(f);
    var (st, ld) := (PairInstr(false, PreIndex, rs[0], rs[1], 31, -size), PairInstr(true, PostIndex, rs[0], rs[1], 31, size));
    Frames.FrameNonempty(f);
    FramePairWord(false, PreIndex, rs[0], rs[1], -size);
    FramePairWord(true, PostIndex, rs[0], rs[1], size);
    SaveWellFormed(false, rs[2..], 16);
    SaveWellFormed(true, rs[2..], 16);
    SetFPWords(f);
    OneWord(ld);
    EncodeAppend(Frames.SaveCode(true, rs[2..], 16), [ld]);
    EncodeCons(st, Frames.SaveCode(false, rs[2..], 16));
    EncodeAppend([st] + Frames.SaveCode(false, rs[2..], 16), Frames.SetFP(f));
  }

  lemma SingleFrameWords(f: Frames.FrameInfo)
    requires Frames.Supported(f) && Frames.Objs(f) == 0 && |Frames.SavedRegs(f)| == 1
    ensures AllWellFormed(Frames.PrologueCode(f)) && AllWellFormed(Frames.EpilogueCode(f))
    ensures var size: int := Frames.FrameBytes(f);
      var (st, ld) := (LdStOff(3, 0, PreIndex, SignExt(-size % 512, 512), 31, 19), LdStOff(3, 1, PostIndex, SignExt(size % 512, 512), 31, 19));
      && WellFormed(st) && WellFormed(ld)
      && EncodeAll(Frames.PrologueCode(f)) == [EncodeOne(st)] && EncodeAll(Frames.EpilogueCode(f)) == [EncodeOne(ld)]
  {
    hide Encode, Decode, EncodeOne, WellFormed, Frames.SavedRegs;
    var size: int := Frames.FrameBytes(f);
    OneSaved(f);
    IndexedWord(false, 19, -size);
    IndexedWord(true, 19, size);
    OneWord(LdStOff(3, 0, PreIndex, SignExt(-size % 512, 512), 31, 19));
    OneWord(LdStOff(3, 1, PostIndex, SignExt(size % 512, 512), 31, 19));
  }

  lemma OneSaved(f: Frames.FrameInfo)
    requires Frames.Supported(f) && |Frames.SavedRegs(f)| == 1
    ensures Frames.SavedRegs(f) == [19] && !Frames.NeedsFP(f) && f.maxNregs == 1
  {
  }

  method PutSetFP(out: WordBuffer, f: Frames.FrameInfo)
    requires out.Valid()
    modifies out, out.prol
    ensures out.EmittedBoth([], FPWords(f))
  {
    hide WordBuffer.Valid, Encode, Decode, EncodeOne, Frames.SpImm, AddSubImm64, Frames.Objs;
    if Frames.NeedsFP(f) {
      SpWord(false, Frames.FP, Frames.Objs(f));
      out.PutPrologue(AddSubImm64(OP_ADD_SP_IMM, 29, 31, Frames.Objs(f)));
    }
  }

  method PutFrameWithLocals(out: WordBuffer, f: Frames.FrameInfo)
    requires out.Valid() && Frames.Supported(f) && Frames.Objs(f) > 0
    modifies out, out.body, out.prol
    ensures AllWellFormed(Frames.PrologueCode(f)) && AllWellFormed(Frames.EpilogueCode(f))
    ensures out.EmittedBoth(EncodeAll(Frames.EpilogueCode(f)), EncodeAll(Frames.PrologueCode(f)))
  {
    hide WordBuffer.Valid, Encode, Decode, EncodeOne, EncodeAll, PairInstr, Frames.SpImm, AddSubImm64, SaveWords, FPWords;
    hide Frames.SavedRegs, Frames.Objs, Frames.FrameBytes, Frames.PrologueCode, Frames.EpilogueCode, WellFormed, Frames.CalleeDown;
    var stackSize, off := Frames.FrameBytes(f), Frames.Objs(f);
    LocalsWords(f);
    HasLocals(f);
    LocalsSaved(f);
    FirstPairIs(f);
    SaveWordsStep(false, Frames.SavedRegs(f), off);
    SaveWordsStep(true, Frames.SavedRegs(f), off);
    SpWord(true, 31, stackSize);
    SpWord(false, 31, stackSize);
    out.PutPrologue(AddSubImm64(OP_SUB_SP_IMM, 31, 31, stackSize));
    PutPair(out, 29, 30, off);
    PutCalleeSaves(out, f.maxNregs, off + 16);
    PutSetFP(out, f);
    out.PutWord(AddSubImm64(OP_ADD_SP_IMM, 31, 31, stackSize));
  }

  lemma LocalsSaved(f: Frames.FrameInfo)
    requires Frames.Supported(f) && Frames.NeedsFP(f)
    ensures |Frames.SavedRegs(f)| >= 2
  {
  }

  method PutFrameWithPairs(out: WordBuffer, f: Frames.FrameInfo)
    requires out.Valid() && Frames.Supported(f) && Frames.Objs(f) == 0 && |Frames.SavedRegs(f)| >= 2
    modifies out, out.body, out.prol
    ensures AllWellFormed(Frames.PrologueCode(f)) && AllWellFormed(Frames.EpilogueCode(f))
    ensures out.EmittedBoth(EncodeAll(Frames.EpilogueCode(f)), EncodeAll(Frames.PrologueCode(f)))
  {
    hide WordBuffer.Valid, Encode, Decode, EncodeOne, EncodeAll, PairInstr, StpWord, SaveWords, FPWords;
    hide Frames.SavedRegs, Frames.Objs, Frames.FrameBytes, Frames.PrologueCode, Frames.EpilogueCode, WellFormed, Frames.CalleeDown;
    var stackSize: int := Frames.FrameBytes(f);
    var reg0: RegNo, reg1: RegNo := 29, 30;
    PairsWords(f);
    FirstPairIs(f);
    if !Frames.NeedsFP(f) {
      reg0 := Frames.CALLEE_START + f.maxNregs - 1;
      reg1 := reg0 - 1;
    }
    FramePairWord(false, PreIndex, reg0, reg1, -stackSize);
    FramePairWord(true, PostIndex, reg0, reg1, stackSize);
    out.PutPrologue(StpWord(OP_STP_PRE, reg0, reg1, 31, -stackSize));
    PutCalleeSaves(out, AfterPair(f), 16);
    PutSetFP(out, f);
    out.PutWord(StpWord(OP_LDP_POST, reg0, reg1, 31, stackSize));
  }

  method PutFrameWithOne(out: WordBuffer, f: Frames.FrameInfo)
    requires out.Valid() && Frames.Supported(f) && Frames.Objs(f) == 0 && |Frames.SavedRegs(f)| == 1
    modifies out, out.body, out.prol
    ensures AllWellFormed(Frames.PrologueCode(f)) && AllWellFormed(Frames.EpilogueCode(f))
    ensures out.EmittedBoth(EncodeAll(Frames.EpilogueCode(f)), EncodeAll(Frames.PrologueCode(f)))
  {
    hide WordBuffer.Valid, Encode, Decode, EncodeOne, EncodeAll, Frames.FrameBytes, Frames.PrologueCode, Frames.EpilogueCode, WellFormed, StrImm9Word;
    var stackSize: int := Frames.FrameBytes(f);
    SingleFrameWords(f);
    IndexedWord(false, 19, -stackSize);
    IndexedWord(true, 19, stackSize);
    out.PutPrologue(StrImm9Word(OP_STR_PRE, 19, 31, -stackSize));
    out.PutWord(StrImm9Word(OP_LDR_POST, 19, 31, stackSize));
  }

  /** The prologue goes to its own buffer; the epilogue continues the body. */
  method EmitFnPrologueEpilogue(out: WordBuffer, f: Frames.FrameInfo) returns (ok: bool)
    requires out.Valid()
    modifies out, out.body, out.prol
    ensures out.Valid() && (old(out.failed) ==> out.failed)
    ensures ok <==> Frames.Supported(f)
    ensures !ok ==> out.failed
    ensures ok ==>
      && AllWellFormed(Frames.PrologueCode(f)) && AllWellFormed(Frames.EpilogueCode(f))
      && out.prolStream == EncodeAll(Frames.PrologueCode(f))
      && out.bodyStream == old(out.bodyStream) + EncodeAll(Frames.EpilogueCode(f))
  {
    hide WordBuffer.Valid, EncodeAll, Frames.PrologueCode, Frames.EpilogueCode, Frames.SavedRegs, Frames.Objs, WellFormed;
    out.ResetPrologue();
    if !f.calls && f.maxNregs == 0 && f.locals == 0 {
      Frames.FramelessCode(f);
      NoWords();
      return true;
    }
    if f.maxNregs + Frames.CALLEE_START >= 28 {
      out.Fail();
      return false;
    }
    Frames.SavedNone(f);
    if Frames.Objs(f) > 0 {
      PutFrameWithLocals(out, f);
    } else if |Frames.SavedRegs(f)| > 1 {
      PutFrameWithPairs(out, f);
    } else {
      PutFrameWithOne(out, f);
    }
    return true;
  }

  lemma NoWords()
    ensures EncodeAll([]) == []
  {
  }
}
