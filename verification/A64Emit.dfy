// The AArch64 emitters: words built from opcode constants and shifted fields, put into the
// buffers one after the other.
module A64Emit {
  import opened Words
  import opened TypeSys
  import opened Registers
  import opened A64Instr
  import opened A64Machine
  import opened A64Buffer
  import opened A64Moves
  import opened A64Bits
  import opened A64Lower
  import opened A64Sums
  import opened A64Compare
  import opened A64Stores

  const OP_MOVN := 0x12800000
  const OP_MOVZ := 0x52800000
  const OP_MOVK := 0x72800000
  const OP_ORR_REG := 0x2a000000
  const OP_ADD_IMM := 0x11000000
  const OP_SUB_IMM := 0x51000000
  const OP_SUBS_IMM := 0x71000000
  const ADDSUB_NEG_BIT := 0x40000000
  const OP_ADD_REG := 0x0b000000
  const OP_SUB_REG := 0x4b000000
  const OP_SUBS_REG := 0x6b000000
  const ADDSUB_EXT_BIT := 0x00200000
  const OP_UBFM32 := 0x53000000
  const OP_UBFM64 := 0xd3400000
  const OP_BFM32 := 0x33000000
  const OP_BFM64 := 0xb3400000
  const OP_SBFM64 := 0x93400000
  const OP_AND_IMM32 := 0x12000000
  const OP_AND_IMM64 := 0x92400000
  const OP_LDST_USCALED := 0x39000000
  const OP_LDST_UNSCALED := 0x38000000
  const LDST_LOAD := 0x00400000
  const OP_SUB_SP_IMM := 0xd1000000
  const OP_ADD_SP_IMM := 0x91000000
  const OP_STP_OFF := 0xa9000000
  const OP_LDP_OFF := 0xa9400000
  const OP_STP_PRE := 0xa9800000
  const OP_LDP_POST := 0xa8c00000
  const OP_STR_PRE := 0xf8000c00
  const OP_LDR_POST := 0xf8400400
  const OP_STR_OFF64 := 0xf9000000
  const OP_LDR_OFF64 := 0xf9400000

  const BIT31 := 0x80000000

  function SF(x: bool): int { if x then BIT31 else 0 }

  // ---- The word of each form is its architectural encoding ----

  function MoveOp(kind: Wide): int { match kind case MovN => OP_MOVN case MovZ => OP_MOVZ case MovK => OP_MOVK }

  lemma MoveWord(x: bool, kind: Wide, hw: nat, imm16: nat, rd: RegNo)
    requires imm16 < P16 && hw < 4
    ensures SF(x) + MoveOp(kind) + hw * 0x20_0000 + imm16 * 32 + rd == Encode(MoveWide(x, kind, hw, imm16, rd)) < P32
  {
  }

  lemma AddSubImmWord(x: bool, sub: bool, flags: bool, sh: bool, imm12: nat, rn: RegNo, rd: RegNo)
    requires imm12 < 4096
    ensures SF(x) + OP_ADD_IMM + (if sub then ADDSUB_NEG_BIT else 0) + (if flags then 0x2000_0000 else 0)
        + Flag(sh) * 0x40_0000 + imm12 * 1024 + rn * 32 + rd
      == Encode(AddSubImm(x, sub, flags, sh, imm12, rn, rd)) < P32
  {
  }

  lemma AddSubRegWord(x: bool, sub: bool, flags: bool, rm: RegNo, lsl: nat, rn: RegNo, rd: RegNo)
    requires lsl < 64
    ensures SF(x) + OP_ADD_REG + (if sub then ADDSUB_NEG_BIT else 0) + (if flags then 0x2000_0000 else 0)
        + rm * P16 + lsl * 1024 + rn * 32 + rd
      == Encode(AddSubReg(x, sub, flags, rm, lsl, rn, rd)) < P32
  {
  }

  lemma AddSubExtWord(x: bool, sub: bool, flags: bool, rm: RegNo, option: nat, imm3: nat, rn: RegNo, rd: RegNo)
    requires option < 8 && imm3 < 8
    ensures SF(x) + OP_ADD_REG + (if sub then ADDSUB_NEG_BIT else 0) + (if flags then 0x2000_0000 else 0) + ADDSUB_EXT_BIT
        + rm * P16 + option * 0x2000 + imm3 * 1024 + rn * 32 + rd
      == Encode(AddSubExt(x, sub, flags, rm, option, imm3, rn, rd)) < P32
  {
  }

  lemma OrrWord(x: bool, rm: RegNo, rd: RegNo)
    ensures SF(x) + OP_ORR_REG + rm * P16 + 0x3e0 + rd == Encode(OrrReg(x, rm, 31, rd)) < P32
  {
  }

  lemma AndWord(x: bool, nbits: nat, rn: RegNo, rd: RegNo)
    requires 1 <= nbits <= 64
    ensures (if x then OP_AND_IMM64 else OP_AND_IMM32) + (nbits - 1) * 1024 + rn * 32 + rd
      == Encode(AndLowBits(x, rn, nbits, rd)) < P32
  {
  }

  function BitfieldOp(x: bool, kind: BitKind): int {
    match kind
    case Ubfm => if x then OP_UBFM64 else OP_UBFM32
    case Bfm => if x then OP_BFM64 else OP_BFM32
    case Sbfm => OP_SBFM64
  }

  lemma BitfieldWord(x: bool, kind: BitKind, immr: nat, imms: nat, rn: RegNo, rd: RegNo)
    requires immr < 64 && imms < 64 && (kind == Sbfm ==> x)
    ensures BitfieldOp(x, kind) + immr * P16 + imms * 1024 + rn * 32 + rd
      == Encode(Bitfield(x, kind, immr, imms, rn, rd)) < P32
  {
  }

  lemma ScaledWord(size: nat, opc: nat, imm12: nat, rn: RegNo, rt: RegNo)
    requires size < 4 && opc < 4 && imm12 < 4096
    ensures size * 0x4000_0000 + OP_LDST_USCALED + opc * LDST_LOAD + imm12 * 1024 + rn * 32 + rt
      == Encode(LdStScaled(size, opc, imm12, rn, rt)) < P32
  {
  }

  lemma UnscaledWord(size: nat, opc: nat, imm9: nat, rn: RegNo, rt: RegNo)
    requires size < 4 && opc < 4 && imm9 < 512
    ensures size * 0x4000_0000 + OP_LDST_UNSCALED + opc * LDST_LOAD + imm9 * 4096 + rn * 32 + rt
      == Encode(LdStOff(size, opc, Offset, SignExt(imm9, 512), rn, rt)) < P32
  {
    assert SignExt(imm9, 512) % 512 == imm9;
  }

  function PairOp(load: bool, mode: Mode): int {
    match mode
    case Offset => if load then OP_LDP_OFF else OP_STP_OFF
    case PreIndex => if load then OP_STP_PRE + 0x40_0000 else OP_STP_PRE
    case PostIndex => if load then OP_LDP_POST else OP_LDP_POST - 0x40_0000
  }

  lemma PairWord(load: bool, mode: Mode, rt: RegNo, rt2: RegNo, rn: RegNo, bytes: int)
    ensures PairOp(load, mode) + Quot8(bytes) % 128 * 0x8000 + rt2 * 1024 + rn * 32 + rt
      == Encode(PairInstr(load, mode, rt, rt2, rn, bytes)) < P32
  {
    assert SignExt(Quot8(bytes) % 128, 128) % 128 == Quot8(bytes) % 128;
  }

  // ---- Constants ----

  method PutMoveWide(out: WordBuffer, x: bool, kind: Wide, hw: nat, imm16: nat, rd: RegNo)
    requires out.Valid() && imm16 < P16 && hw < (if x then 4 else 2)
    modifies out, out.body
    ensures out.Emitted([EncodeOne(MoveWide(x, kind, hw, imm16, rd))])
  {
    hide WordBuffer.Valid, Encode, Decode;
    MoveWord(x, kind, hw, imm16, rd);
    out.PutWord(SF(x) + MoveOp(kind) + hw * 0x20_0000 + imm16 * 32 + rd);
  }

  /** How many lanes differ from zero and from all ones. */
  method CountLanes(uv: U64, lanes: nat) returns (movz: nat, movn: nat)
    requires lanes <= 4
    ensures movz == Differing(uv, 0, lanes, 0) && movn == Differing(uv, 0, lanes, ONES)
  {
    hide Lane;
    movz, movn := 0, 0;
    for lane := 0 to lanes
      invariant movz + Differing(uv, lane, lanes, 0) == Differing(uv, 0, lanes, 0)
      invariant movn + Differing(uv, lane, lanes, ONES) == Differing(uv, 0, lanes, ONES)
    {
      var chunk := Lane(uv, lane);
      if chunk != 0 {
        movz := movz + 1;
      }
      if chunk != ONES {
        movn := movn + 1;
      }
    }
  }

  lemma {:induction false} KeepsWellFormed(x: bool, rd: RegNo, uv: U64, lane: nat, lanes: nat, c: int)
    requires lanes <= (if x then 4 else 2)
    ensures AllWellFormed(Keeps(x, rd, uv, lane, lanes, c))
    decreases lanes - lane
  {
    hide Lane;
    if lane < lanes {
      KeepsWellFormed(x, rd, uv, lane + 1, lanes, c);
    }
  }

  lemma {:induction false} InvertedWellFormed(x: bool, rd: RegNo, uv: U64, lane: nat, lanes: nat)
    requires lanes <= (if x then 4 else 2)
    ensures AllWellFormed(Inverted(x, rd, uv, lane, lanes))
    decreases lanes - lane
  {
    hide Lane;
    if lane < lanes {
      InvertedWellFormed(x, rd, uv, lane + 1, lanes);
      KeepsWellFormed(x, rd, uv, lane + 1, lanes, ONES);
    }
  }

  ghost function KeepsWords(x: bool, rd: RegNo, uv: U64, lane: nat, lanes: nat, c: int): seq<U32>
    requires lanes <= (if x then 4 else 2)
  {
    KeepsWellFormed(x, rd, uv, lane, lanes, c);
    EncodeAll(Keeps(x, rd, uv, lane, lanes, c))
  }

  ghost function InvertedWords(x: bool, rd: RegNo, uv: U64, lane: nat, lanes: nat): seq<U32>
    requires lanes <= (if x then 4 else 2)
  {
    InvertedWellFormed(x, rd, uv, lane, lanes);
    EncodeAll(Inverted(x, rd, uv, lane, lanes))
  }

  lemma KeepsStep(x: bool, rd: RegNo, uv: U64, lane: nat, lanes: nat, c: int)
    requires lane < lanes <= (if x then 4 else 2)
    ensures KeepsWords(x, rd, uv, lane, lanes, c) ==
      (if Lane(uv, lane) == c then [] else [EncodeOne(MoveWide(x, MovK, lane, Lane(uv, lane), rd))])
      + KeepsWords(x, rd, uv, lane + 1, lanes, c)
  {
    hide Lane, EncodeOne;
    KeepsWellFormed(x, rd, uv, lane + 1, lanes, c);
    EncodeCons(MoveWide(x, MovK, lane, Lane(uv, lane), rd), Keeps(x, rd, uv, lane + 1, lanes, c));
  }

  lemma InvertedStep(x: bool, rd: RegNo, uv: U64, lane: nat, lanes: nat)
    requires lane < lanes <= (if x then 4 else 2)
    ensures InvertedWords(x, rd, uv, lane, lanes) ==
      if Lane(uv, lane) == ONES then InvertedWords(x, rd, uv, lane + 1, lanes)
      else [EncodeOne(MoveWide(x, MovN, lane, ONES - Lane(uv, lane), rd))] + KeepsWords(x, rd, uv, lane + 1, lanes, ONES)
  {
    hide Lane, EncodeOne;
    KeepsWellFormed(x, rd, uv, lane + 1, lanes, ONES);
    if Lane(uv, lane) != ONES {
      EncodeCons(MoveWide(x, MovN, lane, ONES - Lane(uv, lane), rd), Keeps(x, rd, uv, lane + 1, lanes, ONES));
    }
  }

  lemma LoopsEnd(x: bool, rd: RegNo, uv: U64, lanes: nat, c: int)
    requires lanes <= (if x then 4 else 2)
    ensures KeepsWords(x, rd, uv, lanes, lanes, c) == []
    ensures InvertedWords(x, rd, uv, lanes, lanes) == [EncodeOne(MoveWide(x, MovN, 0, 0, rd))]
  {
    hide EncodeOne;
    EncodeCons(MoveWide(x, MovN, 0, 0, rd), []);
  }

  /** What the inverting loop still has to put. */
  ghost function InvertedTail(init: bool, x: bool, rd: RegNo, uv: U64, lane: nat, lanes: nat): seq<U32>
    requires lanes <= (if x then 4 else 2)
  {
    if init then KeepsWords(x, rd, uv, lane, lanes, ONES) else InvertedWords(x, rd, uv, lane, lanes)
  }

  lemma InvertedTailStep(init: bool, x: bool, rd: RegNo, uv: U64, lane: nat, lanes: nat)
    requires lane < lanes <= (if x then 4 else 2)
    ensures var chunk := Lane(uv, lane);
      InvertedTail(init, x, rd, uv, lane, lanes) ==
        if chunk == ONES then InvertedTail(init, x, rd, uv, lane + 1, lanes)
        else
          [EncodeOne(if init then MoveWide(x, MovK, lane, chunk, rd) else MoveWide(x, MovN, lane, ONES - chunk, rd))]
          + InvertedTail(true, x, rd, uv, lane + 1, lanes)
  {
    hide Lane, EncodeOne, KeepsWords, InvertedWords;
    KeepsStep(x, rd, uv, lane, lanes, ONES);
    InvertedStep(x, rd, uv, lane, lanes);
  }

  lemma Assoc(total: seq<U32>, done: seq<U32>, w: U32, rest: seq<U32>)
    requires total == done + ([w] + rest)
    ensures total == (done + [w]) + rest
  {
  }

  method PutInverted(out: WordBuffer, x: bool, rd: RegNo, uv: U64, lanes: nat)
    requires out.Valid() && lanes == (if x then 4 else 2)
    modifies out, out.body
    ensures out.Emitted(InvertedWords(x, rd, uv, 0, lanes))
  {
    hide WordBuffer.Valid, Lane, EncodeOne, EncodeAll, Inverted, Keeps, KeepsWords, InvertedWords, InvertedTail, Encode, Decode;
    ghost var all := InvertedTail(false, x, rd, uv, 0, lanes);
    ghost var done: seq<U32> := [];
    var initialized := false;
    for lane := 0 to lanes
      invariant out.Emitted(done)
      invariant all == done + InvertedTail(initialized, x, rd, uv, lane, lanes)
    {
      var chunk := Lane(uv, lane);
      InvertedTailStep(initialized, x, rd, uv, lane, lanes);
      if chunk != ONES {
        var kind, imm := if initialized then MovK else MovN, if initialized then chunk else ONES - chunk;
        PutMoveWide(out, x, kind, lane, imm, rd);
        ghost var w := EncodeOne(MoveWide(x, kind, lane, imm, rd));
        initialized := true;
        Assoc(all, done, w, InvertedTail(true, x, rd, uv, lane + 1, lanes));
        done := done + [w];
      }
    }
    InvertedTailEnd(initialized, x, rd, uv, lanes);
    if !initialized {
      PutMoveWide(out, x, MovN, 0, 0, rd);
    }
  }

  lemma InvertedTailEnd(init: bool, x: bool, rd: RegNo, uv: U64, lanes: nat)
    requires lanes <= (if x then 4 else 2)
    ensures InvertedTail(init, x, rd, uv, lanes, lanes) == if init then [] else [EncodeOne(MoveWide(x, MovN, 0, 0, rd))]
    ensures InvertedTail(false, x, rd, uv, 0, lanes) == InvertedWords(x, rd, uv, 0, lanes)
  {
    LoopsEnd(x, rd, uv, lanes, ONES);
  }

  /** The direct strategy from a lane on; the first lane is always put. */
  ghost function DirectTail(x: bool, rd: RegNo, uv: U64, lane: nat, lanes: nat): seq<U32>
    requires lanes <= (if x then 4 else 2)
  {
    if lane == 0 then [EncodeOne(MoveWide(x, MovZ, 0, Lane(uv, 0), rd))] + KeepsWords(x, rd, uv, 1, lanes, 0)
    else KeepsWords(x, rd, uv, lane, lanes, 0)
  }

  lemma DirectTailStep(x: bool, rd: RegNo, uv: U64, lane: nat, lanes: nat)
    requires lane < lanes <= (if x then 4 else 2)
    ensures var chunk := Lane(uv, lane);
      DirectTail(x, rd, uv, lane, lanes) ==
        if chunk == 0 && lane > 0 then DirectTail(x, rd, uv, lane + 1, lanes)
        else
          [EncodeOne(MoveWide(x, if lane > 0 then MovK else MovZ, lane, chunk, rd))]
          + DirectTail(x, rd, uv, lane + 1, lanes)
  {
    hide Lane, EncodeOne, KeepsWords;
    KeepsStep(x, rd, uv, lane, lanes, 0);
  }

  method PutDirect(out: WordBuffer, x: bool, rd: RegNo, uv: U64, lanes: nat)
    requires out.Valid() && lanes == (if x then 4 else 2)
    modifies out, out.body
    ensures out.Emitted(DirectTail(x, rd, uv, 0, lanes))
  {
    hide WordBuffer.Valid, Lane, EncodeOne, EncodeAll, Keeps, KeepsWords, DirectTail;
    ghost var all := DirectTail(x, rd, uv, 0, lanes);
    ghost var done: seq<U32> := [];
    var initialized := false;
    for lane := 0 to lanes
      invariant out.Emitted(done) && initialized == (lane > 0)
      invariant all == done + DirectTail(x, rd, uv, lane, lanes)
    {
      var chunk := Lane(uv, lane);
      DirectTailStep(x, rd, uv, lane, lanes);
      if !(chunk == 0 && initialized) {
        var kind := if initialized then MovK else MovZ;
        PutMoveWide(out, x, kind, lane, chunk, rd);
        ghost var w := EncodeOne(MoveWide(x, kind, lane, chunk, rd));
        Assoc(all, done, w, DirectTail(x, rd, uv, lane + 1, lanes));
        done := done + [w];
        initialized := true;
      }
    }
    DirectTailEnd(x, rd, uv, lanes);
  }

  lemma DirectTailEnd(x: bool, rd: RegNo, uv: U64, lanes: nat)
    requires lanes == (if x then 4 else 2)
    ensures DirectTail(x, rd, uv, lanes, lanes) == []
  {
    LoopsEnd(x, rd, uv, lanes, 0);
  }

  lemma MovCodeWords(wide: bool, rd: RegNo, value: int)
    ensures var code := MovCode(wide, rd, value); var x := NeedsX(wide, value);
      var (uv, lanes) := (value % P64, if x then 4 else 2);
      && AllWellFormed(code)
      && EncodeAll(code) ==
        if Differing(uv, 0, lanes, ONES) < Differing(uv, 0, lanes, 0) then InvertedWords(x, rd, uv, 0, lanes)
        else DirectTail(x, rd, uv, 0, lanes)
  {
    hide Lane, EncodeOne, Inverted, Keeps;
    var x := NeedsX(wide, value);
    var (uv, lanes) := (value % P64, if x then 4 else 2);
    InvertedWellFormed(x, rd, uv, 0, lanes);
    KeepsWellFormed(x, rd, uv, 1, lanes, 0);
    EncodeCons(MoveWide(x, MovZ, 0, Lane(uv, 0), rd), Keeps(x, rd, uv, 1, lanes, 0));
  }

  method EmitMov(out: WordBuffer, dst: Reg, value: int)
    requires out.Valid() && HasA64(dst) && IsI64(value)
    modifies out, out.body
    ensures AllWellFormed(MovCode(Is64(dst), A64No(dst), value))
    ensures out.Emitted(EncodeAll(MovCode(Is64(dst), A64No(dst), value)))
  {
    hide WordBuffer.Valid, Lane, EncodeOne, EncodeAll, Keeps, KeepsWords, InvertedWords, DirectTail, MovCode, Differing;
    var x, rd := Is64(dst), A64No(dst);
    MovCodeWords(x, rd, value);
    if value >= P32 || value < 0 {
      x := true;
    }
    var lanes := if x then 4 else 2;
    var uv := value % P64;
    var movz, movn := CountLanes(uv, lanes);
    if movn < movz {
      PutInverted(out, x, rd, uv, lanes);
      return;
    }
    PutDirect(out, x, rd, uv, lanes);
  }

  // ---- Register moves and arithmetic ----

  /** A sequence of one instruction. */
  lemma OneWord(i: Instr)
    requires WellFormed(i)
    ensures AllWellFormed([i]) && EncodeAll([i]) == [EncodeOne(i)]
  {
    hide WellFormed, EncodeOne;
    EncodeCons(i, []);
  }

  method EmitAndLowBits(out: WordBuffer, dst: Reg, src: Reg, nbits: nat)
    requires out.Valid() && HasA64(dst) && HasA64(src) && 1 <= nbits <= 64
    modifies out, out.body
    ensures out.Emitted([EncodeOne(AndLowBits(Is64(dst), A64No(src), nbits, A64No(dst)))])
  {
    hide WordBuffer.Valid, Encode, Decode;
    AndWord(Is64(dst), nbits, A64No(src), A64No(dst));
    out.PutWord((if Is64(dst) then OP_AND_IMM64 else OP_AND_IMM32) + (nbits - 1) * 1024 + A64No(src) * 32 + A64No(dst));
  }

  method EmitMovReg(out: WordBuffer, dst: Reg, src: Reg)
    requires out.Valid() && HasA64(dst) && HasA64(src)
    requires src.dtype.base.Some? ==> 1 <= src.dtype.base.value.size <= 8
    modifies out, out.body
    ensures AllWellFormed(MovRegCode(dst, src)) && out.Emitted(EncodeAll(MovRegCode(dst, src)))
  {
    hide WordBuffer.Valid, Encode, EncodeOne, Decode;
    ghost var code := MovRegCode(dst, src);
    var same := Eq(dst.dtype, src.dtype);
    if dst.offset == src.offset && dst.rsize == src.rsize && dst.kind == src.kind && same {
      return;
    }
    OneWord(MovRegInstr(dst, src));
    var rd, rn := A64No(dst), A64No(src);
    var dsize := if TryGetAddr(dst.dtype) != 0 then 8 else dst.rsize;
    if dsize > 4 && src.rsize <= 4 && src.dtype.base.Some? {
      var st := src.dtype.base.value;
      if st.signed {
        var imms := st.size * 8 - 1;
        BitfieldWord(true, Sbfm, 0, imms, rn, rd);
        out.PutWord(OP_SBFM64 + imms * 1024 + rn * 32 + rd);
        return;
      }
      if st.size < 4 {
        EmitAndLowBits(out, dst, src, st.size * 8);
        return;
      }
      OrrWord(false, rn, rd);
      out.PutWord(OP_ORR_REG + rn * P16 + 0x3e0 + rd);
      return;
    }
    OrrWord(dsize > 4, rn, rd);
    out.PutWord(SF(dsize > 4) + OP_ORR_REG + 0x3e0 + rn * P16 + rd);
  }

  /** The add/subtract opcode with its direction flipped. */
  function Flipped(base: int): int {
    if base / ADDSUB_NEG_BIT % 2 == 1 then base - ADDSUB_NEG_BIT else base + ADDSUB_NEG_BIT
  }

  function ImmBase(sub: bool, flags: bool): int { if flags then OP_SUBS_IMM else if sub then OP_SUB_IMM else OP_ADD_IMM }

  method AddSubImmediate(out: WordBuffer, sub: bool, flags: bool, dst: Reg, lhs: Reg, rhs: int)
    requires out.Valid() && HasA64(dst) && HasA64(lhs) && IsI64(rhs) && (flags ==> sub)
    modifies out, out.body
    ensures out.Emitted([EncodeOne(AddSubImmInstr(sub, flags, dst, lhs, rhs))])
  {
    hide WordBuffer.Valid, Encode, Decode;
    var base := ImmBase(sub, flags);
    var sh := 0;
    var imm := if rhs < 0 then -rhs else rhs;
    if rhs < 0 {
      base := Flipped(base);
    }
    if imm > 0xfff {
      sh := 1;
      imm := imm / 4096;
    }
    AddSubImmWord(Is64(dst), sub != (rhs < 0), flags, sh == 1, imm % 4096, A64No(lhs), A64No(dst));
    out.PutWord(SF(Is64(dst)) + base + sh * 0x40_0000 + imm % 4096 * 1024 + A64No(lhs) * 32 + A64No(dst));
  }

  /** emit_add and emit_sub with a constant. */
  method EmitAddSub(out: WordBuffer, sub: bool, dst: Reg, lhs: Reg, rhs: int)
    requires out.Valid() && HasA64(dst) && HasA64(lhs) && IsI64(rhs)
    requires lhs.dtype.base.Some? ==> 1 <= lhs.dtype.base.value.size <= 8
    modifies out, out.body
    ensures AllWellFormed(AddCode(sub, dst, lhs, rhs)) && out.Emitted(EncodeAll(AddCode(sub, dst, lhs, rhs)))
  {
    hide WordBuffer.Valid, EncodeOne, EncodeAll;
    if rhs == 0 {
      EmitMovReg(out, dst, lhs);
      return;
    }
    OneWord(AddSubImmInstr(sub, false, dst, lhs, rhs));
    AddSubImmediate(out, sub, false, dst, lhs, rhs);
  }

  method EmitCmp(out: WordBuffer, lhs: Reg, rhs: int)
    requires out.Valid() && HasA64(lhs) && IsI64(rhs)
    modifies out, out.body
    ensures out.Emitted([EncodeOne(AddSubImmInstr(true, true, Reg(RdNone, 0, lhs.rsize, NoType), lhs, rhs))])
  {
    var zr := Reg(RdNone, 0, lhs.rsize, NoType);
    AddSubImmediate(out, true, true, zr, lhs, rhs);
  }

  function RegBase(sub: bool, flags: bool): int { if flags then OP_SUBS_REG else if sub then OP_SUB_REG else OP_ADD_REG }

  method AddSubRegister(out: WordBuffer, sub: bool, flags: bool, dst: Reg, lhs: Reg, rhs: Reg)
    requires out.Valid() && HasA64(dst) && HasA64(lhs) && HasA64(rhs) && (flags ==> sub)
    modifies out, out.body
    ensures out.Emitted([EncodeOne(PlainInstr(sub, flags, dst, lhs, rhs))])
  {
    hide WordBuffer.Valid, Encode, Decode;
    AddSubRegWord(Is64(dst), sub, flags, A64No(rhs), 0, A64No(lhs), A64No(dst));
    out.PutWord(SF(Is64(dst)) + RegBase(sub, flags) + A64No(rhs) * P16 + A64No(lhs) * 32 + A64No(dst));
  }

  method AddSubExtended(out: WordBuffer, sub: bool, flags: bool, dst: Reg, wide: Reg, narrow: Reg, imm3: nat)
    requires out.Valid() && imm3 <= 4 && HasA64(dst) && HasA64(wide) && HasA64(narrow) && (flags ==> sub)
    modifies out, out.body
    ensures out.Emitted([EncodeOne(ExtInstr(sub, flags, dst, wide, narrow, imm3))])
  {
    hide WordBuffer.Valid, Encode, ExtOption;
    AddSubExtWord(Is64(wide), sub, flags, A64No(narrow), ExtOption(narrow), imm3, A64No(wide), A64No(dst));
    out.PutWord(RegBase(sub, flags) + ADDSUB_EXT_BIT + SF(Is64(wide))
      + A64No(narrow) * P16 + ExtOption(narrow) * 0x2000 + imm3 * 1024 + A64No(wide) * 32 + A64No(dst));
  }

  method EmitAddReg(out: WordBuffer, dst: Reg, lhs: Reg, rhs: Reg)
    requires out.Valid() && HasA64(dst) && HasA64(lhs) && HasA64(rhs)
    modifies out, out.body
    ensures AllWellFormed(AddRegCode(dst, lhs, rhs)) && out.Emitted(EncodeAll(AddRegCode(dst, lhs, rhs)))
  {
    hide WordBuffer.Valid, EncodeOne, EncodeAll;
    OneWord(AddRegCode(dst, lhs, rhs)[0]);
    assert AddRegCode(dst, lhs, rhs) == [AddRegCode(dst, lhs, rhs)[0]];
    if lhs.rsize != rhs.rsize {
      var wide := if lhs.rsize > rhs.rsize then lhs else rhs;
      var narrow := if lhs.rsize > rhs.rsize then rhs else lhs;
      AddSubExtended(out, false, false, dst, wide, narrow, 0);
      return;
    }
    AddSubRegister(out, false, false, dst, lhs, rhs);
  }

  method EmitSubReg(out: WordBuffer, dst: Reg, lhs: Reg, rhs: Reg)
    requires out.Valid() && HasA64(dst) && HasA64(lhs) && HasA64(rhs)
    requires lhs.dtype.base.Some? ==> 1 <= lhs.dtype.base.value.size <= 8
    modifies out, out.body
    ensures AllWellFormed(SubRegCode(dst, lhs, rhs)) && out.Emitted(EncodeAll(SubRegCode(dst, lhs, rhs)))
  {
    hide WordBuffer.Valid, EncodeOne, EncodeAll, MovRegCode;
    if lhs.rsize == rhs.rsize {
      OneWord(PlainInstr(true, false, dst, lhs, rhs));
      AddSubRegister(out, true, false, dst, lhs, rhs);
      return;
    }
    if rhs.rsize < lhs.rsize {
      OneWord(ExtInstr(true, false, dst, lhs, rhs, 0));
      AddSubExtended(out, true, false, dst, lhs, rhs, 0);
      return;
    }
    var tmp := Temp(dst.rsize, lhs.dtype);
    EmitMovReg(out, tmp, lhs);
    AddSubRegister(out, true, false, dst, tmp, rhs);
    OneWord(PlainInstr(true, false, dst, tmp, rhs));
    EncodeAppend(MovRegCode(tmp, lhs), [PlainInstr(true, false, dst, tmp, rhs)]);
  }

  method EmitCmpReg(out: WordBuffer, lhs: Reg, rhs: Reg)
    requires out.Valid() && HasA64(lhs) && HasA64(rhs)
    requires lhs.dtype.base.Some? ==> 1 <= lhs.dtype.base.value.size <= 8
    modifies out, out.body
    ensures AllWellFormed(CmpRegCode(lhs, rhs)) && out.Emitted(EncodeAll(CmpRegCode(lhs, rhs)))
  {
    hide WordBuffer.Valid, EncodeOne, EncodeAll, MovRegCode, Encode, Decode;
    var zr := ZeroReg(lhs.rsize);
    if lhs.rsize == rhs.rsize {
      OneWord(PlainInstr(true, true, zr, lhs, rhs));
      AddSubRegister(out, true, true, zr, lhs, rhs);
      return;
    }
    if rhs.rsize < lhs.rsize {
      OneWord(ExtInstr(true, true, zr, lhs, rhs, 0));
      AddSubExtended(out, true, true, zr, lhs, rhs, 0);
      return;
    }
    var tmp := Temp(rhs.rsize, lhs.dtype);
    EmitMovReg(out, tmp, lhs);
    zr := ZeroReg(rhs.rsize);
    AddSubRegister(out, true, true, zr, tmp, rhs);
    OneWord(PlainInstr(true, true, zr, tmp, rhs));
    EncodeAppend(MovRegCode(tmp, lhs), [PlainInstr(true, true, zr, tmp, rhs)]);
  }

  /** The address of an element. */
  method EmitElemAddr(out: WordBuffer, dst: Reg, obj: Reg, index: Reg, elemSize: nat)
    requires out.Valid() && HasA64(dst) && HasA64(obj) && HasA64(index) && IsI64(obj.offset)
    requires index.dtype.base.Some? && elemSize > 0 && ShiftFits(dst, index, TrailingZeros(elemSize))
    modifies out, out.body
    ensures AllWellFormed(ElemAddrCode(dst, obj, index, elemSize))
    ensures out.Emitted(EncodeAll(ElemAddrCode(dst, obj, index, elemSize)))
  {
    hide WordBuffer.Valid, Encode, Decode, TrailingZeros, EncodeOne, EncodeAll, AddCode, ElemAddrInstr;
    if obj.kind == Stack {
      EmitAddSub(out, true, PTR, FP, obj.offset);
    } else {
      NoWords();
    }
    var base := BaseReg(obj);
    var shift := TrailingZeros(elemSize);
    AddressWord(out, dst, base, index, shift);
    ShiftFitsExactly(dst, base, index, shift);
    OneWord(ElemAddrInstr(dst, base, index, shift));
    EncodeAppend(BaseCode(obj), [ElemAddrInstr(dst, base, index, shift)]);
  }

  method AddressWord(out: WordBuffer, dst: Reg, base: Reg, index: Reg, shift: nat)
    requires out.Valid() && HasA64(dst) && HasA64(base) && HasA64(index)
    requires index.dtype.base.Some? && ShiftFits(dst, index, shift)
    modifies out, out.body
    ensures out.Emitted([EncodeOne(ElemAddrInstr(dst, base, index, shift))])
  {
    hide WordBuffer.Valid, Encode, Decode;
    if index.dtype.base.value.size >= 8 {
      AddSubRegWord(Is64(dst), false, false, A64No(index), shift, A64No(base), A64No(dst));
      out.PutWord(SF(Is64(dst)) + OP_ADD_REG + A64No(index) * P16 + shift * 1024 + A64No(base) * 32 + A64No(dst));
    } else {
      AddSubExtended(out, false, false, dst, base, Resize(index, 4), shift);
    }
  }

  lemma NoWords()
    ensures AllWellFormed([]) && EncodeAll([]) == []
  {
  }

  // ---- Bit fields ----

  method PutBitfield(out: WordBuffer, kind: BitKind, x: bool, immr: nat, imms: nat, src: Reg, dst: Reg)
    requires out.Valid() && HasA64(dst) && HasA64(src) && kind != Sbfm && immr < Width(x) && imms < Width(x)
    modifies out, out.body
    ensures out.Emitted([EncodeOne(Bitfield(x, kind, immr, imms, A64No(src), A64No(dst)))])
  {
    hide WordBuffer.Valid, Encode, Decode;
    BitfieldWord(x, kind, immr, imms, A64No(src), A64No(dst));
    out.PutWord(BitfieldOp(x, kind) + immr * P16 + imms * 1024 + A64No(src) * 32 + A64No(dst));
  }

  lemma ModBelow(v: int, m: nat)
    requires m > 0
    ensures 0 <= v % m < m
  {
  }

  method EmitLsl(out: WordBuffer, dst: Reg, lhs: Reg, rhs: int)
    requires out.Valid() && HasA64(dst) && HasA64(lhs)
    modifies out, out.body
    ensures out.Emitted([EncodeOne(LslInstr(Is64(dst), rhs, A64No(lhs), A64No(dst)))])
  {
    hide WordBuffer.Valid, EncodeOne, Decode, Is64;
    var width := Width(Is64(dst));
    var shift := rhs % width;
    ModBelow(rhs, width);
    ModBelow(width - shift, width);
    PutBitfield(out, Ubfm, Is64(dst), (width - shift) % width, width - 1 - shift, lhs, dst);
  }

  method EmitLsrImm(out: WordBuffer, dst: Reg, src: Reg, rhs: int)
    requires out.Valid() && HasA64(dst) && HasA64(src)
    modifies out, out.body
    ensures out.Emitted([EncodeOne(LsrInstr(Is64(dst), rhs, A64No(src), A64No(dst)))])
  {
    hide WordBuffer.Valid, EncodeOne, Decode, Is64;
    var width := Width(Is64(dst));
    ModBelow(rhs, width);
    PutBitfield(out, Ubfm, Is64(dst), rhs % width, width - 1, src, dst);
  }

  /** BFM keeps the destination's other bits; UBFM clears them. */
  method EmitBitfield(out: WordBuffer, keep: bool, dst: Reg, src: Reg, lsb: int, width: int)
    requires out.Valid() && HasA64(dst) && HasA64(src) && LegalField(Is64(dst), lsb, width)
    modifies out, out.body
    ensures out.Emitted([EncodeOne(InsertInstr(Is64(dst), keep, lsb, width, A64No(src), A64No(dst)))])
  {
    hide WordBuffer.Valid, EncodeOne, Decode, Is64;
    var rbits := Width(Is64(dst));
    ModBelow(rbits - lsb, rbits);
    PutBitfield(out, if keep then Bfm else Ubfm, Is64(dst), (rbits - lsb) % rbits, width - 1, src, dst);
  }

  // ---- Loads and stores ----

  method MemOp(out: WordBuffer, load: bool, value: Reg, base: Reg, offset: int)
    requires out.Valid() && HasA64(value) && HasA64(base)
    modifies out, out.body
    ensures out.Emitted([EncodeOne(MemOpInstr(load, value, base, offset))])
  {
    hide WordBuffer.Valid, Encode, Decode;
    var sz := SizeBits(value);
    var access := AccessSize(sz);
    var rt, rn, opc := A64No(value), A64No(base), LoadOpc(load, value, sz);
    if offset >= 0 && offset % access == 0 && offset / access <= 0xfff {
      var imm12 := offset / access;
      ScaledWord(sz, opc, imm12, rn, rt);
      out.PutWord(sz * 0x4000_0000 + OP_LDST_USCALED + opc * LDST_LOAD + imm12 * 1024 + rn * 32 + rt);
    } else {
      var imm9 := offset % 512;
      UnscaledWord(sz, opc, imm9, rn, rt);
      out.PutWord(sz * 0x4000_0000 + OP_LDST_UNSCALED + opc * LDST_LOAD + imm9 * 4096 + rn * 32 + rt);
    }
  }

  method EmitStp(out: WordBuffer, src1: Reg, src2: Reg, base: Reg, offset: int)
    requires out.Valid() && HasA64(src1) && HasA64(src2) && HasA64(base)
    modifies out, out.body
    ensures out.Emitted([EncodeOne(PairInstr(false, Offset, A64No(src1), A64No(src2), A64No(base), offset))])
  {
    hide WordBuffer.Valid, Encode, Decode;
    PairWord(false, Offset, A64No(src1), A64No(src2), A64No(base), offset);
    out.PutWord(OP_STP_OFF + Quot8(offset) % 128 * 0x8000 + A64No(src2) * 1024 + A64No(base) * 32 + A64No(src1));
  }
}
