// Shifts and bit-field moves on AArch64: the immr and imms fields that realise them.
module A64Bits {
  import opened Words
  import opened Bits
  import opened A64Instr
  import opened A64Machine

  function LslInstr(x: bool, amount: int, rn: RegNo, rd: RegNo): Instr {
    var w := Width(x);
    var shift := amount % w;
    Bitfield(x, Ubfm, (w - shift) % w, w - 1 - shift, rn, rd)
  }

  function LsrInstr(x: bool, amount: int, rn: RegNo, rd: RegNo): Instr {
    Bitfield(x, Ubfm, amount % Width(x), Width(x) - 1, rn, rd)
  }

  /** The bits of an insertion: `width` source bits at lsb, the rest from dst (or zero). */
  predicate InsertedBit(keep: bool, lsb: nat, width: nat, src: nat, dst: nat, k: nat) {
    if lsb <= k < lsb + width then Bit(src, k - lsb) else keep && Bit(dst, k)
  }

  predicate LegalField(x: bool, lsb: int, width: int) { 0 <= lsb && 1 <= width && lsb + width <= Width(x) }

  function InsertInstr(x: bool, keep: bool, lsb: nat, width: nat, rn: RegNo, rd: RegNo): Instr
    requires LegalField(x, lsb, width)
  {
    Bitfield(x, if keep then Bfm else Ubfm, (Width(x) - lsb) % Width(x), width - 1, rn, rd)
  }

  // ---- Reading the result of a bit-field move ----

  lemma ResultBits(kind: BitKind, x: bool, immr: nat, imms: nat, src: nat, dst: nat, k: nat)
    ensures var r := BitfieldResult(kind, Width(x), immr, imms, src, dst);
      && r < Pow2(Width(x))
      && Bit(r, k) == (k < Width(x) && BitfieldBit(kind, Width(x), immr, imms, src, dst, k))
  {
    var bs := seq(Width(x), k requires 0 <= k => BitfieldBit(kind, Width(x), immr, imms, src, dst, k));
    NumRange(bs);
    BitOfNum(bs, k);
  }

  lemma WidthMod(x: bool, v: int)
    ensures Low(Bytes(x), v) == v % Pow2(Width(x))
    ensures 0 <= v % Pow2(Width(x)) < Pow2(Width(x))
  {
    Pow2Sizes();
  }

  /** A result whose bits are those of v below the operand width is v cut to that width. */
  lemma ResultIs(kind: BitKind, x: bool, immr: nat, imms: nat, src: nat, dst: nat, v: nat)
    requires forall k: nat :: k < Width(x) ==> BitfieldBit(kind, Width(x), immr, imms, src, dst, k) == Bit(v, k)
    ensures BitfieldResult(kind, Width(x), immr, imms, src, dst) == Low(Bytes(x), v)
  {
    hide BitfieldResult, BitfieldBit, Pow2, Bit, Low;
    var (w, r) := (Width(x), BitfieldResult(kind, Width(x), immr, imms, src, dst));
    WidthMod(x, v);
    ResultBits(kind, x, immr, imms, src, dst, 0);
    forall k: nat | k < w ensures Bit(r, k) == Bit(v % Pow2(w), k) {
      ResultBits(kind, x, immr, imms, src, dst, k);
      BitOfMod(v, w, k);
    }
    BitsDetermine(r, v % Pow2(w), w);
  }

  // ---- Shifts ----

  /** A register operand has no bits above its width. */
  lemma ReadBits(s: State, x: bool, r: RegNo, k: nat)
    requires k >= Width(x)
    ensures !Bit(Read(s, x, r), k)
  {
    hide Pow2, Bit, Low;
    WidthMod(x, s.regs[if r == 31 then 0 else r]);
    BitOfMod(s.regs[if r == 31 then 0 else r], Width(x), k);
    BitOfZero(k);
  }

  lemma LslMasks(d: nat, shift: nat, k: nat)
    requires (d == 64 || d == 32) && shift < d && k < d
    ensures var immr := (d - shift) % d;
      && (d - 1 - shift - immr) % d == d - 1
      && (k + immr) % d == if k >= shift then k - shift else k - shift + d
  {
    var immr := (d - shift) % d;
    assert immr == if shift == 0 then 0 else d - shift;
  }

  lemma LslBit(x: bool, amount: int, src: nat, dst: nat, k: nat)
    requires k < Width(x)
    ensures var i := LslInstr(x, amount, 0, 0);
      BitfieldBit(Ubfm, Width(x), i.immr, i.imms, src, dst, k) == (k >= amount % Width(x) && Bit(src, k - amount % Width(x)))
  {
    hide Bit;
    LslMasks(Width(x), amount % Width(x), k);
  }

  /** Left shift by the amount modulo the width. */
  lemma LslMeaning(x: bool, amount: int, rn: RegNo, rd: RegNo, s: State)
    ensures Straight(LslInstr(x, amount, rn, rd))
    ensures Exec(LslInstr(x, amount, rn, rd), s) == Write(s, x, rd, Shl(Read(s, x, rn), amount % Width(x)))
  {
    hide Bit, BitfieldBit, BitfieldResult;
    var i := LslInstr(x, amount, rn, rd);
    var (src, dst, shift) := (Read(s, x, rn), Read(s, x, rd), amount % Width(x));
    BitOfShl(src, shift, 0);
    forall k: nat | k < Width(x)
      ensures BitfieldBit(Ubfm, Width(x), i.immr, i.imms, src, dst, k) == Bit(Shl(src, shift), k)
    {
      LslBit(x, amount, src, dst, k);
      BitOfShl(src, shift, k);
    }
    ResultIs(Ubfm, x, i.immr, i.imms, src, dst, Shl(src, shift));
    LowLow(Bytes(x), Shl(src, shift));
  }

  lemma LsrBit(x: bool, amount: int, src: nat, dst: nat, k: nat)
    requires k < Width(x)
    ensures var i := LsrInstr(x, amount, 0, 0);
      BitfieldBit(Ubfm, Width(x), i.immr, i.imms, src, dst, k)
        == (k + amount % Width(x) < Width(x) && Bit(src, k + amount % Width(x)))
  {
    hide Bit;
  }

  /** Logical right shift by the amount modulo the width. */
  lemma LsrMeaning(x: bool, amount: int, rn: RegNo, rd: RegNo, s: State)
    ensures Straight(LsrInstr(x, amount, rn, rd))
    ensures Exec(LsrInstr(x, amount, rn, rd), s) == Write(s, x, rd, Shr(Read(s, x, rn), amount % Width(x)))
  {
    hide Bit, BitfieldBit, BitfieldResult;
    var i := LsrInstr(x, amount, rn, rd);
    var (src, dst, shift) := (Read(s, x, rn), Read(s, x, rd), amount % Width(x));
    BitOfShr(src, shift, 0);
    forall k: nat | k < Width(x)
      ensures BitfieldBit(Ubfm, Width(x), i.immr, i.imms, src, dst, k) == Bit(Shr(src, shift), k)
    {
      LsrBit(x, amount, src, dst, k);
      BitOfShr(src, shift, k);
      if k + shift >= Width(x) {
        ReadBits(s, x, rn, k + shift);
      }
    }
    ResultIs(Ubfm, x, i.immr, i.imms, src, dst, Shr(src, shift));
    LowLow(Bytes(x), Shr(src, shift));
  }

  // ---- Insertion ----

  lemma InsertMasks(d: nat, lsb: nat, width: nat, k: nat)
    requires (d == 64 || d == 32) && 1 <= width && lsb + width <= d && k < d
    ensures var immr := (d - lsb) % d;
      && (width - 1 - immr) % d == lsb + width - 1
      && (k + immr) % d == if k >= lsb then k - lsb else k - lsb + d
  {
    var immr := (d - lsb) % d;
    assert immr == if lsb == 0 then 0 else d - lsb;
  }

  lemma InsertBit(x: bool, keep: bool, lsb: nat, width: nat, src: nat, dst: nat, k: nat)
    requires LegalField(x, lsb, width) && k < Width(x)
    ensures var i := InsertInstr(x, keep, lsb, width, 0, 0);
      BitfieldBit(i.bits, Width(x), i.immr, i.imms, src, dst, k) == InsertedBit(keep, lsb, width, src, dst, k)
  {
    hide Bit;
    InsertMasks(Width(x), lsb, width, k);
  }

  lemma WriteRead(s: State, x: bool, rd: RegNo, v: int)
    requires rd != 31
    ensures Read(Write(s, x, rd, v), x, rd) == Low(Bytes(x), v)
    ensures Write(s, x, rd, v) == s.(regs := s.regs[rd := Low(Bytes(x), v)])
  {
    LowLow(Bytes(x), v);
  }

  /** For every legal position and width, the destination receives exactly the low source bits
      at lsb, over its old bits or over zeros, and no other register changes. */
  lemma InsertMeaning(x: bool, keep: bool, lsb: nat, width: nat, rn: RegNo, rd: RegNo, s: State)
    requires LegalField(x, lsb, width) && rd != 31
    ensures Straight(InsertInstr(x, keep, lsb, width, rn, rd))
    ensures var t := Exec(InsertInstr(x, keep, lsb, width, rn, rd), s);
      && t == s.(regs := s.regs[rd := t.regs[rd]])
      && forall k: nat :: Bit(t.regs[rd], k)
           == (k < Width(x) && InsertedBit(keep, lsb, width, Read(s, x, rn), Read(s, x, rd), k))
  {
    hide Bit, BitfieldBit, BitfieldResult, InsertedBit, Pow2;
    var i := InsertInstr(x, keep, lsb, width, rn, rd);
    var (src, dst) := (Read(s, x, rn), Read(s, x, rd));
    var r := BitfieldResult(i.bits, Width(x), i.immr, i.imms, src, dst);
    WriteRead(s, x, rd, r);
    ResultBits(i.bits, x, i.immr, i.imms, src, dst, 0);
    WidthMod(x, r);
    SmallMod(r, Pow2(Width(x)));
    forall k: nat ensures Bit(r, k) == (k < Width(x) && InsertedBit(keep, lsb, width, src, dst, k)) {
      ResultBits(i.bits, x, i.immr, i.imms, src, dst, k);
      if k < Width(x) {
        InsertBit(x, keep, lsb, width, src, dst, k);
      }
    }
  }
}
