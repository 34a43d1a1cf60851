// Register moves and arithmetic on AArch64: the instruction each emitter chooses and what it
// computes.
module A64Lower {
  import opened Words
  import opened Bits
  import opened TypeSys
  import opened Registers
  import opened A64Instr
  import opened A64Machine
  import opened A64Bits

  /** Sized as a machine operand; addresses take eight bytes. */
  predicate Operand(r: Reg) { General(r) && IsSize(r.rsize) && (TryGetAddr(r.dtype) != 0 ==> r.rsize == 8) }

  /** A narrow operand's type, if known, has the operand's size. */
  predicate Typed(r: Reg) { r.dtype.base.Some? ==> r.dtype.base.value.size == r.rsize }

  /** The number an operand stands for at its own width and signedness. */
  ghost function ValueOf(s: State, r: Reg): int
    requires Operand(r)
  {
    Reading(IsSigned(r), r.rsize, s.regs[A64No(r)])
  }

  // ---- Sign and zero extension ----

  lemma {:induction false} BitOfSum(l: nat, q: nat, m: nat, k: nat)
    requires l < Pow2(m)
    ensures Bit(l + Pow2(m) * q, k) == if k < m then Bit(l, k) else Bit(q, k - m)
    decreases m
  {
    if m > 0 {
      var p := Pow2(m - 1);
      assert Pow2(m) * q == 2 * (p * q);
      assert (l + 2 * (p * q)) / 2 == l / 2 + p * q && (l + 2 * (p * q)) % 2 == l % 2;
      if k > 0 {
        BitOfSum(l / 2, q, m - 1, k - 1);
      }
    }
  }

  lemma {:induction false} BitOfOnes(n: nat, k: nat)
    ensures Bit(Pow2(n) - 1, k) == (k < n)
  {
    if n == 0 {
      BitOfZero(k);
    } else {
      assert (Pow2(n) - 1) / 2 == Pow2(n - 1) - 1 && (Pow2(n) - 1) % 2 == 1;
      if k > 0 {
        BitOfOnes(n - 1, k - 1);
      }
    }
  }

  lemma {:induction false} TopBit(l: nat, m: nat)
    requires 1 <= m && l < Pow2(m)
    ensures Bit(l, m - 1) <==> l >= Pow2(m - 1)
  {
    if m > 1 {
      TopBit(l / 2, m - 1);
    }
  }

  /** The bits of a sign-extended number. */
  lemma SignedBits(n: nat, v: nat, k: nat)
    requires n == 1 || n == 2 || n == 4
    ensures Bit(Low(8, Signed(n, v)), k) == if k < 8 * n then Bit(v, k) else k < 64 && Bit(v, 8 * n - 1)
  {
    hide Bit, Pow2;
    var (m, l) := (8 * n, Low(n, v));
    LowPow(n, v);
    BitOfMod(v, m, k);
    BitOfMod(v, m, m - 1);
    TopBit(l, m);
    if l >= Pow2(m - 1) {
      SignedHigh(n, v);
      BitOfSum(l, Pow2(64 - m) - 1, m, k);
      if k >= m {
        BitOfOnes(64 - m, k - m);
      }
    } else {
      SignedLowHalf(n, v);
    }
  }

  lemma LowPow(n: nat, v: nat)
    requires n == 1 || n == 2 || n == 4
    ensures Low(n, v) == v % Pow2(8 * n) < Pow2(8 * n)
    ensures Pow2(8 * n - 1) == if n == 1 then 0x80 else if n == 2 then 0x8000 else 0x8000_0000
    ensures Pow2(8 * n) == 2 * Pow2(8 * n - 1)
  {
    hide Pow2;
    Pow2Sizes();
    HalfPow(8 * n);
  }

  lemma HalfPow(n: nat)
    requires n > 0
    ensures Pow2(n) == 2 * Pow2(n - 1)
  {
  }

  lemma SignedHigh(n: nat, v: nat)
    requires (n == 1 || n == 2 || n == 4) && Low(n, v) >= Pow2(8 * n - 1)
    ensures Low(8, Signed(n, v)) == Low(n, v) + Pow2(8 * n) * (Pow2(64 - 8 * n) - 1)
  {
    hide Pow2;
    LowPow(n, v);
    Pow2Sizes();
    Pow2Sum(8 * n, 64 - 8 * n);
    assert Pow2(8 * n) * (Pow2(64 - 8 * n) - 1) == P64 - Pow2(8 * n);
  }

  lemma SignedLowHalf(n: nat, v: nat)
    requires (n == 1 || n == 2 || n == 4) && Low(n, v) < Pow2(8 * n - 1)
    ensures Low(8, Signed(n, v)) == Low(n, v)
  {
    hide Pow2;
    LowPow(n, v);
  }

  function SxtInstr(n: nat, rn: RegNo, rd: RegNo): Instr
    requires n == 1 || n == 2 || n == 4
  {
    Bitfield(true, Sbfm, 0, 8 * n - 1, rn, rd)
  }

  /** SBFM from bit 0 sign-extends the low n bytes. */
  lemma SxtMeaning(n: nat, rn: RegNo, rd: RegNo, s: State)
    requires (n == 1 || n == 2 || n == 4) && rn != 31 && rd != 31
    ensures Straight(SxtInstr(n, rn, rd))
    ensures Exec(SxtInstr(n, rn, rd), s) == Write(s, true, rd, Signed(n, s.regs[rn]))
  {
    hide Bit, BitfieldResult, BitfieldBit, Pow2;
    var v := Low(8, Signed(n, s.regs[rn]));
    var (src, dst) := (Read(s, true, rn), Read(s, true, rd));
    forall k: nat | k < 64 ensures BitfieldBit(Sbfm, 64, 0, 8 * n - 1, src, dst, k) == Bit(v, k) {
      SignedBits(n, src, k);
      SxtBit(n, src, dst, k);
    }
    ResultIs(Sbfm, true, 0, 8 * n - 1, src, dst, v);
  }

  lemma SxtBit(n: nat, src: nat, dst: nat, k: nat)
    requires (n == 1 || n == 2 || n == 4) && k < 64
    ensures BitfieldBit(Sbfm, 64, 0, 8 * n - 1, src, dst, k) == if k < 8 * n then Bit(src, k) else Bit(src, 8 * n - 1)
  {
    hide Bit;
  }

  function AndLowBits(x: bool, rn: RegNo, nbits: nat, rd: RegNo): Instr
    requires nbits > 0
  {
    AndImm(x, Flag(x), 0, nbits - 1, rn, rd)
  }

  // ---- Register moves ----

  function RegEq(a: Reg, b: Reg): bool {
    a.offset == b.offset && a.rsize == b.rsize && a.kind == b.kind && EqSpec(a.dtype, b.dtype)
  }

  function MovSize(r: Reg): nat { if TryGetAddr(r.dtype) != 0 then 8 else r.rsize }

  /** The move extends its source. */
  predicate Widens(dst: Reg, src: Reg) { MovSize(dst) > 4 && src.rsize <= 4 && src.dtype.base.Some? }

  function MovRegInstr(dst: Reg, src: Reg): Instr
    requires HasA64(dst) && HasA64(src) && (src.dtype.base.Some? ==> src.dtype.base.value.size > 0)
  {
    var (d, r) := (A64No(dst), A64No(src));
    if Widens(dst, src) then
      var t := src.dtype.base.value;
      if t.signed then Bitfield(true, Sbfm, 0, 8 * t.size - 1, r, d)
      else if t.size < 4 then AndLowBits(Is64(dst), r, 8 * t.size, d)
      else OrrReg(false, r, 31, d)
    else OrrReg(MovSize(dst) > 4, r, 31, d)
  }

  function MovRegCode(dst: Reg, src: Reg): seq<Instr>
    requires HasA64(dst) && HasA64(src) && (src.dtype.base.Some? ==> src.dtype.base.value.size > 0)
  {
    if RegEq(dst, src) then [] else [MovRegInstr(dst, src)]
  }

  lemma OrrMove(x: bool, rm: RegNo, rd: RegNo, s: State)
    requires rm != 31 && rd != 31
    ensures Exec(OrrReg(x, rm, 31, rd), s) == Write(s, x, rd, s.regs[rm])
  {
    OrZero(Read(s, x, rm));
    LowLow(Bytes(x), s.regs[rm]);
  }

  lemma AndMove(n: nat, rn: RegNo, rd: RegNo, s: State)
    requires (n == 1 || n == 2) && rn != 31 && rd != 31
    ensures var i := AndLowBits(true, rn, 8 * n, rd);
      Straight(i) && Exec(i, s) == Write(s, true, rd, Low(n, s.regs[rn]))
  {
    hide Pow2, Low;
    Pow2Sizes();
    LowMod(n, s.regs[rn]);
    RegisterFull(s, rn);
  }

  lemma RegisterFull(s: State, r: RegNo)
    requires r != 31
    ensures Read(s, true, r) == s.regs[r]
  {
  }

  /** A widening move of a typed operand extends it over the whole register; any other copies
      the 32- or 64-bit register. */
  lemma MovRegMeaning(dst: Reg, src: Reg, s: State)
    requires Operand(dst) && Operand(src) && Typed(src)
    ensures Straight(MovRegInstr(dst, src))
    ensures Exec(MovRegInstr(dst, src), s) ==
      if Widens(dst, src) then Write(s, true, A64No(dst), ValueOf(s, src))
      else Write(s, dst.rsize == 8, A64No(dst), s.regs[A64No(src)])
  {
    hide Exec;
    var (d, r) := (A64No(dst), A64No(src));
    if Widens(dst, src) && IsSigned(src) {
      SxtMeaning(src.rsize, r, d, s);
    } else if Widens(dst, src) && src.rsize < 4 {
      AndMove(src.rsize, r, d, s);
    } else {
      OrrMove(dst.rsize == 8, r, d, s);
      OrrMove(false, r, d, s);
      WriteLow(s, d, s.regs[r]);
    }
  }

  lemma WriteLow(s: State, d: RegNo, v: int)
    ensures Write(s, false, d, v) == Write(s, true, d, Low(4, v))
  {
    SmallMod(Low(4, v), P64);
  }

  // ---- Immediate sums ----

  /** The emitter's choice of the 12-bit immediate and its shift, and of the operation's sign. */
  function AddSubImmInstr(sub: bool, flags: bool, dst: Reg, lhs: Reg, rhs: int): Instr
    requires HasA64(dst) && HasA64(lhs)
  {
    var m: nat := if rhs < 0 then -rhs else rhs;
    AddSubImm(Is64(dst), sub != (rhs < 0), flags, m > 0xfff, (if m > 0xfff then m / 4096 else m) % 4096, A64No(lhs), A64No(dst))
  }

  /** The immediate can be encoded: 12 bits, or 12 bits above twelve zeros. */
  predicate ImmExact(w: nat, rhs: int) {
    var m := if rhs < 0 then -rhs else rhs;
    m <= 0xfff || (Low(w, m) % 4096 == 0 && Low(w, m) <= 0xfff000)
  }

  function ImmUsed(m: nat): nat { if m > 0xfff then m / 4096 % 4096 * 4096 else m }

  lemma TwelveAbove(l: nat)
    ensures l / 4096 % 4096 * 4096 == l <==> l % 4096 == 0 && l <= 0xfff000
  {
    var q := l / 4096;
    assert l == 4096 * q + l % 4096;
    assert q % 4096 == q <==> q < 4096;
  }

  lemma LowFields(m: nat)
    ensures Low(4, m) % 4096 == m % 4096 && Low(4, m) / 4096 % 4096 == m / 4096 % 4096
  {
    ModDiv(m, 4096, 0x10_0000);
    ModDiv(m / 4096, 4096, 256);
  }

  lemma ImmUsedExact(x: bool, m: nat)
    requires m < P64
    ensures Low(Bytes(x), ImmUsed(m)) == Low(Bytes(x), m) <==> ImmExact(Bytes(x), m)
  {
    if m > 0xfff {
      LowFields(m);
      TwelveAbove(Low(Bytes(x), m));
      LowSmall(Bytes(x), ImmUsed(m));
    }
  }

  lemma CancelLow(w: nat, a: int, b: int, c: int)
    requires IsSize(w)
    ensures Low(w, a + b) == Low(w, a + c) <==> Low(w, b) == Low(w, c)
    ensures Low(w, a - b) == Low(w, a - c) <==> Low(w, b) == Low(w, c)
  {
    if Low(w, b) == Low(w, c) {
      LowSum(w, a, b, a, c);
    }
    if Low(w, a + b) == Low(w, a + c) {
      LowSum(w, a + b, a, a + c, a);
    }
    if Low(w, a - b) == Low(w, a - c) {
      LowSum(w, a, a - b, a, a - c);
    }
  }

  /** Adding or subtracting a constant is exact exactly when the constant can be encoded. */
  lemma AddSubImmMeaning(sub: bool, dst: Reg, lhs: Reg, rhs: int, s: State)
    requires General(dst) && HasA64(lhs) && IsI64(rhs)
    ensures var i := AddSubImmInstr(sub, false, dst, lhs, rhs); var x := Is64(dst);
      && Straight(i)
      && (Exec(i, s) == Write(s, x, A64No(dst), if sub then ReadSP(s, x, A64No(lhs)) - rhs else ReadSP(s, x, A64No(lhs)) + rhs)
          <==> ImmExact(Bytes(x), rhs))
  {
    var (x, m) := (Is64(dst), if rhs < 0 then -rhs else rhs);
    var a := ReadSP(s, x, A64No(lhs));
    var i := AddSubImmInstr(sub, false, dst, lhs, rhs);
    var used := if i.lsl12 then i.imm12 * 4096 else i.imm12;
    assert used == ImmUsed(m);
    ImmUsedExact(x, m);
    CancelLow(Bytes(x), a, used, m);
    WriteEq(s, x, A64No(dst), if i.sub then a - used else a + used, if i.sub then a - m else a + m);
  }

  lemma WriteEq(s: State, x: bool, d: RegNo, v: int, w: int)
    requires d != 31
    ensures Write(s, x, d, v) == Write(s, x, d, w) <==> Low(Bytes(x), v) == Low(Bytes(x), w)
  {
    assert Write(s, x, d, v).regs[d] == Low(Bytes(x), v) && Write(s, x, d, w).regs[d] == Low(Bytes(x), w);
  }

  /** emit_add and emit_sub with a constant. */
  function AddCode(sub: bool, dst: Reg, lhs: Reg, rhs: int): seq<Instr>
    requires HasA64(dst) && HasA64(lhs) && (lhs.dtype.base.Some? ==> lhs.dtype.base.value.size > 0)
  {
    if rhs == 0 then MovRegCode(dst, lhs) else [AddSubImmInstr(sub, false, dst, lhs, rhs)]
  }

  /** What is really subtracted. */
  lemma SubImmMeaning(dst: Reg, lhs: Reg, c: nat, s: State)
    requires Operand(dst) && dst.rsize == 8 && Operand(lhs) && lhs.rsize == 8 && A64No(dst) != A64No(lhs)
    ensures lhs.dtype == NoType ==>
      && StraightCode(AddCode(true, dst, lhs, c))
      && Run(AddCode(true, dst, lhs, c), s) == Write(s, true, A64No(dst), s.regs[A64No(lhs)] - ImmUsed(c))
  {
    hide ImmUsed, Low, Exec, Straight, MovRegInstr, AddSubImmInstr;
    if lhs.dtype == NoType {
      if c == 0 {
        MovRegMeaning(dst, lhs, s);
        Run1(MovRegInstr(dst, lhs), s);
        UsedZero();
      } else {
        var i := AddSubImmInstr(true, false, dst, lhs, c);
        SubImmExec(dst, lhs, c, s);
        Run1(i, s);
      }
    }
  }

  lemma UsedZero()
    ensures ImmUsed(0) == 0
  {
  }

  lemma SubImmExec(dst: Reg, lhs: Reg, c: nat, s: State)
    requires Operand(dst) && dst.rsize == 8 && Operand(lhs) && lhs.rsize == 8 && c > 0
    ensures var i := AddSubImmInstr(true, false, dst, lhs, c);
      Straight(i) && Exec(i, s) == Write(s, true, A64No(dst), s.regs[A64No(lhs)] - ImmUsed(c))
  {
    SmallMod(s.regs[A64No(lhs)], P64);
  }
}
