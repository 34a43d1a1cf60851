// Loads and stores on AArch64: packed values and zeros.
module A64Stores {
  import opened Words
  import opened Memory
  import opened TypeSys
  import opened Registers
  import opened A64Instr
  import opened A64Machine
  import opened A64Bits
  import X86Stores
  import X86Machine

  // ---- One access ----

  /** log2 of the access size. */
  function SizeBits(r: Reg): nat {
    var n := if TryGetAddr(r.dtype) != 0 then 8 else r.rsize;
    if n >= 8 then 3 else if n >= 4 then 2 else if n >= 2 then 1 else 0
  }

  function LoadOpc(load: bool, value: Reg, size: nat): nat {
    if !load then 0 else if IsSigned(value) && size < 3 then 2 else 1
  }

  predicate ScaledForm(n: nat, offset: int)
    requires n > 0
  {
    offset >= 0 && offset % n == 0 && offset / n <= 0xfff
  }

  /** The offset has an encoding: scaled unsigned, or unscaled signed. */
  predicate Encodable(n: nat, offset: int)
    requires n > 0
  {
    ScaledForm(n, offset) || -256 <= offset < 256
  }

  function MemInstr(size: nat, opc: nat, rt: RegNo, rn: RegNo, offset: int): Instr {
    if ScaledForm(AccessSize(size), offset) then LdStScaled(size, opc, offset / AccessSize(size), rn, rt)
    else LdStOff(size, opc, Offset, SignExt(offset % 512, 512), rn, rt)
  }

  function MemOpInstr(load: bool, value: Reg, base: Reg, offset: int): Instr
    requires HasA64(value) && HasA64(base)
  {
    MemInstr(SizeBits(value), LoadOpc(load, value, SizeBits(value)), A64No(value), A64No(base), offset)
  }

  lemma MemShape(size: nat, opc: nat, rt: RegNo, rn: RegNo, offset: int)
    requires size < 4 && opc < (if size == 3 then 2 else if size == 2 then 3 else 4)
    ensures Straight(MemInstr(size, opc, rt, rn, offset))
  {
  }

  /** The access happens at the given offset exactly when the offset is encodable. */
  lemma MemMeaning(size: nat, opc: nat, rt: RegNo, rn: RegNo, offset: int, s: State) returns (used: int)
    requires size < 4 && opc < (if size == 3 then 2 else if size == 2 then 3 else 4)
    ensures Straight(MemInstr(size, opc, rt, rn, offset))
    ensures Exec(MemInstr(size, opc, rt, rn, offset), s) == Access(s, size, opc, ReadSP(s, true, rn) + used, rt)
    ensures used == offset <==> Encodable(AccessSize(size), offset)
  {
    hide Access;
    var n := AccessSize(size);
    MemShape(size, opc, rt, rn, offset);
    if ScaledForm(n, offset) {
      used := offset / n * n;
    } else {
      used := SignExt(offset % 512, 512);
    }
  }

  lemma StoreMeaning(size: nat, rt: RegNo, rn: RegNo, offset: int, s: State)
    requires size < 4 && Encodable(AccessSize(size), offset)
    ensures Straight(MemInstr(size, 0, rt, rn, offset))
    ensures Exec(MemInstr(size, 0, rt, rn, offset), s)
      == s.(mem := Store(s.mem, ReadSP(s, true, rn) + offset, LE(Read(s, true, rt), AccessSize(size))))
  {
    var used := MemMeaning(size, 0, rt, rn, offset, s);
  }

  // ---- The low bytes of a register ----

  function ChunkBits(n: nat): (size: nat)
    ensures size < 4 && AccessSize(size) == X86Stores.Chunk(n)
  {
    if n >= 8 then 3 else if n >= 4 then 2 else if n >= 2 then 1 else 0
  }

  predicate PackedFits(offset: int, n: nat)
    decreases n
  {
    var c := X86Stores.Chunk(n);
    n == 0 || (Encodable(c, offset) && PackedFits(offset + c, n - c))
  }

  function StorePackedCode(rn: RegNo, offset: int, src: RegNo, n: nat): seq<Instr>
    decreases n
  {
    if n == 0 then []
    else
      var c := X86Stores.Chunk(n);
      [MemInstr(ChunkBits(n), 0, src, rn, offset)]
      + (if n > c then [LsrInstr(true, c * 8, src, src)] + StorePackedCode(rn, offset + c, src, n - c) else [])
  }

  lemma ShiftOut(src: RegNo, c: nat, s: State)
    requires src != 31 && (c == 1 || c == 2 || c == 4)
    ensures var i := LsrInstr(true, c * 8, src, src);
      && Straight(i) && 0 <= DropBytes(s.regs[src], c) < P64
      && Exec(i, s) == s.(regs := s.regs[src := DropBytes(s.regs[src], c)])
  {
    hide Exec, Straight, Shr, DropBytes, LsrInstr;
    var v := s.regs[src];
    LsrMeaning(true, c * 8, src, src, s);
    assert (c * 8) % 64 == c * 8;
    X86Machine.ShrBytes(s.regs[src], c);
    DropRange(s.regs[src], c);
    SmallMod(s.regs[src], P64);
    SmallMod(DropBytes(s.regs[src], c), P64);
  }

  lemma StoreRegister(size: nat, rt: RegNo, rn: RegNo, offset: int, s: State)
    requires size < 4 && Encodable(AccessSize(size), offset) && rt != 31
    ensures Straight(MemInstr(size, 0, rt, rn, offset))
    ensures Exec(MemInstr(size, 0, rt, rn, offset), s)
      == s.(mem := Store(s.mem, ReadSP(s, true, rn) + offset, LE(s.regs[rt], AccessSize(size))))
  {
    StoreMeaning(size, rt, rn, offset, s);
    SmallMod(s.regs[rt], P64);
  }

  /** The stores write exactly the first n little-endian bytes of the source, and touch no
      other memory and no register but the source. */
  lemma {:induction false} StorePackedMeaning(rn: RegNo, offset: int, src: RegNo, n: nat, s: State)
    requires n <= 8 && rn != src && src != 31 && PackedFits(offset, n)
    ensures StraightCode(StorePackedCode(rn, offset, src, n))
    ensures var t := Run(StorePackedCode(rn, offset, src, n), s);
      && SameMem(t.mem, Store(s.mem, ReadSP(s, true, rn) + offset, LE(s.regs[src], n)))
      && t == s.(mem := t.mem, regs := s.regs[src := t.regs[src]])
    decreases n
  {
    hide Exec, Straight, Store, LE, MemInstr, LsrInstr, ReadSP, SameMem, Encodable, DropBytes;
    if n == 0 {
      EmptyStore(s.mem, ReadSP(s, true, rn) + offset, s.regs[src]);
      assert s.regs[src := s.regs[src]] == s.regs;
      return;
    }
    var c := X86Stores.Chunk(n);
    var i := MemInstr(ChunkBits(n), 0, src, rn, offset);
    StoreRegister(ChunkBits(n), src, rn, offset, s);
    var s1 := Exec(i, s);
    if n > c {
      var j := LsrInstr(true, c * 8, src, src);
      ShiftOut(src, c, s1);
      var s2 := Exec(j, s1);
      var rest := StorePackedCode(rn, offset + c, src, n - c);
      StorePackedMeaning(rn, offset + c, src, n - c, s2);
      RunCons(j, rest, s1);
      RunCons(i, [j] + rest, s);
      SameBase(s, s2, rn, src);
      X86Stores.PackedMem(s.mem, ReadSP(s, true, rn) + offset, s.regs[src], c, n, Run(rest, s2).mem,
        ReadSP(s2, true, rn) + (offset + c));
    } else {
      assert StorePackedCode(rn, offset, src, n) == [i];
      Run1(i, s);
      SameAsItself(s1.mem);
      assert s.regs[src := s.regs[src]] == s.regs;
    }
  }

  lemma SameAsItself(m: Mem)
    ensures SameMem(m, m)
  {
  }

  lemma EmptyStore(m: Mem, a: int, v: int)
    ensures SameMem(m, Store(m, a, LE(v, 0)))
  {
  }

  lemma SameBase(s: State, t: State, rn: RegNo, src: RegNo)
    requires rn != src && src != 31 && t.sp == s.sp && t.regs == s.regs[src := t.regs[src]]
    ensures ReadSP(t, true, rn) == ReadSP(s, true, rn)
  {
  }

  /** Offsets within 256 bytes of the base always fit. */
  lemma {:induction false} NearOffsetsFit(offset: int, n: nat)
    requires -256 <= offset && offset + n <= 256
    ensures PackedFits(offset, n)
    decreases n
  {
    if n > 0 {
      NearOffsetsFit(offset + X86Stores.Chunk(n), n - X86Stores.Chunk(n));
    }
  }

  // ---- Zero fill ----

  function PairInstr(load: bool, mode: Mode, rt: RegNo, rt2: RegNo, rn: RegNo, bytes: int): Instr {
    Pair(load, mode, SignExt(Quot8(bytes) % 128, 128), rt2, rn, rt)
  }

  /** Division by 8 rounding toward zero. */
  function Quot8(bytes: int): int { if bytes < 0 then -((-bytes) / 8) else bytes / 8 }

  predicate PairEncodable(bytes: int) { bytes % 8 == 0 && -512 <= bytes <= 504 }

  lemma PairOffset(bytes: int)
    ensures SignExt(Quot8(bytes) % 128, 128) * 8 == bytes <==> PairEncodable(bytes)
  {
    if PairEncodable(bytes) {
      assert Quot8(bytes) * 8 == bytes;
    }
  }

  function ZeroHalves(rn: RegNo, offset: int, size: nat, rsize: nat): seq<Instr>
    decreases rsize
  {
    if size == 0 || rsize == 0 then []
    else if size >= rsize then
      [MemInstr(ChunkBits(rsize), 0, 31, rn, offset)] + ZeroHalves(rn, offset + rsize, size - rsize, rsize / 2)
    else ZeroHalves(rn, offset, size, rsize / 2)
  }

  function ZeroEights(rn: RegNo, offset: int, size: nat): seq<Instr>
    decreases size
  {
    if size >= 8 then [MemInstr(3, 0, 31, rn, offset)] + ZeroEights(rn, offset + 8, size - 8)
    else ZeroHalves(rn, offset, size, 4)
  }

  function ZerofillCode(rn: RegNo, offset: int, size: nat): seq<Instr>
    decreases size
  {
    if size >= 16 then [PairInstr(false, Offset, 31, 31, rn, offset)] + ZerofillCode(rn, offset + 16, size - 16)
    else ZeroEights(rn, offset, size)
  }

  predicate HalvesFit(offset: int, size: nat, rsize: nat)
    decreases rsize
  {
    size == 0 || rsize == 0
    || (if size >= rsize then Encodable(rsize, offset) && HalvesFit(offset + rsize, size - rsize, rsize / 2)
        else HalvesFit(offset, size, rsize / 2))
  }

  predicate ZerofillFits(offset: int, size: nat)
    decreases size
  {
    if size >= 16 then PairEncodable(offset) && ZerofillFits(offset + 16, size - 16)
    else if size >= 8 then Encodable(8, offset) && ZerofillFits(offset + 8, size - 8)
    else HalvesFit(offset, size, 4)
  }

  lemma ZeroStore(size: nat, rn: RegNo, offset: int, s: State)
    requires size < 4 && Encodable(AccessSize(size), offset)
    ensures Straight(MemInstr(size, 0, 31, rn, offset))
    ensures Exec(MemInstr(size, 0, 31, rn, offset), s)
      == s.(mem := Store(s.mem, ReadSP(s, true, rn) + offset, X86Stores.Zeros(AccessSize(size))))
  {
    StoreMeaning(size, 31, rn, offset, s);
    LEZero(AccessSize(size));
  }

  lemma ZeroPair(rn: RegNo, offset: int, s: State)
    requires PairEncodable(offset)
    ensures var i := PairInstr(false, Offset, 31, 31, rn, offset); var a := ReadSP(s, true, rn) + offset;
      && Straight(i)
      && Exec(i, s).regs == s.regs && Exec(i, s).sp == s.sp && Exec(i, s).flags == s.flags
      && SameMem(Exec(i, s).mem, Store(s.mem, a, X86Stores.Zeros(16)))
  {
    var a := ReadSP(s, true, rn) + offset;
    PairOffset(offset);
    LEZero(8);
    StoreJoin(s.mem, a, X86Stores.Zeros(8), X86Stores.Zeros(8));
    X86Stores.ZerosJoin(8, 8);
  }

  /** Only memory changed, and it now holds n zero bytes at a. */
  ghost predicate Zeroed(s: State, t: State, a: int, n: nat) {
    t == s.(mem := t.mem) && SameMem(t.mem, Store(s.mem, a, X86Stores.Zeros(n)))
  }

  lemma StoreSame(m: Mem, m': Mem, a: int, bs: seq<Byte>)
    requires SameMem(m, m')
    ensures SameMem(Store(m, a, bs), Store(m', a, bs))
  {
  }

  lemma ZeroedThen(s: State, s1: State, t: State, a: int, k: nat, n: nat, b: int)
    requires k <= n <= P64 && k < P64 && b == a + k && Zeroed(s, s1, a, k) && Zeroed(s1, t, b, n - k)
    ensures Zeroed(s, t, a, n)
  {
    StoreSame(s1.mem, Store(s.mem, a, X86Stores.Zeros(k)), b, X86Stores.Zeros(n - k));
    X86Stores.ZeroMem(s.mem, a, k, n, t.mem, b);
  }

  /** One store of k zeros, then the rest. */
  lemma ZeroStep(i: Instr, rest: seq<Instr>, s: State, a: int, k: nat, n: nat)
    requires k <= n <= P64 && k < P64
    requires Straight(i) && StraightCode(rest)
    requires Zeroed(s, Exec(i, s), a, k) && Zeroed(Exec(i, s), Run(rest, Exec(i, s)), a + k, n - k)
    ensures StraightCode([i] + rest) && Zeroed(s, Run([i] + rest, s), a, n)
  {
    hide Exec, Straight, Zeroed;
    RunCons(i, rest, s);
    ZeroedThen(s, Exec(i, s), Run(rest, Exec(i, s)), a, k, n, a + k);
  }

  /** The halving loop ends because at most one access of each size is still needed. */
  lemma {:induction false} HalvesMeaning(rn: RegNo, offset: int, size: nat, rsize: nat, s: State)
    requires rsize == 4 || rsize == 2 || rsize == 1 || rsize == 0
    requires size < 2 * rsize || size == 0
    requires HalvesFit(offset, size, rsize)
    ensures StraightCode(ZeroHalves(rn, offset, size, rsize))
    ensures Zeroed(s, Run(ZeroHalves(rn, offset, size, rsize), s), ReadSP(s, true, rn) + offset, size)
    decreases rsize
  {
    hide Exec, Straight, Store, MemInstr, Encodable, ReadSP;
    if size == 0 {
      NoZeros(s.mem, ReadSP(s, true, rn) + offset);
    } else if size >= rsize {
      var i := MemInstr(ChunkBits(rsize), 0, 31, rn, offset);
      ZeroStore(ChunkBits(rsize), rn, offset, s);
      var s1 := Exec(i, s);
      BaseKept(s, s1, rn);
      HalvesMeaning(rn, offset + rsize, size - rsize, rsize / 2, s1);
      ZeroStep(i, ZeroHalves(rn, offset + rsize, size - rsize, rsize / 2), s, ReadSP(s, true, rn) + offset, rsize, size);
    } else {
      HalvesMeaning(rn, offset, size, rsize / 2, s);
    }
  }

  lemma NoZeros(m: Mem, a: int)
    ensures SameMem(m, Store(m, a, X86Stores.Zeros(0)))
  {
  }

  lemma BaseKept(s: State, t: State, rn: RegNo)
    requires t.sp == s.sp && t.regs == s.regs
    ensures ReadSP(t, true, rn) == ReadSP(s, true, rn)
  {
  }

  lemma {:induction false} EightsMeaning(rn: RegNo, offset: int, size: nat, s: State)
    requires size < 16 && ZerofillFits(offset, size)
    ensures StraightCode(ZeroEights(rn, offset, size))
    ensures Zeroed(s, Run(ZeroEights(rn, offset, size), s), ReadSP(s, true, rn) + offset, size)
    decreases size
  {
    hide Exec, Straight, Store, MemInstr, Encodable, ReadSP, HalvesFit, ZeroHalves;
    if size >= 8 {
      var i := MemInstr(3, 0, 31, rn, offset);
      ZeroStore(3, rn, offset, s);
      var s1 := Exec(i, s);
      BaseKept(s, s1, rn);
      EightsMeaning(rn, offset + 8, size - 8, s1);
      ZeroStep(i, ZeroEights(rn, offset + 8, size - 8), s, ReadSP(s, true, rn) + offset, 8, size);
    } else {
      HalvesMeaning(rn, offset, size, 4, s);
    }
  }

  /** Exactly `size` zero bytes are written and nothing else changes. */
  lemma {:induction false} ZerofillMeaning(rn: RegNo, offset: int, size: nat, s: State)
    requires size <= P64 && ZerofillFits(offset, size)
    ensures StraightCode(ZerofillCode(rn, offset, size))
    ensures Zeroed(s, Run(ZerofillCode(rn, offset, size), s), ReadSP(s, true, rn) + offset, size)
    decreases size
  {
    hide Exec, Straight, Store, PairInstr, PairEncodable, ReadSP, ZeroEights, Encodable, HalvesFit;
    if size >= 16 {
      var i := PairInstr(false, Offset, 31, 31, rn, offset);
      ZeroPair(rn, offset, s);
      var s1 := Exec(i, s);
      BaseKept(s, s1, rn);
      ZerofillMeaning(rn, offset + 16, size - 16, s1);
      ZeroStep(i, ZerofillCode(rn, offset + 16, size - 16), s, ReadSP(s, true, rn) + offset, 16, size);
    } else {
      EightsMeaning(rn, offset, size, s);
    }
  }
}
