// Stores of constants, packed values and zeros on x86-64.
module X86Stores {
  import opened Words
  import opened Memory
  import opened Registers
  import opened X86Instr
  import opened X86Machine
  import opened X86Lower

  // ---- A constant into memory ----

  function StrImmCode(sz: int, base: RegNo, value: int, offset: int): seq<Instr> {
    if sz >= 8 && !IsI32(value) then
      [MovMemI(4, base, offset, Signed(4, value)), MovMemI(4, base, offset + 4, Signed(4, value % P64 / P32))]
    else
      [MovMemI(sz, base, offset, if sz >= 8 then value else Signed(sz, value))]
  }

  lemma LESigned(v: int, n: nat)
    requires IsSize(n)
    ensures LE(Signed(n, v), n) == LE(v, n)
  {
    ModulusIsPow256(n);
    LEMod(v, n);
    LEMod(Signed(n, v), n);
    SignedLow(n, v);
    LowMod(n, v);
    LowMod(n, Signed(n, v));
  }

  lemma MovMemExec(sz: int, base: RegNo, offset: int, imm: int, s: State)
    requires IsSize(sz) && IsI32(offset) && IsI32(imm) && FitsS(sz, imm)
    ensures var i := MovMemI(sz, base, offset, imm);
      Sound([i]) && Exec(i, s) == s.(mem := Store(s.mem, s.regs[base] + offset, LE(imm, sz)))
  {
  }

  lemma HighHalfBytes(value: int)
    ensures LE(value, 4) + LE(value % P64 / P32, 4) == LE(value, 8)
  {
    Pow256Sizes();
    LEHalves(value);
    ModDiv(value, P32, P32);
    LEMod(value / P32, 4);
  }

  lemma StrImmSingle(sz: int, base: RegNo, value: int, imm: int, offset: int, s: State)
    requires IsSize(sz) && IsI32(offset) && IsI32(imm) && FitsS(sz, imm) && LE(imm, sz) == LE(value, sz)
    ensures var i := MovMemI(sz, base, offset, imm);
      Sound([i]) && Run([i], s) == s.(mem := Store(s.mem, s.regs[base] + offset, LE(value, sz)))
  {
    MovMemExec(sz, base, offset, imm, s);
    Run1(MovMemI(sz, base, offset, imm), s);
  }

  /** Both the single store and the two-dword split write the operand's bytes and nothing else. */
  lemma StrImmMeaning(sz: int, base: RegNo, value: int, offset: int, s: State)
    requires IsSize(sz) && IsI64(value) && IsI32(offset) && IsI32(offset + 4)
    ensures Sound(StrImmCode(sz, base, value, offset))
    ensures var t := Run(StrImmCode(sz, base, value, offset), s);
      t.regs == s.regs && SameMem(t.mem, Store(s.mem, s.regs[base] + offset, LE(value, sz)))
  {
    if sz >= 8 && !IsI32(value) {
      StrImmSplit(base, value, offset, s);
    } else if sz >= 8 {
      StrImmSingle(sz, base, value, value, offset, s);
    } else {
      LESigned(value, sz);
      SignedRange(sz, value);
      StrImmSingle(sz, base, value, Signed(sz, value), offset, s);
    }
  }

  lemma StrImmHalves(base: RegNo, lo: int, hi: int, offset: int, s: State)
    requires IsI32(offset) && IsI32(offset + 4)
    ensures var code := [MovMemI(4, base, offset, Signed(4, lo)), MovMemI(4, base, offset + 4, Signed(4, hi))];
      Sound(code)
      && Run(code, s) == s.(mem := Store(Store(s.mem, s.regs[base] + offset, LE(lo, 4)), s.regs[base] + (offset + 4), LE(hi, 4)))
  {
    LESigned(lo, 4);
    LESigned(hi, 4);
    SignedRange(4, lo);
    SignedRange(4, hi);
    MovMemExec(4, base, offset, Signed(4, lo), s);
    var s1 := s.(mem := Store(s.mem, s.regs[base] + offset, LE(lo, 4)));
    MovMemExec(4, base, offset + 4, Signed(4, hi), s1);
    Run2(MovMemI(4, base, offset, Signed(4, lo)), MovMemI(4, base, offset + 4, Signed(4, hi)), s);
  }

  lemma StrImmSplit(base: RegNo, value: int, offset: int, s: State)
    requires IsI64(value) && !IsI32(value) && IsI32(offset) && IsI32(offset + 4)
    ensures Sound(StrImmCode(8, base, value, offset))
    ensures var t := Run(StrImmCode(8, base, value, offset), s);
      t.regs == s.regs && SameMem(t.mem, Store(s.mem, s.regs[base] + offset, LE(value, 8)))
  {
    var high := value % P64 / P32;
    StrImmHalves(base, value, high, offset, s);
    HighHalfBytes(value);
    StoreThen(s.mem, s.regs[base] + offset, LE(value, 4), LE(high, 4),
              Run(StrImmCode(8, base, value, offset), s).mem, s.regs[base] + (offset + 4));
  }

  // ---- The low bytes of a register ----

  function Chunk(n: nat): (c: nat)
    ensures n > 0 ==> c <= n
    ensures IsSize(c)
  {
    if n >= 8 then 8 else if n >= 4 then 4 else if n >= 2 then 2 else 1
  }

  function StorePackedCode(base: RegNo, offset: int, src: RegNo, n: nat): seq<Instr>
    decreases n
  {
    if n == 0 then []
    else
      var c := Chunk(n);
      [Mem(OP_MOV_RM_R, c, src, base, NoIndex, offset)]
      + (if n > c then [ShiftI(SH_SHR, 8, src, c * 8)] + StorePackedCode(base, offset + c, src, n - c) else [])
  }

  lemma ShrExec(s: State, src: RegNo, amount: nat)
    requires amount < 64
    ensures var i := ShiftI(SH_SHR, 8, src, amount);
      Sound([i]) && Exec(i, s) == s.(regs := s.regs[src := Low(8, Shr(s.regs[src], amount))])
  {
    var x := s.regs[src];
    SmallMod(x, P64);
    assert ShiftCount(8, amount) == amount;
    assert Shifted(SH_SHR, 8, x, amount) == Shr(x, amount);
  }

  lemma ShiftByBytes(s: State, src: RegNo, c: nat)
    requires c == 1 || c == 2 || c == 4
    ensures var i := ShiftI(SH_SHR, 8, src, c * 8);
      Sound([i]) && 0 <= DropBytes(s.regs[src], c) < P64
      && Exec(i, s) == s.(regs := s.regs[src := DropBytes(s.regs[src], c)])
  {
    ShrBytes(s.regs[src], c);
    ShrExec(s, src, c * 8);
    DropRange(s.regs[src], c);
    LowSmall(8, DropBytes(s.regs[src], c));
  }

  lemma StoreExec(c: nat, base: RegNo, offset: int, src: RegNo, s: State)
    requires IsSize(c) && IsI32(offset)
    ensures var i := Mem(OP_MOV_RM_R, c, src, base, NoIndex, offset);
      Sound([i]) && Exec(i, s) == s.(mem := Store(s.mem, s.regs[base] + offset, LE(s.regs[src], c)))
  {
  }

  lemma ThenRun(i: Instr, rest: seq<Instr>, s: State)
    requires Sound([i]) && Sound(rest)
    ensures Straight(i) && Sound([i] + rest) && Run([i] + rest, s) == Run(rest, Exec(i, s))
  {
    assert [i][0] == i;
    RunCons(i, rest, s);
  }

  /** The stores write exactly the first n little-endian bytes of the source, and touch no
      other memory and no register but the source. */
  lemma {:induction false} StorePackedMeaning(base: RegNo, offset: int, src: RegNo, n: nat, s: State)
    requires n <= 8 && base != src && IsI32(offset) && IsI32(offset + n)
    ensures Sound(StorePackedCode(base, offset, src, n))
    ensures var t := Run(StorePackedCode(base, offset, src, n), s);
      && SameMem(t.mem, Store(s.mem, s.regs[base] + offset, LE(s.regs[src], n)))
      && t.regs == s.regs[src := t.regs[src]]
    decreases n
  {
    if n > 0 {
      var c := Chunk(n);
      var i := Mem(OP_MOV_RM_R, c, src, base, NoIndex, offset);
      StoreExec(c, base, offset, src, s);
      if n > c {
        StorePackedStep(base, offset, src, n, c, s);
      } else {
        assert StorePackedCode(base, offset, src, n) == [i];
        Run1(i, s);
      }
    }
  }

  lemma PackedMem(m: Mem, a: int, v: int, c: nat, n: nat, m': Mem, b: int)
    requires c <= n <= 8 && b == a + c
    requires SameMem(m', Store(Store(m, a, LE(v, c)), b, LE(DropBytes(v, c), n - c)))
    ensures SameMem(m', Store(m, a, LE(v, n)))
  {
    LESplit(v, c, n - c);
    StoreThen(m, a, LE(v, c), LE(DropBytes(v, c), n - c), m', b);
  }

  /** Store a chunk, then bring the next bytes down. */
  function StoreShift(base: RegNo, offset: int, src: RegNo, c: nat): seq<Instr> {
    [Mem(OP_MOV_RM_R, c, src, base, NoIndex, offset), ShiftI(SH_SHR, 8, src, c * 8)]
  }

  lemma StoreShiftMeaning(base: RegNo, offset: int, src: RegNo, c: nat, s: State)
    requires (c == 1 || c == 2 || c == 4) && base != src && IsI32(offset)
    ensures Sound(StoreShift(base, offset, src, c))
    ensures 0 <= DropBytes(s.regs[src], c) < P64
    ensures Run(StoreShift(base, offset, src, c), s)
         == State(s.regs[src := DropBytes(s.regs[src], c)], Store(s.mem, s.regs[base] + offset, LE(s.regs[src], c)))
  {
    var i, j := Mem(OP_MOV_RM_R, c, src, base, NoIndex, offset), ShiftI(SH_SHR, 8, src, c * 8);
    StoreExec(c, base, offset, src, s);
    var s1 := s.(mem := Store(s.mem, s.regs[base] + offset, LE(s.regs[src], c)));
    ShiftByBytes(s1, src, c);
    Run1(j, s1);
    ThenRun(i, [j], s);
    assert StoreShift(base, offset, src, c) == [i] + [j];
  }

  lemma PackedParts(base: RegNo, offset: int, src: RegNo, n: nat)
    requires n > Chunk(n)
    ensures var c := Chunk(n);
      StorePackedCode(base, offset, src, n) == StoreShift(base, offset, src, c) + StorePackedCode(base, offset + c, src, n - c)
  {
  }

  lemma {:induction false} StorePackedStep(base: RegNo, offset: int, src: RegNo, n: nat, c: nat, s: State)
    requires c == Chunk(n) < n <= 8 && base != src && IsI32(offset) && IsI32(offset + n)
    ensures Sound(StorePackedCode(base, offset, src, n))
    ensures var t := Run(StorePackedCode(base, offset, src, n), s);
      && SameMem(t.mem, Store(s.mem, s.regs[base] + offset, LE(s.regs[src], n)))
      && t.regs == s.regs[src := t.regs[src]]
    decreases n, 0
  {
    hide Exec, Straight, Store, LE, StorePackedCode, StoreShift, Run, SameMem, DropBytes, Faithful, WellFormed;
    var v := s.regs[src];
    var (first, rest) := (StoreShift(base, offset, src, c), StorePackedCode(base, offset + c, src, n - c));
    StoreShiftMeaning(base, offset, src, c, s);
    var s2 := Run(first, s);
    StorePackedMeaning(base, offset + c, src, n - c, s2);
    RunAppend(first, rest, s);
    PackedParts(base, offset, src, n);
    PackedMem(s.mem, s.regs[base] + offset, v, c, n, Run(rest, s2).mem, s2.regs[base] + (offset + c));
  }

  // ---- Zero fill ----

  function Zeros(n: nat): seq<Byte> { seq(n, k => 0) }

  lemma ZerosJoin(m: nat, n: nat)
    ensures Zeros(m) + Zeros(n) == Zeros(m + n)
  {
  }

  lemma ZeroMem(m: Mem, a: int, k: nat, n: nat, m': Mem, b: int)
    requires k <= n <= P64 && k < P64 && b == a + k
    requires SameMem(m', Store(Store(m, a, Zeros(k)), b, Zeros(n - k)))
    ensures SameMem(m', Store(m, a, Zeros(n)))
  {
    StoreThen(m, a, Zeros(k), Zeros(n - k), m', b);
    ZerosJoin(k, n - k);
  }

  /** The nested loops: as many stores of the current size as fit, then half the size. */
  function ZeroStores(base: RegNo, offset: int, size: nat, rsize: nat): seq<Instr>
    decreases size, rsize
  {
    if size == 0 || rsize == 0 then []
    else if size >= rsize then
      [Mem(OP_MOV_RM_R, rsize, RCX, base, NoIndex, offset)] + ZeroStores(base, offset + rsize, size - rsize, rsize)
    else if rsize == 1 then []
    else ZeroStores(base, offset, size, rsize / 2)
  }

  function ZerofillCode(base: RegNo, offset: int, size: nat): seq<Instr> {
    [RR(OP_XOR_RM_R, 4, RCX, RCX)] + ZeroStores(base, offset, size, 8)
  }

  lemma ZeroExec(c: nat, base: RegNo, offset: int, s: State)
    requires IsSize(c) && IsI32(offset) && s.regs[RCX] == 0
    ensures var i := Mem(OP_MOV_RM_R, c, RCX, base, NoIndex, offset);
      Sound([i]) && Exec(i, s) == s.(mem := Store(s.mem, s.regs[base] + offset, Zeros(c)))
  {
    LEZero(c);
  }

  lemma {:induction false} ZeroStoresMeaning(base: RegNo, offset: int, size: nat, rsize: nat, s: State)
    requires IsSize(rsize) && s.regs[RCX] == 0
    requires IsI32(offset) && IsI32(offset + size)
    ensures Sound(ZeroStores(base, offset, size, rsize))
    ensures var t := Run(ZeroStores(base, offset, size, rsize), s);
      t.regs == s.regs && SameMem(t.mem, Store(s.mem, s.regs[base] + offset, Zeros(size)))
    decreases size, rsize
  {
    if size == 0 {
    } else if size >= rsize {
      ZeroStoresStep(base, offset, size, rsize, s);
    } else {
      assert rsize != 1;
      assert ZeroStores(base, offset, size, rsize) == ZeroStores(base, offset, size, rsize / 2);
      ZeroStoresMeaning(base, offset, size, rsize / 2, s);
    }
  }

  lemma ZeroStoresUnfold(base: RegNo, offset: int, size: nat, rsize: nat, s: State, rest: seq<Instr>)
    requires IsSize(rsize) && s.regs[RCX] == 0 && size >= rsize && IsI32(offset)
    requires rest == ZeroStores(base, offset + rsize, size - rsize, rsize) && Sound(rest)
    ensures Sound(ZeroStores(base, offset, size, rsize))
    ensures Run(ZeroStores(base, offset, size, rsize), s)
         == Run(rest, s.(mem := Store(s.mem, s.regs[base] + offset, Zeros(rsize))))
  {
    var i := Mem(OP_MOV_RM_R, rsize, RCX, base, NoIndex, offset);
    ZeroExec(rsize, base, offset, s);
    ThenRun(i, rest, s);
    assert ZeroStores(base, offset, size, rsize) == [i] + rest;
  }

  lemma {:induction false} ZeroStoresStep(base: RegNo, offset: int, size: nat, rsize: nat, s: State)
    requires IsSize(rsize) && s.regs[RCX] == 0 && size >= rsize
    requires IsI32(offset) && IsI32(offset + size)
    ensures Sound(ZeroStores(base, offset, size, rsize))
    ensures var t := Run(ZeroStores(base, offset, size, rsize), s);
      t.regs == s.regs && SameMem(t.mem, Store(s.mem, s.regs[base] + offset, Zeros(size)))
    decreases size, rsize, 0
  {
    hide Exec, Straight, Store, ZeroStores;
    var a := s.regs[base] + offset;
    var rest := ZeroStores(base, offset + rsize, size - rsize, rsize);
    var s1 := s.(mem := Store(s.mem, a, Zeros(rsize)));
    ZeroStoresMeaning(base, offset + rsize, size - rsize, rsize, s1);
    ZeroStoresUnfold(base, offset, size, rsize, s, rest);
    ZeroMem(s.mem, a, rsize, size, Run(rest, s1).mem, s1.regs[base] + (offset + rsize));
  }

  /** Exactly `size` zero bytes are written, through RCX. */
  lemma ZerofillMeaning(base: RegNo, offset: int, size: nat, s: State)
    requires base != RCX && IsI32(offset) && IsI32(offset + size)
    ensures Sound(ZerofillCode(base, offset, size))
    ensures var t := Run(ZerofillCode(base, offset, size), s);
      && t.regs == s.regs[RCX := 0]
      && SameMem(t.mem, Store(s.mem, s.regs[base] + offset, Zeros(size)))
  {
    var i := RR(OP_XOR_RM_R, 4, RCX, RCX);
    ZeroIdiom(4, RCX, s);
    Run1(i, s);
    ZeroStoresMeaning(base, offset, size, 8, Exec(i, s));
    RunAppend([i], ZeroStores(base, offset, size, 8), s);
  }
}
