// What the straight-line x86-64 instructions do to registers and memory.
module X86Machine {
  import opened Words
  import opened Memory
  import opened Bits
  import opened X86Instr
  import opened X86Flags

  const RSP_NO: RegNo := 4

  type Regs = r: seq<U64> | |r| == 16 witness seq(16, i => 0)

  datatype State = State(regs: Regs, mem: Mem)

  ghost function Read(s: State, sz: int, r: RegNo): int { Low(sz, s.regs[r]) }

  /** Writing 4 bytes clears the upper half; writing 1 or 2 keeps the other bytes. */
  function Merge(sz: int, old_: U64, v: int): U64 {
    if sz == 8 || sz == 4 then Low(sz, v) else old_ - Low(sz, old_) + Low(sz, v)
  }

  ghost function Write(s: State, sz: int, r: RegNo, v: int): State
    requires IsSize(sz)
  {
    s.(regs := s.regs[r := Merge(sz, s.regs[r], v)])
  }

  function Scale(scale: int, x: int): int {
    if scale == 8 then 8 * x else if scale == 4 then 4 * x else if scale == 2 then 2 * x else x
  }

  ghost function Address(s: State, base: RegNo, index: Index, disp: int): int {
    s.regs[base] + (if index.Scaled? then Scale(index.scale, s.regs[index.reg]) else 0) + disp
  }

  /** Two-operand arithmetic by opcode digit (compare computes nothing). */
  function Alu(digit: Bits3, a: nat, b: nat): int {
    if digit == 0 then a + b
    else if digit == 5 then a - b
    else if digit == 1 then BitOp(OrOp, a, b)
    else if digit == 4 then BitOp(AndOp, a, b)
    else if digit == 6 then BitOp(XorOp, a, b)
    else a
  }

  /** The group digit of a register-register opcode is bits 3..5 of the opcode. */
  function DigitOf(op: Byte): Bits3 { (op / 8) % 8 }

  /** Instructions that fall through to the next one and touch no flag-dependent value. */
  predicate Straight(i: Instr) {
    WellFormed(i) && !i.SetCC? && !i.LeaRip? && !i.Jmp? && !i.Jcc? && !i.Call? && !i.Ret?
    && (i.ShiftI? ==> i.digit == 4 || i.digit == 5 || i.digit == 7)
  }

  function ShiftCount(sz: int, amount: nat): nat { amount % (if sz == 8 then 64 else 32) }

  function Shifted(digit: Bits3, sz: int, x: U64, count: nat): int {
    if digit == 4 then Shl(Low(sz, x), count)
    else if digit == 5 then Shr(Low(sz, x), count)
    else Shr(Signed(sz, x), count)
  }

  ghost function Exec(i: Instr, s: State): State
    requires Straight(i)
  {
    match i
    case RR(op, sz, reg, rm) =>
      if op == 0x89 then Write(s, sz, rm, Read(s, sz, reg))
      else if op == 0x39 then s
      else Write(s, sz, rm, Alu(DigitOf(op), Read(s, sz, rm), Read(s, sz, reg)))
    case Mem(op, sz, reg, base, index, disp) =>
      var a := Address(s, base, index, disp);
      if op == 0x89 then s.(mem := Store(s.mem, a, LE(s.regs[reg], sz)))
      else if op == 0x8d then Write(s, sz, reg, a)
      else Write(s, sz, reg, FromLE(Load(s.mem, a, sz)))
    case AluI(digit, sz, rm, imm) =>
      if digit == 7 then s
      else Write(s, sz, rm, Alu(digit, Read(s, sz, rm), Low(sz, imm)))
    case ShiftI(digit, sz, rm, amount) =>
      Write(s, sz, rm, Shifted(digit, sz, s.regs[rm], ShiftCount(sz, amount)))
    case Neg(sz, rm) => Write(s, sz, rm, -Read(s, sz, rm))
    case MovI(sz, rm, imm) => Write(s, sz, rm, imm)
    case MovSxI(rm, imm) => Write(s, 8, rm, imm)
    case MovMemI(sz, base, disp, imm) =>
      s.(mem := Store(s.mem, Address(s, base, NoIndex, disp), LE(imm, sz)))
    case Movsxd(reg, rm) => Write(s, 8, reg, Signed(4, s.regs[rm]))
    case Extend(signed, dsz, ssz, reg, rm) =>
      Write(s, dsz, reg, if signed then Signed(ssz, s.regs[rm]) else Read(s, ssz, rm))
    case ImulI(reg, imm) => Write(s, 8, reg, s.regs[reg] * imm)
    case Push(rm) =>
      var sp := (s.regs[RSP_NO] - 8) % P64;
      State(s.regs[RSP_NO := sp], Store(s.mem, sp, LE(s.regs[rm], 8)))
    case Pop(rm) =>
      var v := FromLE(Load(s.mem, s.regs[RSP_NO], 8)) % P64;
      s.(regs := s.regs[RSP_NO := (s.regs[RSP_NO] + 8) % P64][rm := v])
  }

  predicate Compares(i: Instr) {
    (i.RR? && i.op == 0x39) || (i.AluI? && i.digit == 7)
  }

  /** The flags that a comparison leaves for the branch right after it. */
  ghost function FlagsOf(i: Instr, s: State): XFlags
    requires Straight(i) && Compares(i)
  {
    match i
    case RR(_, sz, reg, rm) => XCompare(sz, Read(s, sz, rm), Read(s, sz, reg))
    case AluI(_, sz, rm, imm) => XCompare(sz, Read(s, sz, rm), Low(sz, imm))
  }

  predicate StraightCode(code: seq<Instr>) {
    forall k :: 0 <= k < |code| ==> Straight(code[k])
  }

  ghost function Run(code: seq<Instr>, s: State): State
    requires StraightCode(code)
  {
    if code == [] then s else Run(code[1..], Exec(code[0], s))
  }

  lemma {:induction false} RunAppend(a: seq<Instr>, b: seq<Instr>, s: State)
    requires StraightCode(a) && StraightCode(b)
    ensures StraightCode(a + b) && Run(a + b, s) == Run(b, Run(a, s))
  {
    hide Straight, Exec;
    if a == [] {
      assert a + b == b;
    } else {
      RunAppend(a[1..], b, Exec(a[0], s));
      assert (a + b)[1..] == a[1..] + b;
    }
  }

  /** Straight-line code that ends in a comparison. */
  predicate EndsInCompare(code: seq<Instr>) { code != [] && StraightCode(code) && Compares(code[|code| - 1]) }

  /** The flags after it. */
  ghost function FlagsAfter(code: seq<Instr>, s: State): XFlags
    requires EndsInCompare(code)
  {
    FlagsOf(code[|code| - 1], Run(code[..|code| - 1], s))
  }

  /** Setting a byte from a condition, under the flags it finds. */
  ghost function Set(i: Instr, f: XFlags, s: State): State
    requires WellFormed(i) && i.SetCC?
  {
    Write(s, 1, i.rm, if XHolds(i.cc, f) then 1 else 0)
  }

  lemma Run1(i: Instr, s: State)
    requires Straight(i)
    ensures StraightCode([i]) && Run([i], s) == Exec(i, s)
  {
    assert [i][1..] == [];
  }

  lemma Run2(i: Instr, j: Instr, s: State)
    requires Straight(i) && Straight(j)
    ensures StraightCode([i, j]) && Run([i, j], s) == Exec(j, Exec(i, s))
  {
    assert [i, j] == [i] + [j];
    RunAppend([i], [j], s);
    Run1(i, s);
    Run1(j, Exec(i, s));
  }

  lemma RunCons(i: Instr, rest: seq<Instr>, s: State)
    requires Straight(i) && StraightCode(rest)
    ensures StraightCode([i] + rest) && Run([i] + rest, s) == Run(rest, Exec(i, s))
  {
    RunAppend([i], rest, s);
    Run1(i, s);
  }

  lemma {:induction false} ShrMore(x: int, n: nat, k: nat)
    ensures Shr(x, n + k) == Shr(Shr(x, n), k)
  {
    if k > 0 {
      ShrMore(x, n, k - 1);
    }
  }

  lemma ShrEight(x: int)
    ensures Shr(x, 8) == x / 256
  {
    assert Shr(x, 1) == x / 2;
    assert Shr(x, 2) == x / 4;
    assert Shr(x, 4) == x / 16;
    assert Shr(x, 6) == x / 64;
  }

  /** Shifting right by whole bytes drops those bytes. */
  lemma {:induction false} ShrBytes(x: int, c: nat)
    ensures Shr(x, 8 * c) == DropBytes(x, c)
    decreases c
  {
    if c > 0 {
      ShrBytes(x / 256, c - 1);
      ShrMore(x, 8, 8 * (c - 1));
      ShrEight(x);
    }
  }
}
