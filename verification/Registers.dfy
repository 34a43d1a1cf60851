// The compiler's abstract registers and the machine registers they stand for on Linux.
module Registers {
  import opened TypeSys

  datatype RegKind = RdNone | RetReg | Param | Scratch | Nreg | Stack | Frame

  /** An operand: which register, how many bytes of it, and its type. */
  datatype Reg = Reg(kind: RegKind, offset: int, rsize: nat, dtype: DType)

  const NoType := DType(None, [])

  const SCRATCH_REGS := [0, 1, 2, 6, 7, 8, 9]
  const CALLEE_REGS := [3, 12, 13, 14, 15, 10, 11]
  const PARAM_REGS := [7, 6, 2, 1, 8, 9]
  const RET_REGS := [0, 2]

  const RAX := 0
  const RCX := 1
  const RSP := 4
  const RBP := 5

  /** The offset lies in its register table (the tables are indexed unchecked). */
  predicate InTable(r: Reg) {
    match r.kind
    case Scratch => 0 <= r.offset < |SCRATCH_REGS|
    case Nreg => 0 <= r.offset < |CALLEE_REGS|
    case Param => 0 <= r.offset < |PARAM_REGS|
    case RetReg => 0 <= r.offset < |RET_REGS|
    case _ => true
  }

  function X86No(r: Reg): (n: int)
    requires InTable(r)
    ensures 0 <= n < 16
  {
    match r.kind
    case Scratch => SCRATCH_REGS[r.offset]
    case Nreg => CALLEE_REGS[r.offset]
    case Param => PARAM_REGS[r.offset]
    case RetReg => RET_REGS[r.offset]
    case Frame => RBP
    case Stack => RSP
    case RdNone => RAX
  }

  /** The base type says "signed". */
  predicate IsSigned(r: Reg) { r.dtype.base.Some? && r.dtype.base.value.signed }

  /** An unsized operand is a 4-byte one. */
  function RSize(r: Reg): nat { if r.rsize == 0 then 4 else r.rsize }

  function Resize(r: Reg, rsize: nat): (q: Reg)
    ensures InTable(r) ==> InTable(q) && X86No(q) == X86No(r)
  {
    r.(rsize := rsize)
  }

  /** The next register, for the count of a slice; its type plays no part. */
  function Second(r: Reg): Reg { Reg(r.kind, r.offset + 1, 8, NoType) }

  // ---- AArch64 ----

  function A64Raw(r: Reg): int {
    match r.kind
    case Scratch => r.offset + 8
    case Nreg => r.offset + 19
    case Frame => 29
    case Stack => 31
    case RdNone => 31
    case _ => r.offset
  }

  /** The number fits its field. */
  predicate HasA64(r: Reg) { 0 <= A64Raw(r) < 32 }

  function A64No(r: Reg): (n: int)
    requires HasA64(r)
    ensures 0 <= n < 32
  {
    A64Raw(r)
  }

  /** A general register, neither zero nor the stack pointer. */
  predicate General(r: Reg) { 0 <= A64Raw(r) < 31 }

  /** The 64-bit form of an instruction is used. */
  predicate Is64(r: Reg) { TryGetAddr(r.dtype) != 0 || r.rsize > 4 }
}
