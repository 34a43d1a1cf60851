// The x86-64 comparison flags and the condition codes that test them.
module X86Flags {
  import opened Words

  /** CF, ZF, SF and OF after CMP of a with b at w bytes (Intel SDM, "CMP"). */
  datatype XFlags = XFlags(cf: bool, zf: bool, sf: bool, of: bool)

  function XCompare(w: nat, a: nat, b: nat): XFlags {
    var r := Low(w, a - b);
    XFlags(a < b, r == 0, Signed(w, r) < 0, Signed(w, r) != Signed(w, a) - Signed(w, b))
  }

  /** The same for any two numbers, at w bytes. */
  function Comparison(w: nat, a: int, b: int): XFlags { XCompare(w, Low(w, a), Low(w, b)) }

  /** The tests of the condition-code nibble (Intel SDM Vol. 1, appendix B); the parity tests
      10 and 11 are never used. */
  predicate XHolds(cc: nat, f: XFlags) {
    match cc
    case 0 => f.of
    case 1 => !f.of
    case 2 => f.cf
    case 3 => !f.cf
    case 4 => f.zf
    case 5 => !f.zf
    case 6 => f.cf || f.zf
    case 7 => !f.cf && !f.zf
    case 8 => f.sf
    case 9 => !f.sf
    case 12 => f.sf != f.of
    case 13 => f.sf == f.of
    case 14 => f.zf || f.sf != f.of
    case 15 => !f.zf && f.sf == f.of
    case _ => false
  }

  /** The condition-code nibble for each of the compiler's conditions; always and never have none. */
  const COND_CC := [0x4, 0x5, 0x3, 0x2, 0x8, 0x9, 0x0, 0x1, 0x7, 0x6, 0xd, 0xc, 0xf, 0xe]

  function CondCode(condition: nat): (cc: int)
    requires condition < |COND_CC|
    ensures 0 <= cc < 16
  {
    COND_CC[condition]
  }
}
