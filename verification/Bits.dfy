// Numbers seen bit by bit.
module Bits {
  import opened Words

  datatype BoolOp = AndOp | OrOp | XorOp

  predicate BitOf(op: BoolOp, a: bool, b: bool) {
    match op
    case AndOp => a && b
    case OrOp => a || b
    case XorOp => a != b
  }

  function BitOp(op: BoolOp, a: nat, b: nat): nat
    decreases a + b
  {
    if a == 0 && b == 0 then 0
    else
      (if BitOf(op, a % 2 == 1, b % 2 == 1) then 1 else 0) + 2 * BitOp(op, a / 2, b / 2)
  }

  lemma {:induction false} XorSelf(a: nat)
    ensures BitOp(XorOp, a, a) == 0
  {
    if a > 0 {
      XorSelf(a / 2);
    }
  }

  lemma {:induction false} OrZero(a: nat)
    ensures BitOp(OrOp, 0, a) == a
  {
    if a > 0 {
      OrZero(a / 2);
    }
  }

  function Pow2(n: nat): (p: nat)
    ensures p > 0
  {
    if n == 0 then 1 else 2 * Pow2(n - 1)
  }

  predicate Bit(x: nat, k: nat) { if k == 0 then x % 2 == 1 else Bit(x / 2, k - 1) }

  /** The number with the given bits, least significant first. */
  function Num(bs: seq<bool>): nat { if bs == [] then 0 else (if bs[0] then 1 else 0) + 2 * Num(bs[1..]) }

  lemma {:induction false} NumRange(bs: seq<bool>)
    ensures Num(bs) < Pow2(|bs|)
  {
    if bs != [] {
      NumRange(bs[1..]);
    }
  }

  lemma {:induction false} BitOfNum(bs: seq<bool>, k: nat)
    ensures Bit(Num(bs), k) == (k < |bs| && bs[k])
  {
    if bs == [] {
      BitOfZero(k);
    } else if k > 0 {
      BitOfNum(bs[1..], k - 1);
    }
  }

  lemma {:induction false} BitOfZero(k: nat)
    ensures !Bit(0, k)
  {
    if k > 0 {
      BitOfZero(k - 1);
    }
  }

  /** Two n-bit numbers with the same bits are the same number. */
  lemma {:induction false} BitsDetermine(x: nat, y: nat, n: nat)
    requires x < Pow2(n) && y < Pow2(n) && forall k: nat :: k < n ==> Bit(x, k) == Bit(y, k)
    ensures x == y
  {
    if n > 0 {
      assert Bit(x, 0) == Bit(y, 0);
      forall k: nat | k < n - 1 ensures Bit(x / 2, k) == Bit(y / 2, k) {
        assert Bit(x, k + 1) == Bit(y, k + 1);
      }
      BitsDetermine(x / 2, y / 2, n - 1);
    }
  }

  lemma {:induction false} BitOfShl(x: nat, n: nat, k: nat)
    ensures Shl(x, n) >= 0 && Bit(Shl(x, n), k) == (k >= n && Bit(x, k - n))
  {
    if n > 0 {
      BitOfShl(x, n - 1, if k == 0 then 0 else k - 1);
    }
  }

  lemma {:induction false} BitOfShr(x: nat, n: nat, k: nat)
    ensures Shr(x, n) >= 0 && Bit(Shr(x, n), k) == Bit(x, k + n)
    decreases n
  {
    if n > 0 {
      BitOfShr(x, n - 1, k + 1);
    }
  }

  lemma {:induction false} BitOfMod(x: nat, n: nat, k: nat)
    ensures Bit(x % Pow2(n), k) == (k < n && Bit(x, k))
    decreases n
  {
    if n == 0 {
      BitOfZero(k);
    } else {
      ModHalf(x, Pow2(n - 1));
      if k > 0 {
        BitOfMod(x / 2, n - 1, k - 1);
      }
    }
  }

  lemma ModHalf(x: nat, m: nat)
    requires m > 0
    ensures x % (2 * m) / 2 == (x / 2) % m && x % (2 * m) % 2 == x % 2
  {
    ModDiv(x, 2, m);
  }

  lemma Pow2Sizes()
    ensures Pow2(8) == 256 && Pow2(16) == P16 && Pow2(32) == P32 && Pow2(64) == P64
  {
    assert Pow2(4) == 16;
    Pow2Double(4, 16);
    Pow2Double(8, 256);
    Pow2Double(16, P16);
    Pow2Double(32, P32);
  }

  lemma Pow2Double(n: nat, v: nat)
    requires Pow2(n) == v
    ensures Pow2(n + n) == v * v
  {
    Pow2Sum(n, n);
  }

  lemma {:induction false} Pow2Sum(m: nat, n: nat)
    ensures Pow2(m + n) == Pow2(m) * Pow2(n)
  {
    if m > 0 {
      Pow2Sum(m - 1, n);
    }
  }

  lemma {:induction false} OpRange(op: BoolOp, a: nat, b: nat, n: nat)
    requires a < Pow2(n) && b < Pow2(n)
    ensures BitOp(op, a, b) < Pow2(n)
    decreases n
  {
    if n > 0 {
      OpRange(op, a / 2, b / 2, n - 1);
    }
  }

  lemma {:induction false} OrWithZero(a: nat)
    ensures BitOp(OrOp, a, 0) == a
  {
    if a > 0 {
      OrWithZero(a / 2);
    }
  }

  lemma OpStep(op: BoolOp, a: nat, pb: nat, c: nat, pd: nat, po: nat)
    requires BitOp(op, a / 2 + pb, c / 2 + pd) == BitOp(op, a / 2, c / 2) + po
    ensures BitOp(op, a + 2 * pb, c + 2 * pd) == BitOp(op, a, c) + 2 * po
  {
    hide BitOp;
    assert (a + 2 * pb) / 2 == a / 2 + pb && (a + 2 * pb) % 2 == a % 2;
    assert (c + 2 * pd) / 2 == c / 2 + pd && (c + 2 * pd) % 2 == c % 2;
    OpUnfold(op, a + 2 * pb, c + 2 * pd);
    OpUnfold(op, a, c);
  }

  /** Bitwise operations work on high and low fields separately. */
  lemma {:induction false} OpSplit(op: BoolOp, k: nat, a: nat, b: nat, c: nat, d: nat)
    requires a < Pow2(k) && c < Pow2(k)
    ensures BitOp(op, a + Pow2(k) * b, c + Pow2(k) * d) == BitOp(op, a, c) + Pow2(k) * BitOp(op, b, d)
    decreases k
  {
    hide BitOp;
    var o := BitOp(op, b, d);
    if k > 0 {
      var p := Pow2(k - 1);
      OpSplit(op, k - 1, a / 2, b, c / 2, d);
      OpStep(op, a, p * b, c, p * d, p * o);
      Regroup(p, b);
      Regroup(p, d);
      Regroup(p, o);
    } else {
      OpNothing(op, a, c);
    }
  }

  lemma Regroup(p: nat, b: nat)
    ensures (2 * p) * b == 2 * (p * b)
  {
  }

  lemma OpNothing(op: BoolOp, a: nat, b: nat)
    requires a == 0 && b == 0
    ensures BitOp(op, a, b) == 0
  {
  }

  lemma OpUnfold(op: BoolOp, a: nat, b: nat)
    ensures BitOp(op, a, b) == (if BitOf(op, a % 2 == 1, b % 2 == 1) then 1 else 0) + 2 * BitOp(op, a / 2, b / 2)
  {
  }

  /** All-ones keeps every bit. */
  lemma {:induction false} AndOnes(n: nat, a: nat)
    requires a < Pow2(n)
    ensures BitOp(AndOp, a, Pow2(n) - 1) == a
    decreases n
  {
    if n > 0 {
      AndOnes(n - 1, a / 2);
      OpUnfold(AndOp, a, Pow2(n) - 1);
      assert (Pow2(n) - 1) / 2 == Pow2(n - 1) - 1;
    } else {
      OpNothing(AndOp, 0, 0);
    }
  }
}
