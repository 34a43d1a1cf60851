// Fixed-width arithmetic shared by every component.  Machine integers are
// mathematical integers kept in range; two's complement is written out with `%`,
// which in Dafny is never negative.
module Words {
  const P16: int := 0x1_0000
  const P32: int := 0x1_0000_0000
  const P64: int := 0x1_0000_0000_0000_0000

  type Byte = x: int | 0 <= x < 256
  type U32 = x: int | 0 <= x < P32
  type U64 = x: int | 0 <= x < P64

  /** The operand sizes, in bytes, that general registers come in. */
  predicate IsSize(sz: int) {
    sz == 1 || sz == 2 || sz == 4 || sz == 8
  }

  /** 2^(8 * sz) for an operand size. */
  function Modulus(sz: int): (m: int)
    ensures m > 0
  {
    if sz == 1 then 256 else if sz == 2 then P16 else if sz == 4 then P32 else P64
  }

  /** The low `sz` bytes of x. */
  function Low(sz: int, x: int): int {
    if sz == 1 then x % 256 else if sz == 2 then x % P16 else if sz == 4 then x % P32 else x % P64
  }

  /** The low `sz` bytes of x read as a signed number. */
  function Signed(sz: int, x: int): int {
    var u := Low(sz, x);
    if sz == 1 then if u < 0x80 then u else u - 0x100
    else if sz == 2 then if u < 0x8000 then u else u - 0x1_0000
    else if sz == 4 then if u < 0x8000_0000 then u else u - 0x1_0000_0000
    else if u < 0x8000_0000_0000_0000 then u else u - 0x1_0000_0000_0000_0000
  }

  /** The low `sz` bytes of x read as the type's signedness says. */
  function Reading(signed: bool, sz: int, x: int): int { if signed then Signed(sz, x) else Low(sz, x) }

  /** x is representable in sz bytes, unsigned or signed. */
  predicate FitsU(sz: int, x: int) {
    0 <= x && (if sz == 1 then x < 256 else if sz == 2 then x < P16 else if sz == 4 then x < P32 else x < P64)
  }

  predicate FitsS(sz: int, x: int) {
    if sz == 1 then IsI8(x) else if sz == 2 then -0x8000 <= x < 0x8000 else if sz == 4 then IsI32(x) else IsI64(x)
  }

  function Shl(x: int, n: nat): int { if n == 0 then x else 2 * Shl(x, n - 1) }

  /** Shifting right rounds toward minus infinity, so it is arithmetic on signed numbers. */
  function Shr(x: int, n: nat): int { if n == 0 then x else Shr(x, n - 1) / 2 }

  predicate IsI8(x: int) { -0x80 <= x < 0x80 }

  predicate IsI32(x: int) { -0x8000_0000 <= x < 0x8000_0000 }

  predicate IsI64(x: int) { -0x8000_0000_0000_0000 <= x < 0x8000_0000_0000_0000 }

  /** Little-endian bytes of v mod 256^n. */
  function LE(v: int, n: nat): (bs: seq<Byte>)
    ensures |bs| == n
    decreases n, v
  {
    if n == 0 then [] else [v % 256] + LE(v / 256, n - 1)
  }

  function FromLE(bs: seq<Byte>): nat {
    if bs == [] then 0 else bs[0] + 256 * FromLE(bs[1..])
  }

  function Pow256(n: nat): (p: nat)
    ensures p > 0
  {
    if n == 0 then 1 else 256 * Pow256(n - 1)
  }

  lemma Pow256Sizes()
    ensures Pow256(1) == 256 && Pow256(2) == P16 && Pow256(4) == P32 && Pow256(8) == P64
  {
    assert Pow256(3) == 0x100_0000;
    assert Pow256(5) == 0x100_0000_0000;
    assert Pow256(7) == 0x100_0000_0000_0000;
  }

  lemma ModSplit(v: int, m: int)
    requires m > 0
    ensures v % (256 * m) == v % 256 + 256 * ((v / 256) % m)
  {
    var q, r := (v / 256) / m, (v / 256) % m;
    assert v == 256 * (m * q + r) + v % 256;
    assert v == (256 * m) * q + (256 * r + v % 256);
    assert 256 * r <= 256 * (m - 1);
    DivModUnique(v, 256 * m, q, 256 * r + v % 256);
  }

  lemma MulStrict(d: int, a: int, b: int)
    requires d > 0 && a < b
    ensures d * a + d <= d * b
  {
    var gap := b - a - 1;
    TimesNat(d, gap);
    assert d * b == d * (a + 1 + gap) == d * a + d + d * gap;
  }

  lemma TimesNat(d: nat, n: nat)
    ensures d * n >= 0
  {
  }

  lemma DivModUnique(v: int, d: int, q: int, r: int)
    requires d > 0 && 0 <= r < d && v == d * q + r
    ensures v / d == q && v % d == r
  {
    var q', r' := v / d, v % d;
    assert v == d * q' + r' && 0 <= r' < d;
    if q < q' {
      MulStrict(d, q, q');
    } else if q' < q {
      MulStrict(d, q', q);
    }
  }

  /** Reading back little-endian bytes gives the number modulo 256^n. */
  lemma {:induction false} FromLERoundTrip(v: int, n: nat)
    ensures FromLE(LE(v, n)) == v % Pow256(n)
    decreases n
  {
    if n > 0 {
      FromLERoundTrip(v / 256, n - 1);
      assert LE(v, n)[1..] == LE(v / 256, n - 1);
      ModSplit(v, Pow256(n - 1));
    }
  }

  /** The number without its k low bytes. */
  function DropBytes(v: int, k: nat): int
    decreases k
  {
    if k == 0 then v else DropBytes(v / 256, k - 1)
  }

  lemma {:induction false} DropRange(v: int, k: nat)
    requires 0 <= v
    ensures 0 <= DropBytes(v, k) <= v
    decreases k
  {
    if k > 0 {
      DropRange(v / 256, k - 1);
    }
  }

  /** The bytes of a number split into its low bytes and the bytes of the rest. */
  lemma {:induction false} LESplit(v: int, k: nat, n: nat)
    ensures LE(v, k + n) == LE(v, k) + LE(DropBytes(v, k), n)
    decreases k
  {
    if k > 0 {
      LESplit(v / 256, k - 1, n);
    }
  }

  lemma DigitSplit(v: int, a: int, b: int)
    requires a > 0 && b > 0
    ensures a * b > 0
    ensures v == (a * b) * (v / a / b) + (a * ((v / a) % b) + v % a)
    ensures 0 <= a * ((v / a) % b) + v % a < a * b
  {
    var q, r := v / a / b, (v / a) % b;
    MulStrict(a, r, b);
    MulStrict(a, -1, r);
    assert v == a * (v / a) + v % a;
    assert v / a == b * q + r;
    MulDistributes(a, b, q, r);
  }

  lemma MulDistributes(a: int, b: int, q: int, r: int)
    ensures a * (b * q + r) == (a * b) * q + a * r
  {
  }

  lemma ModDiv(v: int, a: int, b: int)
    requires a > 0 && b > 0
    ensures a * b > 0 && v % (a * b) / a == (v / a) % b && v % (a * b) % a == v % a
  {
    DigitSplit(v, a, b);
    var w := a * ((v / a) % b) + v % a;
    DivModUnique(v, a * b, v / a / b, w);
    DivModUnique(w, a, (v / a) % b, v % a);
  }

  /** Bytes depend on the number only modulo 256^n. */
  lemma LEMod(v: int, n: nat)
    ensures LE(v % Pow256(n), n) == LE(v, n)
    decreases n
  {
    if n > 0 {
      var m := Pow256(n - 1);
      ModSplit(v, m);
      var r := v % Pow256(n);
      DivModUnique(r, 256, (v / 256) % m, v % 256);
      LEMod(v / 256, n - 1);
    }
  }

  lemma LEZero(n: nat)
    ensures LE(0, n) == seq(n, k => 0)
  {
  }

  /** Pow256 at an operand size. */
  lemma ModulusIsPow256(n: nat)
    requires IsSize(n)
    ensures Pow256(n) == Modulus(n)
  {
    Pow256Sizes();
  }

  lemma SmallMod(x: int, m: int)
    requires 0 <= x < m
    ensures x % m == x
  {
  }

  lemma LowMod(sz: int, x: int)
    requires IsSize(sz)
    ensures Low(sz, x) == x % Modulus(sz)
  {
  }

  lemma LowSmall(sz: int, x: int)
    requires IsSize(sz) && FitsU(sz, x)
    ensures Low(sz, x) == x
  {
  }

  lemma LowLow(sz: int, x: int)
    requires IsSize(sz)
    ensures FitsU(sz, Low(sz, x)) && Low(sz, Low(sz, x)) == Low(sz, x)
  {
  }

  /** Congruent numbers stay congruent under sums and differences. */
  lemma LowSum(sz: int, a: int, b: int, c: int, d: int)
    requires IsSize(sz) && Low(sz, a) == Low(sz, c) && Low(sz, b) == Low(sz, d)
    ensures Low(sz, a + b) == Low(sz, c + d) && Low(sz, a - b) == Low(sz, c - d)
  {
    if sz == 1 {
      ModSum(a, b, c, d, 256);
    } else if sz == 2 {
      ModSum(a, b, c, d, P16);
    } else if sz == 4 {
      ModSum(a, b, c, d, P32);
    } else {
      ModSum(a, b, c, d, P64);
    }
  }

  lemma ModSum(a: int, b: int, c: int, d: int, m: int)
    requires m > 0 && a % m == c % m && b % m == d % m
    ensures (a + b) % m == (c + d) % m && (a - b) % m == (c - d) % m
  {
    var j, k := a / m - c / m, b / m - d / m;
    assert a == c + m * j && b == d + m * k;
    ModShift(c + b, m, j);
    ModShift(c + d, m, k);
    ModShift(c - b, m, j);
    ModShift(c - b, m, k);
  }

  lemma ModShift(x: int, m: int, k: int)
    requires m > 0
    ensures (x + m * k) % m == x % m
  {
    assert x + m * k == m * (x / m + k) + x % m;
    DivModUnique(x + m * k, m, x / m + k, x % m);
  }

  /** In-range numbers are their own signed reading. */
  lemma SignedFits(n: int, x: int)
    requires IsSize(n) && FitsS(n, x)
    ensures Signed(n, x) == x
  {
  }

  lemma SignedRange(n: int, x: int)
    requires IsSize(n)
    ensures FitsS(n, Signed(n, x))
  {
  }

  /** The signed reading is congruent to the number. */
  lemma SignedLow(n: int, x: int)
    requires IsSize(n)
    ensures Signed(n, Low(n, x)) == Signed(n, x) && Low(n, Signed(n, x)) == Low(n, x)
  {
    if n == 1 {
    } else if n == 2 {
    } else if n == 4 {
    } else {
    }
  }

  lemma LE4(v: int)
    ensures LE(v, 4) == [v % 256, v / 0x100 % 256, v / 0x1_0000 % 256, v / 0x100_0000 % 256]
  {
    hide LE;
    LE2(v);
    LE2(v / 0x1_0000);
    LESplit(v, 2, 2);
    assert DropBytes(v, 2) == v / 0x1_0000;
  }

  lemma LE1(v: int)
    ensures LE(v, 1) == [v % 256]
  {
  }

  lemma LE2(v: int)
    ensures LE(v, 2) == [v % 256, v / 256 % 256]
  {
    assert LE(v / 256, 1) == [v / 256 % 256];
  }

  /** The high half of eight bytes. */
  lemma LEHalves(v: int)
    ensures LE(v, 8) == LE(v, 4) + LE(v / P32, 4)
  {
    hide LE;
    LESplit(v, 4, 4);
    assert DropBytes(v, 2) == v / 0x1_0000;
    assert DropBytes(v, 4) == DropBytes(v / 0x1_0000, 2);
  }

  /** The bytes of 32-bit words one after the other. */
  function LEWords(ws: seq<int>): (bs: seq<Byte>)
    ensures |bs| == 4 * |ws|
  {
    if ws == [] then [] else LEWords(ws[..|ws| - 1]) + LE(ws[|ws| - 1], 4)
  }

  /** The bytes of one word among them. */
  lemma {:induction false} WordBytes(ws: seq<int>, k: nat)
    requires k < |ws|
    ensures LEWords(ws)[4 * k..4 * k + 4] == LE(ws[k], 4)
  {
    hide LE;
    var front := ws[..|ws| - 1];
    if k < |front| {
      WordBytes(front, k);
      assert LEWords(ws)[4 * k..4 * k + 4] == LEWords(front)[4 * k..4 * k + 4];
    }
  }

  /** A word is read back from its bytes. */
  lemma WordBack(w: U32)
    ensures FromLE(LE(w, 4)) == w
  {
    hide LE, FromLE;
    FromLERoundTrip(w, 4);
    Pow256Sizes();
    SmallMod(w, P32);
  }

  /** Bytes are those of the number they are read as. */
  lemma {:induction false} LEBack(bs: seq<Byte>)
    ensures LE(FromLE(bs), |bs|) == bs
  {
    if bs != [] {
      var n := FromLE(bs[1..]);
      DivModUnique(bs[0] + 256 * n, 256, n, bs[0]);
      LEBack(bs[1..]);
    }
  }

  /** The least number that does not fit n bytes, below eight. */
  function Power(n: nat): U64 { if n == 1 then 256 else if n == 2 then P16 else if n == 4 then P32 else 0 }

  /** Half the numbers of w bytes. */
  function Half(w: int): nat {
    if w == 1 then 0x80 else if w == 2 then 0x8000 else if w == 4 then 0x8000_0000 else 0x8000_0000_0000_0000
  }

  /** An operand read as signed. */
  lemma SignedOf(w: nat, a: nat)
    requires IsSize(w) && FitsU(w, a)
    ensures Signed(w, a) == if a < Half(w) then a else a - 2 * Half(w)
  {
    LowSmall(w, a);
  }

  lemma LowDifference(w: nat, a: nat, b: nat)
    requires IsSize(w) && FitsU(w, a) && FitsU(w, b)
    ensures Low(w, a - b) == if a >= b then a - b else a - b + 2 * Half(w)
    ensures FitsU(w, Low(w, a - b)) && a < 2 * Half(w) && b < 2 * Half(w)
  {
  }
}
