// A byte-addressed memory of 2^64 cells; addresses wrap.
module Memory {
  import opened Words

  type Mem = int -> Byte

  /** The k-th address from a. */
  function At(a: int, k: int): U64 { (a + k) % P64 }

  /** The memory after writing bs at a; the k-th byte goes to (a + k) mod 2^64. */
  ghost function Store(m: Mem, a: int, bs: seq<Byte>): Mem {
    (x: int) => var d := (x - a) % P64; if d < |bs| then bs[d] else m(x)
  }

  ghost function Load(m: Mem, a: int, n: nat): (bs: seq<Byte>)
    ensures |bs| == n
  {
    seq(n, k => m(At(a, k)))
  }

  /** Two memories agree on every address. */
  ghost predicate SameMem(m: Mem, n: Mem) {
    forall x :: 0 <= x < P64 ==> m(x) == n(x)
  }

  lemma DistanceAfter(x: int, a: int, k: int)
    requires 0 <= k < P64
    ensures (x - (a + k)) % P64 == if (x - a) % P64 >= k then (x - a) % P64 - k else (x - a) % P64 - k + P64
  {
    var d := (x - a) % P64;
    var q := (x - a) / P64;
    if d >= k {
      DivModUnique(x - (a + k), P64, q, d - k);
    } else {
      DivModUnique(x - (a + k), P64, q - 1, d - k + P64);
    }
  }

  /** Two adjacent writes are one write of the joined bytes. */
  lemma StoreJoin(m: Mem, a: int, bs: seq<Byte>, cs: seq<Byte>)
    requires |bs| + |cs| <= P64 && |bs| < P64
    ensures SameMem(Store(Store(m, a, bs), a + |bs|, cs), Store(m, a, bs + cs))
  {
    forall x | 0 <= x < P64
      ensures Store(Store(m, a, bs), a + |bs|, cs)(x) == Store(m, a, bs + cs)(x)
    {
      DistanceAfter(x, a, |bs|);
    }
  }

  /** Writing bs and then, right after it, cs. */
  lemma StoreThen(m: Mem, a: int, bs: seq<Byte>, cs: seq<Byte>, m': Mem, b: int)
    requires |bs| + |cs| <= P64 && |bs| < P64 && b == a + |bs|
    requires SameMem(m', Store(Store(m, a, bs), b, cs))
    ensures SameMem(m', Store(m, a, bs + cs))
  {
    StoreJoin(m, a, bs, cs);
  }

  lemma LoadStored(m: Mem, a: int, bs: seq<Byte>)
    requires |bs| <= P64
    ensures Load(Store(m, a, bs), a, |bs|) == bs
  {
    forall k | 0 <= k < |bs| ensures Store(m, a, bs)(At(a, k)) == bs[k] {
      var q := (a + k) / P64;
      assert (a + k) % P64 - a == k - P64 * q;
      DivModUnique((a + k) % P64 - a, P64, -q, k);
    }
  }

  /** [a, a + n) and [b, b + k) do not wrap and do not meet. */
  predicate Apart(a: int, n: int, b: int, k: int) {
    0 <= a && a + n <= P64 && 0 <= b && b + k <= P64 && (a + n <= b || b + k <= a)
  }

  lemma StoreElsewhere(m: Mem, a: int, bs: seq<Byte>, x: int)
    requires 0 <= x < P64 && 0 <= a && a + |bs| <= P64 && (x < a || a + |bs| <= x)
    ensures Store(m, a, bs)(x) == m(x)
  {
    if x < a {
      DivModUnique(x - a, P64, -1, x - a + P64);
    } else {
      SmallMod(x - a, P64);
    }
  }

  lemma LoadElsewhere(m: Mem, a: int, bs: seq<Byte>, b: int, n: nat)
    requires Apart(a, |bs|, b, n)
    ensures Load(Store(m, a, bs), b, n) == Load(m, b, n)
  {
    forall k | 0 <= k < n ensures Store(m, a, bs)(At(b, k)) == m(At(b, k)) {
      SmallMod(b + k, P64);
      StoreElsewhere(m, a, bs, b + k);
    }
  }
}
