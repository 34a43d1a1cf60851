// The symbol hash table of the dynamic image, after "Hash Table" in chapter 5 of the System V
// gABI.
module SysvHash {
  import opened Words
  import opened Bits

  type Name = seq<Byte>

  const P28: nat := 0x1000_0000

  // ---- The hash function ----

  /** One character: shift in, fold the top four bits back, clear them. */
  function HashStep(h: U32, c: Byte): (r: nat)
    ensures r < P28
  {
    var h1 := (h * 16 + c) % P32;
    var g := h1 / P28 * P28;
    StepClearsTop(h1);
    BitOp(AndOp, BitOp(XorOp, h1, g / 0x100_0000), P32 - 1 - g)
  }

  function Hash(name: Name): (h: nat)
    ensures h < P28
  {
    if name == [] then 0 else HashStep(Hash(name[..|name| - 1]), name[|name| - 1])
  }

  lemma AndComplement(t: nat)
    requires t < 16
    ensures BitOp(AndOp, t, 15 - t) == 0
  {
    FourBits(t);
    FourBits(15 - t);
    OpUnfold(AndOp, t, 15 - t);
    OpUnfold(AndOp, t / 2, (15 - t) / 2);
    OpUnfold(AndOp, t / 4, (15 - t) / 4);
    OpUnfold(AndOp, t / 8, (15 - t) / 8);
    OpNothing(AndOp, t / 16, (15 - t) / 16);
  }

  lemma FourBits(t: nat)
    requires t < 16
    ensures t / 2 / 2 == t / 4 && t / 4 / 2 == t / 8 && t / 8 / 2 == t / 16 == 0
  {
  }

  lemma P28IsPow2()
    ensures Pow2(28) == P28
  {
    assert Pow2(7) == 128;
    Pow2Sum(7, 7);
    Pow2Sum(14, 14);
  }

  /** The top nibble is gone, and nothing below bit 28 is lost. */
  lemma StepClearsTop(h1: U32)
    ensures var g := h1 / P28 * P28;
      BitOp(AndOp, BitOp(XorOp, h1, g / 0x100_0000), P32 - 1 - g) == BitOp(XorOp, h1 % P28, h1 / P28 * 16) < P28
  {
    hide BitOp, Pow2;
    var (t, lo) := (h1 / P28, h1 % P28);
    P28IsPow2();
    assert h1 == lo + P28 * t && t < 16;
    assert t * P28 / 0x100_0000 == 16 * t;
    OpSplit(XorOp, 28, lo, t, 16 * t, 0);
    XorZero(t);
    OpRange(XorOp, lo, 16 * t, 28);
    var x := BitOp(XorOp, lo, 16 * t);
    assert P32 - 1 - t * P28 == (P28 - 1) + P28 * (15 - t);
    OpSplit(AndOp, 28, x, t, P28 - 1, 15 - t);
    AndOnes(28, x);
    AndComplement(t);
  }

  lemma {:induction false} XorZero(a: nat)
    ensures BitOp(XorOp, a, 0) == a
  {
    if a > 0 {
      XorZero(a / 2);
    }
  }

  /** The name's bytes as digits of weight 16. */
  function Sum16(name: Name): nat { if name == [] then 0 else name[0] * Pow16(|name| - 1) + Sum16(name[1..]) }

  function Pow16(k: nat): (p: nat)
    ensures p > 0
  {
    if k == 0 then 1 else 16 * Pow16(k - 1)
  }

  lemma {:induction false} Sum16Snoc(name: Name, c: Byte)
    ensures Sum16(name + [c]) == 16 * Sum16(name) + c
  {
    if name == [] {
      assert Sum16([c]) == c * Pow16(0) + Sum16([]);
    } else {
      var (n, rest) := (|name|, name[1..]);
      assert (name + [c])[1..] == rest + [c];
      Sum16Snoc(rest, c);
      assert Pow16(n) == 16 * Pow16(n - 1);
      Times16(name[0], Pow16(n - 1));
    }
  }

  lemma Times16(a: nat, b: nat)
    ensures a * (16 * b) == 16 * (a * b)
  {
  }

  /** The hash is the sum of the bytes times powers of 16 exactly as long as that is below 2^28,
      so for every name of up to six ASCII characters. */
  lemma {:induction false} HashIsSum(name: Name)
    ensures Hash(name) == Sum16(name) <==> Sum16(name) < 0x1000_0000
  {
    if name != [] {
      var (front, c) := (name[..|name| - 1], name[|name| - 1]);
      assert name == front + [c];
      Sum16Snoc(front, c);
      HashIsSum(front);
      if Sum16(name) < 0x1000_0000 {
        NothingToFold(Hash(front), c);
      }
    }
  }

  lemma NothingToFold(h: U32, c: Byte)
    requires h * 16 + c < 0x1000_0000
    ensures HashStep(h, c) == 16 * h + c
  {
    hide BitOp;
    var h1 := 16 * h + c;
    StepClearsTop(h1);
    XorZero(h1);
  }

  lemma {:induction false} ShortSums(name: Name)
    requires |name| <= 6 && forall k :: 0 <= k < |name| ==> name[k] < 128
    ensures Sum16(name) <= 128 * Pow16(|name|) / 15 < 0x1000_0000
  {
    if name != [] {
      ShortSums(name[1..]);
      ShortPowers();
      assert name[0] <= 127;
    }
    ShortPowers();
  }

  lemma ShortPowers()
    ensures Pow16(0) == 1 && Pow16(1) == 16 && Pow16(2) == 256 && Pow16(3) == 4096 && Pow16(4) == 0x1_0000
      && Pow16(5) == 0x10_0000 && Pow16(6) == 0x100_0000
  {
    assert Pow16(4) == 16 * Pow16(3);
    assert Pow16(5) == 16 * Pow16(4);
    assert Pow16(6) == 16 * Pow16(5);
  }

  /** Past that, each further byte shifts four bits in at the bottom, and what would leave at the
      top of 28 bits is folded back at bit 4. */
  lemma HashOfLonger(name: Name, c: Byte)
    ensures var h := (16 * Hash(name) + c) % 0x1_0000_0000;
      Hash(name + [c]) == BitOp(XorOp, h % 0x1000_0000, h / 0x1000_0000 * 16)
  {
    hide BitOp;
    assert (name + [c])[..|name|] == name;
    StepClearsTop((Hash(name) * 16 + c) % P32);
  }

  /** "exit". */
  lemma HashOfExit()
    ensures Hash([0x65, 0x78, 0x69, 0x74]) == 0x6cf04
  {
    var s := [0x65, 0x78, 0x69, 0x74];
    ShortPowers();
    assert s[1..] == [0x78, 0x69, 0x74] && s[1..][1..] == [0x69, 0x74] && s[1..][1..][1..] == [0x74];
    assert Sum16([0x74]) == 0x74 * Pow16(0) + Sum16([]);
    HashIsSum(s);
  }

  /** The loop over a name's characters; the result never reaches 2^28. */
  method ElfHash(name: Name) returns (h: U32)
    ensures h == Hash(name) < P28
  {
    h := 0;
    for i := 0 to |name|
      invariant h == Hash(name[..i])
    {
      assert name[..i + 1][..i] == name[..i];
      h := HashStep(h, name[i]);
    }
    assert name[..|name|] == name;
  }

  // ---- Buckets and chains ----

  function Bucket(name: Name, nbucket: nat): (b: nat)
    requires nbucket > 0
    ensures b < nbucket
  {
    Hash(name) % nbucket
  }

  /** The last symbol before i in bucket h (symbols count from 1), and 0 when there is none. */
  function Last(names: seq<Name>, nbucket: nat, i: nat, h: nat): (s: nat)
    requires nbucket > 0 && i <= |names| + 1
    ensures s == 0 || s < i
  {
    if i <= 1 then 0
    else if Bucket(names[i - 2], nbucket) == h then i - 1
    else Last(names, nbucket, i - 1, h)
  }

  /** Every chain entry is the previous symbol of its bucket; every bucket holds its last. */
  predicate Chained(names: seq<Name>, bucket: seq<nat>, chain: seq<nat>) {
    && |bucket| > 0 && |chain| == |names| + 1
    && (forall h :: 0 <= h < |bucket| ==> bucket[h] == Last(names, |bucket|, |names| + 1, h))
    && chain[0] == 0
    && (forall i :: 1 <= i < |chain| ==> chain[i] == Last(names, |bucket|, i, Bucket(names[i - 1], |bucket|)))
  }

  /** The filling loop, over a zeroed table. */
  method FillTable(names: seq<Name>, bucket: array<nat>, chain: array<nat>)
    requires bucket != chain && bucket.Length > 0 && chain.Length == |names| + 1
    requires forall h :: 0 <= h < bucket.Length ==> bucket[h] == 0
    requires forall i :: 0 <= i < chain.Length ==> chain[i] == 0
    modifies bucket, chain
    ensures Chained(names, bucket[..], chain[..])
  {
    for i := 1 to |names| + 1
      invariant forall h :: 0 <= h < bucket.Length ==> bucket[h] == Last(names, bucket.Length, i, h)
      invariant chain[0] == 0
      invariant forall k :: 1 <= k < i ==> chain[k] == Last(names, bucket.Length, k, Bucket(names[k - 1], bucket.Length))
    {
      var full := ElfHash(names[i - 1]);
      var h := full % bucket.Length;
      chain[i] := bucket[h];
      bucket[h] := i;
    }
  }

  /** Chains go strictly down, so every walk ends at 0. */
  lemma ChainsDescend(names: seq<Name>, bucket: seq<nat>, chain: seq<nat>, i: nat)
    requires Chained(names, bucket, chain) && 1 <= i < |chain|
    ensures chain[i] < i && forall h :: 0 <= h < |bucket| ==> bucket[h] <= |names|
  {
  }

  /** The gABI lookup: from the bucket of the name along the chain until it matches. */
  method Lookup(names: seq<Name>, bucket: seq<nat>, chain: seq<nat>, key: Name) returns (found: nat)
    requires Chained(names, bucket, chain)
    ensures found <= |names|
    ensures found != 0 ==> names[found - 1] == key && forall j :: found <= j < |names| ==> names[j] != key
    ensures found == 0 <==> key !in names
  {
    hide Bucket, Last;
    var h := Bucket(key, |bucket|);
    var y: nat := bucket[h];
    NoneBetween(names, |bucket|, |names| + 1, key);
    while y != 0 && names[y - 1] != key
      invariant y <= |names| && (y != 0 ==> Bucket(names[y - 1], |bucket|) == h)
      invariant forall j :: y <= j < |names| ==> names[j] != key
      decreases y
    {
      NoneBetween(names, |bucket|, y, key);
      y := chain[y];
    }
    return y;
  }

  /** No symbol between the last of the name's bucket and i has that name. */
  lemma {:induction false} NoneBetween(names: seq<Name>, nbucket: nat, i: nat, key: Name)
    requires nbucket > 0 && i <= |names| + 1
    ensures var s := Last(names, nbucket, i, Bucket(key, nbucket));
      && (forall j :: s <= j < i - 1 ==> names[j] != key)
      && (s != 0 ==> Bucket(names[s - 1], nbucket) == Bucket(key, nbucket))
  {
    hide Hash;
    if i > 1 && Bucket(names[i - 2], nbucket) != Bucket(key, nbucket) {
      NoneBetween(names, nbucket, i - 1, key);
    }
  }
}
