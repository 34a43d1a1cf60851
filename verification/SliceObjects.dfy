// Accesses that pass their checks stay inside the object they were made from, however many follow
// each other.
module SliceObjects {
  import opened Words
  import opened Slices
  import opened SliceResults

  /** n elements of `elem` bytes from base on, smaller than half the address space. */
  datatype Object = Object(base: nat, n: nat, elem: nat)

  predicate IsObject(o: Object) { o.elem > 0 && o.base + o.n * o.elem <= P64 && o.n * o.elem < 0x8000_0000_0000_0000 }

  /** The source is a run of whole elements of the object. */
  ghost predicate Inside(src: Source, o: Object) {
    exists k: nat :: k + Length(src) <= o.n && Pointer(src) == (o.base + k * o.elem) % P64
  }

  /** Of a length that an int holds, if it is an array. */
  ghost predicate Viewing(src: Source, o: Object) {
    IsObject(o) && Inside(src, o) && (src.Array? ==> src.len < 0x8000_0000 && src.off < 0x8000_0000)
  }

  lemma ObjectSmall(o: Object, k: nat)
    requires IsObject(o) && k <= o.n
    ensures k * o.elem <= o.n * o.elem && k <= k * o.elem
  {
    MulUp(k, o.n, o.elem);
    MulUp(1, o.elem, k);
  }

  lemma MulUp(a: nat, b: nat, c: nat)
    requires a <= b
    ensures a * c <= b * c && c * a <= c * b
  {
  }

  lemma ViewingSized(src: Source, o: Object)
    requires Viewing(src, o)
    ensures Sized(src) && o.elem > 0
  {
    ObjectSmall(o, o.n);
  }

  lemma AddrOf(src: Source, i: Index, o: Object, k: nat)
    requires IsObject(o) && k + Length(src) <= o.n && Pointer(src) == (o.base + k * o.elem) % P64
    requires 0 <= ValueOf(i) <= Length(src)
    ensures ElemAddr(src, i, o.elem) == (o.base + (k + ValueOf(i)) * o.elem) % P64
  {
    hide IsObject, ValueOf, Reading, Pointer;
    var v := ValueOf(i);
    AddOffset(Pointer(src), o.base + k * o.elem, v * o.elem);
    Distribute(k, v, o.elem);
  }

  lemma AddOffset(p: int, a: int, d: int)
    requires p == a % P64
    ensures (p + d) % P64 == (a + d) % P64
  {
    ModSum(p, d, a, d, P64);
  }

  lemma Distribute(k: int, v: int, elem: int)
    ensures (k + v) * elem == k * elem + v * elem
  {
  }

  /** One whole element of the object. */
  predicate IsElement(a: U64, o: Object)
    requires o.elem > 0
  {
    o.base <= a && a + o.elem <= o.base + o.n * o.elem && (a - o.base) % o.elem == 0
  }

  lemma ElementInside(o: Object, e: nat)
    requires IsObject(o) && e < o.n
    ensures var a := o.base + e * o.elem; a % P64 == a < P64 && IsElement(a, o)
  {
    var d := e * o.elem;
    MulStrict(o.elem, e, o.n);
    DivModUnique(d, o.elem, e, 0);
    SmallMod(o.base + d, P64);
    assert o.base + d - o.base == d;
  }

  lemma PartInside(p: U64, c: nat, o: Object, k: nat)
    requires IsObject(o) && k + c <= o.n && p == (o.base + k * o.elem) % P64 && c < P64
    ensures Inside(Slice(p, c), o)
  {
    assert Length(Slice(p, c)) == c && Pointer(Slice(p, c)) == p;
  }

  /** The result is an element of the object, or a run of its whole elements with exactly the
      count the operands ask for. */
  ghost predicate Lands(op: Op, src: Source, r: Result, o: Object)
    requires o.elem > 0
  {
    match r
    case Fails => false
    case Astray => false
    case Elem(a) => op.At? && IsElement(a, o)
    case Part(p, c) =>
      && !op.At? && Inside(Slice(p, c), o)
      && c == (if op.From? then Length(src) else ValueOf(op.j)) - (if op.To? then 0 else ValueOf(op.i))
  }

  lemma AskedLands(op: Op, src: Source, o: Object)
    requires Viewing(src, o) && InBounds(op, Length(src)) && o.elem > 0
    ensures Lands(op, src, Asked(op, src, o.elem), o)
  {
    hide ElemAddr, ValueOf, IsElement, IsObject, Inside, Pointer;
    assert Inside(src, o);
    var k := Start(src, o);
    ViewingSized(src, o);
    match op
    case At(i) =>
      AddrOf(src, i, o, k);
      ElementInside(o, k + ValueOf(i));
    case From(i) => RunInside(src, i, Length(src), o, k);
    case Between(i, j) => RunInside(src, i, ValueOf(j), o, k);
    case To(j) =>
      SmallMod(ValueOf(j), P64);
      PartInside(Pointer(src), ValueOf(j), o, k);
  }

  /** The elements from i up to n. */
  lemma RunInside(src: Source, i: Index, n: nat, o: Object, k: nat)
    requires IsObject(o) && k + Length(src) <= o.n && Pointer(src) == (o.base + k * o.elem) % P64
    requires 0 <= ValueOf(i) <= n <= Length(src) < P64
    ensures WideWord(n - ValueOf(i)) == n - ValueOf(i)
    ensures Inside(Slice(ElemAddr(src, i, o.elem), n - ValueOf(i)), o)
  {
    hide IsObject, ValueOf, Pointer, ElemAddr, Inside;
    AddrOf(src, i, o, k);
    SmallMod(n - ValueOf(i), P64);
    PartInside(ElemAddr(src, i, o.elem), n - ValueOf(i), o, k + ValueOf(i));
  }

  lemma Start(src: Source, o: Object) returns (k: nat)
    requires Inside(src, o)
    ensures k + Length(src) <= o.n && Pointer(src) == (o.base + k * o.elem) % P64
  {
    k :| k + Length(src) <= o.n && Pointer(src) == (o.base + k * o.elem) % P64;
  }

  /** An access that passes its checks stays inside its object. */
  lemma AccessInside(m: Machine, op: Op, src: Source, o: Object)
    requires Viewing(src, o) && WellTyped(op, src) && o.elem > 0 && Relied(m, op, src, o.elem)
    ensures Access(m, op, src, o.elem) != Fails ==> Lands(op, src, Access(m, op, src, o.elem), o)
  {
    hide Access, Asked, Lands, InBounds, ChecksRelied, BaseKept, PowerOfTwo, Extended, Inside, IsObject;
    ViewingSized(src, o);
    if Access(m, op, src, o.elem) != Fails {
      PassingInBounds(m, op, src, o.elem);
      AccessRight(m, op, src, o.elem);
      AskedLands(op, src, o);
    }
  }

  /** On x86-64, in objects below 4 GiB, an index that passes a safe check hits the object exactly
      when the bits above it are lost in the scaling. */
  lemma X86IndexExact(i: Index, src: Source, o: Object)
    requires Viewing(src, o) && o.n * o.elem < P32 && Indexing(i) && o.elem > 0
    requires ChecksRelied(X86, At(i), src) && Access(X86, At(i), src, o.elem) != Fails
    ensures var r := Access(X86, At(i), src, o.elem);
      r.Elem? && (IsElement(r.addr, o) <==> (IndexUsed(X86, i) * o.elem) % P64 == (ValueOf(i) * o.elem) % P64)
  {
    hide LengthTaken, ValueOf, Viewing, Pointer, BaseUsed, Address, ElemAddr, IndexUsed, ChecksRelied, Strays;
    ViewingSized(src, o);
    PassingInBounds(X86, At(i), src, o.elem);
    AskedLands(At(i), src, o);
    AddressIs(X86, src, i, o.elem);
    var (a, e) := (Address(X86, src, i, o.elem), ElemAddr(src, i, o.elem));
    SameLowHalf(src, i, o.elem);
    if IsElement(a, o) {
      Near(a, e, o.n * o.elem);
    }
  }

  /** The upper half of the register only moves the address by multiples of 4 GiB. */
  lemma SameLowHalf(src: Source, i: Index, elem: nat)
    requires Indexing(i) && ValueOf(i) >= 0 && elem > 0
    ensures Address(X86, src, i, elem) % P32 == ElemAddr(src, i, elem) % P32
  {
    IndexForms(i);
    SmallMod(i.raw, P64);
    LowHalf(Pointer(src), IndexUsed(X86, i), ValueOf(i), elem);
  }

  lemma LowHalf(b: int, raw: nat, v: nat, elem: nat)
    requires raw % P32 == v % P32
    ensures (b + raw * elem) % P64 % P32 == (b + v * elem) % P64 % P32
  {
    ModDiv(b + raw * elem, P32, P32);
    ModDiv(b + v * elem, P32, P32);
    var k := raw / P32 - v / P32;
    assert raw == v + P32 * k;
    assert raw * elem == v * elem + P32 * (k * elem);
    ModShift(b + v * elem, P32, k * elem);
  }

  lemma Near(a: nat, e: nat, size: nat)
    requires a % P32 == e % P32 && a < e + size && e < a + size && size < P32
    ensures a == e
  {
  }

  // ---- Chains ----

  function AsSource(r: Result): Source
    requires r.Part?
  {
    Slice(r.ptr, r.count)
  }

  predicate ChainTyped(m: Machine, ops: seq<Op>, src: Source, elem: nat)
    requires elem > 0
  {
    ops != [] && WellTyped(ops[0], src) && Relied(m, ops[0], src, elem)
    && forall k :: 0 < k < |ops| ==> WellTyped(ops[k], Slice(0, 0)) && Relied(m, ops[k], Slice(0, 0), elem)
  }

  /** Sub-slices one after the other, then one element. */
  function Chain(m: Machine, ops: seq<Op>, src: Source, elem: nat): Result
    requires elem > 0 && ChainTyped(m, ops, src, elem)
    decreases |ops|
  {
    var r := Access(m, ops[0], src, elem);
    if !r.Part? || |ops| == 1 then r
    else
      RestTyped(m, ops, src, AsSource(r), elem);
      Chain(m, ops[1..], AsSource(r), elem)
  }

  lemma RestTyped(m: Machine, ops: seq<Op>, src: Source, next: Source, elem: nat)
    requires elem > 0 && ChainTyped(m, ops, src, elem) && |ops| > 1 && next.Slice?
    ensures ChainTyped(m, ops[1..], next, elem)
  {
  }

  /** However long the chain: if every check passes, the result is an element of the original
      object, or a run of its elements. */
  lemma {:induction false} ChainInside(m: Machine, ops: seq<Op>, src: Source, o: Object)
    requires Viewing(src, o) && o.elem > 0 && ChainTyped(m, ops, src, o.elem)
    ensures match Chain(m, ops, src, o.elem)
      case Fails => true
      case Astray => false
      case Elem(a) => IsElement(a, o)
      case Part(p, c) => Inside(Slice(p, c), o)
    decreases |ops|
  {
    hide Access, InBounds, Inside, Relied, IsObject, IsElement;
    var r := Access(m, ops[0], src, o.elem);
    AccessInside(m, ops[0], src, o);
    if r.Part? && |ops| > 1 {
      RestTyped(m, ops, src, AsSource(r), o.elem);
      ChainInside(m, ops[1..], AsSource(r), o);
    }
  }
}
