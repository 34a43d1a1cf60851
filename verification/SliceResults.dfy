// What operands that pass their checks give: exactly when it is the address and the count that
// were asked for.
module SliceResults {
  import opened Words
  import opened Bits
  import opened Slices
  import A64Lower
  import A64Sums

  /** The address of element i. */
  function ElemAddr(src: Source, i: Index, elem: nat): U64 { (Pointer(src) + ValueOf(i) * elem) % P64 }

  /** What was asked for. */
  function Asked(op: Op, src: Source, elem: nat): Result {
    match op
    case At(i) => Elem(ElemAddr(src, i, elem))
    case From(i) => Part(ElemAddr(src, i, elem), WideWord(Length(src) - ValueOf(i)))
    case Between(i, j) => Part(ElemAddr(src, i, elem), WideWord(ValueOf(j) - ValueOf(i)))
    case To(j) => Part(Pointer(src), WideWord(ValueOf(j)))
  }

  predicate BaseKept(m: Machine, src: Source) { m.A64? && src.Array? ==> A64Lower.ImmExact(8, src.off) }

  predicate PowerOfTwo(n: nat)
    requires n > 0
  {
    Pow2(A64Sums.TrailingZeros(n)) == n
  }

  /** The index register holds the extended index in full when it is read. */
  predicate Extended(m: Machine, i: Index) { RegisterAfter(m, i) == Wide(i) }

  /** What the code relies on: that its checks are safe; on x86-64 extended index registers, which
      it provides for narrow ones; on AArch64 an encodable stack offset and elements of a power of
      two; for the count of an open range an extended index. */
  predicate Relied(m: Machine, op: Op, src: Source, elem: nat)
    requires elem > 0
  {
    && ChecksRelied(m, op, src) && BaseKept(m, src)
    && (m.A64? ==> op.To? || PowerOfTwo(elem))
    && (m.X86? && (op.At? || op.Between?) ==> Extended(m, op.i))
    && (op.From? ==> Extended(m, op.i))
  }

  lemma BaseExact(m: Machine, src: Source)
    requires Sized(src)
    ensures BaseUsed(m, src) == Pointer(src) <==> BaseKept(m, src)
  {
    hide A64Lower.ImmUsed, A64Lower.ImmExact;
    if src.Array? {
      CutLength(src.off);
      LowMod(8, src.fp - A64Lower.ImmUsed(src.off));
      LowMod(8, src.fp - src.off);
      A64Lower.CancelLow(8, src.fp, A64Lower.ImmUsed(src.off), src.off);
      LowSmall(8, src.off);
      LowSmall(8, A64Lower.ImmUsed(src.off));
    }
  }

  /** The address is right when its base and its offset are. */
  lemma AddressIs(m: Machine, src: Source, i: Index, elem: nat)
    requires Sized(src) && BaseKept(m, src) && elem > 0
    ensures Address(m, src, i, elem) == ElemAddr(src, i, elem)
      <==> (IndexUsed(m, i) * ScaleUsed(m, elem)) % P64 == (ValueOf(i) * elem) % P64
  {
    hide BaseUsed, IndexUsed, ScaleUsed, Pointer, ValueOf;
    BaseExact(m, src);
    var (a, b) := (IndexUsed(m, i) * ScaleUsed(m, elem), ValueOf(i) * elem);
    CancelMod(Pointer(src), a, b);
  }

  lemma CancelMod(p: int, a: int, b: int)
    ensures (p + a) % P64 == (p + b) % P64 <==> a % P64 == b % P64
  {
    A64Lower.CancelLow(8, p, a, b);
    LowMod(8, p + a);
    LowMod(8, p + b);
    LowMod(8, a);
    LowMod(8, b);
  }

  lemma ScaledMod(a: int, b: int, n: int)
    requires a % P64 == b % P64
    ensures (a * n) % P64 == (b * n) % P64
  {
    var k := a / P64 - b / P64;
    assert a == b + P64 * k;
    assert a * n == b * n + P64 * (k * n);
    ModShift(b * n, P64, k * n);
  }

  lemma RangeCount(i: Index, j: Index)
    requires Indexing(i) && i.size == j.size && i.signed == j.signed && 0 <= ValueOf(i) <= ValueOf(j)
    ensures Reading(i.signed, i.size, j.raw - i.raw) == ValueOf(j) - ValueOf(i)
  {
    var d := ValueOf(j) - ValueOf(i);
    RawDifference(i, j);
    SignedRange(j.size, j.raw);
    SignedLow(i.size, j.raw - i.raw);
    SignedLow(i.size, d);
    LowLow(j.size, j.raw);
    if i.signed {
      SignedFits(i.size, d);
    } else {
      LowSmall(i.size, d);
    }
  }

  lemma RawDifference(i: Index, j: Index)
    requires Indexing(i) && i.size == j.size && i.signed == j.signed
    ensures Low(i.size, j.raw - i.raw) == Low(i.size, ValueOf(j) - ValueOf(i))
  {
    hide Low, Signed;
    SignedLow(i.size, i.raw);
    SignedLow(j.size, j.raw);
    LowLow(i.size, i.raw);
    LowLow(j.size, j.raw);
    LowSum(i.size, j.raw, i.raw, ValueOf(j), ValueOf(i));
  }

  lemma AddressRight(m: Machine, src: Source, i: Index, elem: nat)
    requires Sized(src) && Indexing(i) && BaseKept(m, src) && elem > 0
    requires if m.X86? then Extended(m, i) else PowerOfTwo(elem)
    ensures Address(m, src, i, elem) == ElemAddr(src, i, elem)
  {
    hide Address, ElemAddr, BaseKept, ValueOf, A64Sums.TrailingZeros;
    AddressIs(m, src, i, elem);
    if m.X86? {
      LowMod(8, ValueOf(i));
      LowLow(8, ValueOf(i));
      SmallMod(Wide(i), P64);
      ScaledMod(Wide(i), ValueOf(i), elem);
    }
  }

  /** An access whose operands pass gives what was asked for. */
  lemma AccessRight(m: Machine, op: Op, src: Source, elem: nat)
    requires Sized(src) && WellTyped(op, src) && elem > 0 && Relied(m, op, src, elem)
    requires Access(m, op, src, elem) != Fails
    ensures Access(m, op, src, elem) == Asked(op, src, elem)
  {
    hide LengthTaken, Taken, Address, ElemAddr, Pointer, BaseUsed, BaseKept, PowerOfTwo, Reading, Low, Wide, ValueOf, ChecksRelied, Strays;
    PassingInBounds(m, op, src, elem);
    BaseExact(m, src);
    if !op.To? {
      IndexWide(op.i);
      AddressRight(m, src, op.i, elem);
    }
    if op.Between? {
      RangeCount(op.i, op.j);
    }
  }

  lemma IndexWide(i: Index)
    requires Indexing(i)
    ensures ValueOf(i) >= 0 ==> Wide(i) == ValueOf(i)
  {
    IndexForms(i);
  }

  // ---- When that is so for all operands ----

  ghost predicate Right(m: Machine, op: Op, src: Source, elem: nat)
    requires WellTyped(op, src) && elem > 0
  {
    Access(m, op, src, elem) != Fails ==> Access(m, op, src, elem) == Asked(op, src, elem)
  }

  /** Nothing but index 0 can pass. */
  predicate Empty(sz: nat, src: Source) { LengthUsed(A64, sz, src) == 0 }

  /** The addresses come out right: on x86-64 for indices that are extended or full; on AArch64 for
      an encodable stack offset and elements of a power of two, if there are any. */
  predicate AddressesKept(m: Machine, src: Source, sz: nat, elem: nat)
    requires elem > 0
  {
    if m.X86? then sz != 4 else BaseKept(m, src) && (PowerOfTwo(elem) || Empty(sz, src))
  }

  /** Whatever the registers hold, accesses of a type (open ranges apart) give what was asked for
      exactly when ranges are safe and addresses come out right. */
  lemma RightExactly(m: Machine, src: Source, sz: nat, signed: bool, elem: nat)
    requires Sized(src) && 0 < elem < 0x8000_0000 && IsSize(sz)
    ensures (forall op | WellTyped(op, src) && !op.From? && OfType(op, sz, signed) :: Right(m, op, src, elem))
      <==> Safe(m, BetweenForm, src, sz, signed) && AddressesKept(m, src, sz, elem)
  {
    hide Access, Asked, Safe, WellTyped, Right, AddressesKept, Escaping;
    if !Safe(m, BetweenForm, src, sz, signed) {
      EscapingWrong(m, src, sz, signed, elem);
    } else if AddressesKept(m, src, sz, elem) {
      forall op | WellTyped(op, src) && !op.From? && OfType(op, sz, signed) ensures Right(m, op, src, elem) {
        KeptRight(m, op, src, elem);
      }
    } else {
      LostAddress(m, src, sz, signed, elem);
    }
  }

  /** A range that escapes has the wrong count as well. */
  lemma EscapingWrong(m: Machine, src: Source, sz: nat, signed: bool, elem: nat)
    requires Sized(src) && elem > 0 && IsSize(sz) && !Safe(m, BetweenForm, src, sz, signed)
    ensures var op := Escaping(m, BetweenForm, src, sz, signed);
      WellTyped(op, src) && !op.From? && OfType(op, sz, signed) && !Right(m, op, src, elem)
  {
    hide Address, ElemAddr, LengthTaken, Taken, Safe, Passes, InBounds, Strays, Low, Signed;
    var op := Escaping(m, BetweenForm, src, sz, signed);
    EscapingMeans(m, BetweenForm, src, sz, signed);
    ChecksMean(m, op, src, elem);
    EscapingCount(m, src, sz, signed);
  }

  lemma EscapingCount(m: Machine, src: Source, sz: nat, signed: bool)
    requires IsSize(sz) && !Safe(m, BetweenForm, src, sz, signed)
    ensures var op := Escaping(m, BetweenForm, src, sz, signed);
      Strays(m, op.j, src) || WideWord(Reading(signed, sz, op.j.raw - op.i.raw)) != WideWord(ValueOf(op.j) - ValueOf(op.i))
  {
    hide A64Lower.ImmUsed;
    HalfForms(sz, signed);
  }

  /** The forms of a type are safe when its ranges are. */
  lemma SafeToo(m: Machine, form: Form, src: Source, sz: nat, signed: bool)
    requires IsSize(sz) && Safe(m, BetweenForm, src, sz, signed) && (form == ToForm ==> src.Array?)
    ensures form == FromForm || Safe(m, form, src, sz, signed)
  {
    hide A64Lower.ImmUsed;
  }

  lemma KeptRight(m: Machine, op: Op, src: Source, elem: nat)
    requires Sized(src) && WellTyped(op, src) && !op.From? && elem > 0
    requires Safe(m, BetweenForm, src, Bound(op).size, Bound(op).signed) && AddressesKept(m, src, Bound(op).size, elem)
    ensures Right(m, op, src, elem)
  {
    hide Access, Asked, LengthUsed, A64Lower.ImmExact, PowerOfTwo, Safe, Empty;
    SafeToo(m, FormOf(op), src, Bound(op).size, Bound(op).signed);
    if m.A64? && !PowerOfTwo(elem) {
      NothingAsked(op, src, elem);
    } else if Access(m, op, src, elem) != Fails {
      if !op.To? {
        FullIndex(m, op.i);
      }
      AccessRight(m, op, src, elem);
    }
  }

  lemma FullIndex(m: Machine, i: Index)
    requires Indexing(i)
    ensures m.X86? && i.size != 4 ==> Extended(m, i)
  {
    if i.size == 8 {
      SignedLow(8, i.raw);
      LowLow(8, i.raw);
    }
  }

  /** With nothing but index 0 passing, the scale does not matter. */
  lemma NothingAsked(op: Op, src: Source, elem: nat)
    requires Sized(src) && WellTyped(op, src) && !op.From? && elem > 0 && BaseKept(A64, src)
    requires Safe(A64, FormOf(op), src, Bound(op).size, Bound(op).signed) && Empty(Bound(op).size, src)
    ensures Right(A64, op, src, elem)
  {
    hide LengthTaken, Taken, Address, ElemAddr, Pointer, BaseUsed, BaseKept, Reading, ValueOf, Safe, Strays, Low, A64Lower.ImmUsed;
    ChecksMean(A64, op, src, elem);
    BaseExact(A64, src);
    if Access(A64, op, src, elem) != Fails {
      PassingInBounds(A64, op, src, elem);
      ComparedZero(op, src);
      if op.Between? {
        AddressAtZero(src, op.i, elem);
        RangeCount(op.i, op.j);
      }
    }
  }

  lemma ComparedZero(op: Op, src: Source)
    requires Sized(src) && WellTyped(op, src) && !op.From? && Passes(A64, op, src) && Empty(Bound(op).size, src)
    requires InBounds(op, Length(src))
    ensures !op.At? && (op.Between? ==> ValueOf(op.i) == 0)
  {
    hide A64Lower.ImmUsed;
    if src.Array? {
      CutLength(src.len);
    }
    LowLow(CompareWidth(A64, Bound(op).size), Bound(op).raw);
    IndexForms(Bound(op));
    if op.Between? {
      ZeroRegister(op.i);
      ZeroRegister(op.j);
    }
  }

  lemma ZeroRegister(i: Index)
    requires Indexing(i)
    ensures Low(CompareWidth(A64, i.size), i.raw) >= 0
    ensures Low(CompareWidth(A64, i.size), i.raw) == 0 ==> ValueOf(i) == 0
  {
    if i.size < 4 {
      RegisterForms(i);
    }
    IndexForms(i);
  }

  lemma AddressAtZero(src: Source, i: Index, elem: nat)
    requires ValueOf(i) == 0 && elem > 0
    ensures Address(A64, src, i, elem) == BaseUsed(A64, src) && ElemAddr(src, i, elem) == Pointer(src)
  {
    SmallMod(BaseUsed(A64, src), P64);
    SmallMod(Pointer(src), P64);
  }

  // ---- Witnesses ----

  /** An empty range at index v, whose register holds v and further bits above it. */
  function EmptyAt(sz: nat, signed: bool, v: nat, high: nat): Op
    requires v + high < P64
  {
    var i := Index(sz, signed, v + high);
    Between(i, i)
  }

  lemma EmptyPasses(m: Machine, sz: nat, signed: bool, v: nat, high: nat, src: Source, elem: nat)
    requires Sized(src) && elem > 0 && IsSize(sz) && v <= 1 && v <= LengthUsed(m, sz, src)
    requires high == 0 || (sz == 4 && high == P32)
    requires m.A64? || sz == 4
    ensures var op := EmptyAt(sz, signed, v, high);
      && WellTyped(op, src) && OfType(op, sz, signed) && ValueOf(op.i) == v
      && Access(m, op, src, elem) == Part(Address(m, src, op.i, elem), 0)
      && Asked(op, src, elem) == Part(ElemAddr(src, op.i, elem), 0)
  {
    hide Taken, LengthTaken, Address, ElemAddr;
    var op := EmptyAt(sz, signed, v, high);
    assert ValueOf(op.i) == v;
    ChecksMean(m, op, src, elem);
    RangeCount(op.i, op.j);
  }

  /** An address that is not the one asked for. */
  lemma LostAddress(m: Machine, src: Source, sz: nat, signed: bool, elem: nat)
    requires Sized(src) && 0 < elem < 0x8000_0000 && IsSize(sz) && !AddressesKept(m, src, sz, elem)
    ensures exists op :: WellTyped(op, src) && !op.From? && OfType(op, sz, signed) && !Right(m, op, src, elem)
  {
    hide Access, Asked, BaseKept, Address, ElemAddr, ValueOf, LengthUsed, PowerOfTwo, Right, WellTyped;
    var op := if m.X86? then EmptyAt(4, signed, 0, P32)
      else if !BaseKept(m, src) then EmptyAt(sz, signed, 0, 0) else EmptyAt(sz, signed, 1, 0);
    if m.X86? {
      LostBits(signed, src, elem);
    } else if !BaseKept(m, src) {
      LostBase(sz, signed, src, elem);
    } else {
      LostScale(sz, signed, src, elem);
    }
    assert WellTyped(op, src) && !op.From? && OfType(op, sz, signed) && !Right(m, op, src, elem);
  }

  lemma LostBits(signed: bool, src: Source, elem: nat)
    requires Sized(src) && 0 < elem < 0x8000_0000
    ensures var op := EmptyAt(4, signed, 0, P32);
      WellTyped(op, src) && OfType(op, 4, signed) && !Right(X86, op, src, elem)
  {
    hide Access, Asked, Address, ElemAddr, ValueOf;
    var op := EmptyAt(4, signed, 0, P32);
    EmptyPasses(X86, 4, signed, 0, P32, src, elem);
    AddressIs(X86, src, op.i, elem);
    assert (P32 * elem) % P64 == P32 * elem != 0;
  }

  lemma LostBase(sz: nat, signed: bool, src: Source, elem: nat)
    requires Sized(src) && elem > 0 && IsSize(sz) && !BaseKept(A64, src)
    ensures var op := EmptyAt(sz, signed, 0, 0);
      WellTyped(op, src) && OfType(op, sz, signed) && !Right(A64, op, src, elem)
  {
    hide Access, Asked, BaseKept, Address, ElemAddr, ValueOf;
    var op := EmptyAt(sz, signed, 0, 0);
    EmptyPasses(A64, sz, signed, 0, 0, src, elem);
    BaseExact(A64, src);
    AddressAtZero(src, op.i, elem);
  }

  lemma LostScale(sz: nat, signed: bool, src: Source, elem: nat)
    requires Sized(src) && 0 < elem < 0x8000_0000 && IsSize(sz)
    requires BaseKept(A64, src) && !PowerOfTwo(elem) && !Empty(sz, src)
    ensures var op := EmptyAt(sz, signed, 1, 0);
      WellTyped(op, src) && OfType(op, sz, signed) && !Right(A64, op, src, elem)
  {
    hide Access, Asked, BaseKept, Address, ElemAddr, ValueOf, LengthUsed;
    var op := EmptyAt(sz, signed, 1, 0);
    EmptyPasses(A64, sz, signed, 1, 0, src, elem);
    AddressIs(A64, src, op.i, elem);
    PowerBelow(elem);
    SmallMod(elem, P64);
    SmallMod(Pow2(A64Sums.TrailingZeros(elem)), P64);
    assert 1 * Pow2(A64Sums.TrailingZeros(elem)) == Pow2(A64Sums.TrailingZeros(elem)) && 1 * elem == elem;
  }

  /** The largest power of two in a number. */
  lemma {:induction false} PowerBelow(n: nat)
    requires n > 0
    ensures 0 < Pow2(A64Sums.TrailingZeros(n)) <= n
  {
    if n % 2 == 0 {
      PowerBelow(n / 2);
    }
  }

  // ---- Open ranges ----

  /** An open range has the exact count exactly when the index register holds the extended index in
      full when it is subtracted. */
  lemma OpenRangeExact(m: Machine, i: Index, src: Source, elem: nat)
    requires Sized(src) && Indexing(i) && elem > 0
    requires Access(m, From(i), src, elem) != Fails && Access(m, From(i), src, elem) != Astray
    ensures Access(m, From(i), src, elem).Part?
    ensures Access(m, From(i), src, elem).count == WideWord(Length(src) - ValueOf(i)) <==> Extended(m, i)
  {
    hide Taken, LengthTaken, Address, ValueOf, Reading, Low, Strays;
    var (n, r, v) := (Length(src), RegisterAfter(m, i), ValueOf(i));
    A64Lower.CancelLow(8, n, r, v);
    LowMod(8, n - r);
    LowMod(8, n - v);
    WordLow(m, i);
  }

  lemma WordLow(m: Machine, i: Index)
    ensures Low(8, RegisterAfter(m, i)) == RegisterAfter(m, i)
  {
  }
}
