// Checked element access and sub-slices: which operands pass the emitted checks, and where the
// results point. The numbers used here are those that the code of X86Slices and A64Slices
// computes.
module Slices {
  import opened Words
  import opened Bits
  import opened Registers
  import opened Conditions
  import X86Flags
  import X86Compare
  import A64Machine
  import A64Linker
  import A64Lower
  import A64Sums
  import A64Compare

  datatype Machine = X86 | A64

  /** An index register: its operand size and signedness, and all its 64 bits. */
  datatype Index = Index(size: nat, signed: bool, raw: U64)

  predicate Indexing(i: Index) { IsSize(i.size) }

  /** The number the index stands for. */
  function ValueOf(i: Index): int { Reading(i.signed, i.size, i.raw) }

  /** The index extended to 64 bits as its type says. */
  function Wide(i: Index): int { Low(8, ValueOf(i)) }

  /** What is indexed: an array of known length below the frame pointer, or a slice held in two
      registers. */
  datatype Source = Array(fp: U64, off: nat, len: nat) | Slice(ptr: U64, count: U64)

  datatype Op = At(i: Index) | From(i: Index) | Between(i: Index, j: Index) | To(j: Index)

  /** The failing branch, an element, a sub-slice, or bytes that are no comparison and branch. */
  datatype Result = Fails | Astray | Elem(addr: U64) | Part(ptr: U64, count: U64)

  function Pointer(src: Source): U64 { if src.Array? then (src.fp - src.off) % P64 else src.ptr }
  function Length(src: Source): nat { if src.Array? then src.len else src.count }

  // ---- Accesses in a program ----

  datatype Form = AtForm | FromForm | BetweenForm | ToForm

  /** An access: its form, what is indexed (with its length, if it is an array on the stack),
      the index registers, and the first of the two registers for the result. */
  datatype Site = Site(form: Form, obj: Reg, len: nat, elem: nat, i: Reg, j: Reg, dst: Reg)

  function OpOf(form: Form, i: Index, j: Index): Op {
    match form
    case AtForm => At(i)
    case FromForm => From(i)
    case BetweenForm => Between(i, j)
    case ToForm => To(j)
  }

  /** The first comparison: which index it is about and which condition fails. */
  function Bounded(x: Site): Reg { if x.form.AtForm? || x.form.FromForm? then x.i else x.j }
  function BoundCond(x: Site): (c: Cond)
    ensures Bounding(c)
  {
    if x.form.AtForm? || x.form.FromForm? then HS else HI
  }

  // ---- The checks ----

  predicate Bounding(cond: Cond) { cond == HS || cond == HI }

  /** x86-64 compares operands of their own width, AArch64 32- or 64-bit registers. */
  function CompareWidth(m: Machine, sz: nat): nat { if m.X86? then sz else A64Machine.Bytes(sz > 4) }

  /** The branch after comparing two registers at w bytes. */
  predicate Taken(m: Machine, cond: Cond, w: nat, a: int, b: int)
    requires Bounding(cond)
  {
    match m
    case X86 => XHolds(cond, X86Flags.Comparison(w, a, b))
    case A64 => A64Machine.CondHolds(A64Linker.CondCode(cond), A64Compare.Comparison(w, a, b))
  }

  predicate XHolds(cond: Cond, f: X86Flags.XFlags)
    requires HasX86(cond)
  {
    X86Flags.XHolds(X86Flags.CondCode(cond), f)
  }

  /** The branch after comparing an index with the length: with a constant at the index's width,
      or with the count register at 64 bits. */
  predicate LengthTaken(m: Machine, cond: Cond, i: Index, src: Source)
    requires Bounding(cond) && Indexing(i)
  {
    match src
    case Slice(_, count) => Taken(m, cond, 8, ValueOf(i), count)
    case Array(_, _, len) =>
      match m
      case X86 => XHolds(cond, X86Flags.Comparison(i.size, i.raw, X86Compare.ImmUsed(i.size, len)))
      case A64 => A64Machine.CondHolds(A64Linker.CondCode(cond), A64Compare.ImmFlags(CompareWidth(m, i.size), i.raw, len))
  }

  /** Other bytes stand between the comparison with the length and its branch. */
  predicate Strays(m: Machine, i: Index, src: Source) { m.X86? && src.Array? && X86Compare.Stray(i.size, src.len) != [] }

  // ---- The addresses ----

  /** On AArch64 the offset from the frame pointer is cut to a 12-bit immediate. */
  function BaseUsed(m: Machine, src: Source): U64 {
    if src.Slice? then src.ptr else (src.fp - (if m.A64? then A64Lower.ImmUsed(src.off) else src.off)) % P64
  }

  /** The index register after the code for the address: x86-64 extends narrow ones in place. */
  function RegisterAfter(m: Machine, i: Index): int { if m.X86? && i.size <= 2 then Wide(i) else i.raw }

  /** x86-64 scales the whole register, AArch64 the extended index... */
  function IndexUsed(m: Machine, i: Index): int { if m.X86? then RegisterAfter(m, i) else ValueOf(i) }

  /** ...by shifting it, which is multiplying by the largest power of two in the size. */
  function ScaleUsed(m: Machine, elem: nat): nat
    requires elem > 0
  {
    if m.X86? then elem else Pow2(A64Sums.TrailingZeros(elem))
  }

  function Address(m: Machine, src: Source, i: Index, elem: nat): U64
    requires elem > 0
  {
    (BaseUsed(m, src) + IndexUsed(m, i) * ScaleUsed(m, elem)) % P64
  }

  function WideWord(v: int): U64 { v % P64 }

  /** The generated code: checks that branch away, then address and count. */
  function Access(m: Machine, op: Op, src: Source, elem: nat): Result
    requires WellTyped(op, src) && elem > 0
  {
    if Strays(m, Bound(op), src) then Astray
    else
      match op
      case At(i) => if LengthTaken(m, HS, i, src) then Fails else Elem(Address(m, src, i, elem))
      case From(i) =>
        if LengthTaken(m, HS, i, src) then Fails
        else Part(Address(m, src, i, elem), WideWord(Length(src) - RegisterAfter(m, i)))   // all of the register
      case Between(i, j) =>
        if LengthTaken(m, HI, j, src) || Taken(m, HI, CompareWidth(m, i.size), i.raw, j.raw) then Fails
        else Part(Address(m, src, i, elem), WideWord(Reading(i.signed, i.size, j.raw - i.raw)))
      case To(j) => if LengthTaken(m, HI, j, src) then Fails else Part(BaseUsed(m, src), WideWord(ValueOf(j)))
  }

  /** The index that is compared with the length. */
  function Bound(op: Op): Index {
    match op
    case At(i) => i
    case From(i) => i
    case Between(_, j) => j
    case To(j) => j
  }

  function FormOf(op: Op): Form {
    match op
    case At(_) => AtForm
    case From(_) => FromForm
    case Between(_, _) => BetweenForm
    case To(_) => ToForm
  }

  /** Both operands of a range have one type, and ranges without a begin are taken of arrays. */
  predicate WellTyped(op: Op, src: Source) {
    match op
    case At(i) => Indexing(i)
    case From(i) => Indexing(i)
    case Between(i, j) => Indexing(i) && i.size == j.size && i.signed == j.signed
    case To(j) => Indexing(j) && src.Array?
  }

  /** Lengths and offsets of arrays are ints, and no object spans half the address space. */
  predicate Sized(src: Source) {
    Length(src) < 0x8000_0000_0000_0000 && (src.Array? ==> src.len < 0x8000_0000 && src.off < 0x8000_0000)
  }

  // ---- When an operand passes ----

  predicate InBounds(op: Op, len: nat) {
    match op
    case At(i) => 0 <= ValueOf(i) < len
    case From(i) => 0 <= ValueOf(i) < len
    case Between(i, j) => 0 <= ValueOf(i) <= ValueOf(j) <= len
    case To(j) => 0 <= ValueOf(j) <= len
  }

  /** What the index is compared with: x86-64 cuts a constant to the operand's width, AArch64 to
      an immediate. */
  function LengthUsed(m: Machine, sz: nat, src: Source): nat {
    match src
    case Slice(_, count) => count
    case Array(_, _, len) => if m.A64? then A64Lower.ImmUsed(len) else if sz == 1 then len % 256 else len
  }

  /** The number that is compared with it. */
  function Compared(m: Machine, i: Index, src: Source): int {
    if src.Slice? then Wide(i) else Low(CompareWidth(m, i.size), i.raw)
  }

  predicate Passes(m: Machine, op: Op, src: Source) {
    var (c, n) := (Compared(m, Bound(op), src), LengthUsed(m, Bound(op).size, src));
    match op
    case At(_) => c < n
    case From(_) => c < n
    case To(_) => c <= n
    case Between(i, j) => c <= n && (var w := CompareWidth(m, i.size); Low(w, i.raw) <= Low(w, j.raw))
  }

  lemma TakenMeans(m: Machine, cond: Cond, w: nat, a: int, b: int)
    requires Bounding(cond) && IsSize(w) && (m.A64? ==> w >= 4)
    ensures Taken(m, cond, w, a, b) == if cond == HS then Low(w, a) >= Low(w, b) else Low(w, a) > Low(w, b)
  {
    hide Low, X86Flags.XCompare, A64Machine.AddSubFlags;
    LowLow(w, a);
    LowLow(w, b);
    FlagsMean(cond, w, Low(w, a), Low(w, b));
  }

  lemma CutLength(n: nat)
    requires n < 0x8000_0000
    ensures A64Lower.ImmUsed(n) <= n && A64Lower.ImmUsed(n) <= 0xfff000
    ensures A64Lower.ImmUsed(n) == n <==> A64Lower.ImmExact(8, n)
  {
    A64Lower.ImmUsedExact(true, n);
    LowSmall(8, n);
    LowSmall(8, A64Lower.ImmUsed(n));
  }

  /** A length that fits its field is compared with as it is, modulo 256 at one byte. */
  lemma LengthField(sz: nat, len: nat)
    requires IsSize(sz) && len < 0x8000_0000 && X86Compare.Stray(sz, len) == []
    ensures Low(sz, X86Compare.ImmUsed(sz, len)) == if sz == 1 then len % 256 else len
  {
    SignedLow(1, len);
    SignedFits(4, len);
  }

  /** Every branch after a comparison with the length is one on two numbers. */
  lemma LengthTakenIs(m: Machine, cond: Cond, i: Index, src: Source)
    requires Bounding(cond) && Indexing(i) && Sized(src) && !Strays(m, i, src)
    ensures var (c, n) := (Compared(m, i, src), LengthUsed(m, i.size, src));
      LengthTaken(m, cond, i, src) <==> if cond == HS then c >= n else c > n
  {
    hide Low, X86Flags.XCompare, A64Machine.AddSubFlags, A64Lower.ImmUsed, Signed, Reading, X86Compare.ImmUsed;
    var w := CompareWidth(m, i.size);
    match src
    case Slice(_, count) =>
      TakenMeans(m, cond, 8, ValueOf(i), count);
      LowSmall(8, count);
    case Array(_, _, len) =>
      if m.X86? {
        LengthField(i.size, len);
        TakenMeans(m, cond, w, i.raw, X86Compare.ImmUsed(i.size, len));
      } else {
        CutLength(len);
        TakenMeans(m, cond, w, i.raw, A64Lower.ImmUsed(len));
        LowSmall(w, A64Lower.ImmUsed(len));
      }
  }

  /** The checks branch away exactly for operands that do not pass. */
  lemma ChecksMean(m: Machine, op: Op, src: Source, elem: nat)
    requires Sized(src) && WellTyped(op, src) && elem > 0
    ensures Access(m, op, src, elem) == Astray <==> Strays(m, Bound(op), src)
    ensures Access(m, op, src, elem) == Fails <==> !Strays(m, Bound(op), src) && !Passes(m, op, src)
  {
    hide Taken, LengthTaken, Address, ValueOf, LengthUsed, BaseUsed, Compared, Strays;
    if !Strays(m, Bound(op), src) {
      match op
      case At(i) => LengthTakenIs(m, HS, i, src);
      case From(i) => LengthTakenIs(m, HS, i, src);
      case To(j) => LengthTakenIs(m, HI, j, src);
      case Between(i, j) =>
        LengthTakenIs(m, HI, j, src);
        TakenMeans(m, HI, CompareWidth(m, i.size), i.raw, j.raw);
    }
  }

  // ---- The numbers that indices stand for ----

  /** The greatest number of an index type. */
  function Max(sz: nat, signed: bool): nat { if signed then Half(sz) - 1 else 2 * Half(sz) - 1 }

  /** The value, its wide form and its low bytes. */
  lemma IndexForms(i: Index)
    requires Indexing(i)
    ensures var (v, u) := (ValueOf(i), Low(i.size, i.raw));
      && 0 <= u <= Max(i.size, false) && v <= Max(i.size, i.signed) && 0 <= Wide(i) < P64
      && (v >= 0 <==> u <= Max(i.size, i.signed)) && (v >= 0 ==> Wide(i) == v == u)
      && (v < 0 ==> Wide(i) >= 0x8000_0000_0000_0000)
  {
    LowLow(i.size, i.raw);
  }

  /** A 32-bit register holds its low bytes and more above them. */
  lemma RegisterForms(i: Index)
    requires i.size == 1 || i.size == 2
    ensures var (u, c) := (Low(i.size, i.raw), Low(4, i.raw)); u <= c && (c < 2 * Half(i.size) ==> u == c)
  {
    ModDiv(i.raw, 256, 0x100_0000);
    ModDiv(i.raw, P16, P16);
  }

  /** The register holds the extended index as far as it is compared: always on x86-64. */
  predicate Held(m: Machine, i: Index) {
    var w := CompareWidth(m, i.size); Low(w, i.raw) == Low(w, ValueOf(i))
  }

  predicate AllHeld(m: Machine, op: Op) { Held(m, Bound(op)) && (op.Between? ==> Held(m, op.i)) }

  lemma OwnWidthHeld(m: Machine, i: Index)
    requires Indexing(i) && (m.X86? || i.size >= 4)
    ensures Held(m, i)
  {
    SignedLow(i.size, i.raw);
    LowLow(i.size, i.raw);
  }

  /** What is compared when the register holds the index: nonnegative numbers as they are,
      negative ones in the upper half. */
  lemma HeldForms(m: Machine, i: Index)
    requires Indexing(i) && Held(m, i)
    ensures var (w, v) := (CompareWidth(m, i.size), ValueOf(i)); var c := Low(w, i.raw);
      (v >= 0 ==> c == v) && (v < 0 ==> c > Max(w, true) && c >= Half(i.size))
  {
    hide Reading;
    IndexForms(i);
    var w := CompareWidth(m, i.size);
    ValueRange(i);
    NegativeLow(w, ValueOf(i));
  }

  lemma ValueRange(i: Index)
    requires Indexing(i)
    ensures 0 - Half(i.size) <= ValueOf(i) <= Max(i.size, i.signed)
  {
  }

  lemma NegativeLow(w: nat, v: int)
    requires IsSize(w) && 0 - Half(w) <= v < 2 * Half(w)
    ensures Low(w, v) == if v < 0 then v + 2 * Half(w) else v
  {
  }

  // ---- When the checks are right ----

  /** Of one type. */
  predicate OfType(op: Op, sz: nat, signed: bool) { Bound(op).size == sz && Bound(op).signed == signed }

  ghost predicate Checked(m: Machine, op: Op, src: Source, elem: nat)
    requires WellTyped(op, src) && elem > 0
  {
    Access(m, op, src, elem) != Astray && (Access(m, op, src, elem) == Fails <==> !InBounds(op, Length(src)))
  }

  /** The length survives its encoding, or (on AArch64) no index of the type reaches what is left. */
  predicate LengthKept(m: Machine, src: Source, sz: nat, signed: bool) {
    match src
    case Slice(_, _) => true
    case Array(_, _, len) =>
      match m
      case X86 => (sz <= 2 ==> len <= Max(sz, signed)) && (sz == 2 ==> len < 0x80)
      case A64 => A64Lower.ImmExact(8, len) || A64Lower.ImmUsed(len) > Max(sz, signed)
  }

  lemma HeldPasses(m: Machine, op: Op, src: Source)
    requires Sized(src) && WellTyped(op, src) && AllHeld(m, op) && LengthKept(m, src, Bound(op).size, Bound(op).signed)
    ensures !Strays(m, Bound(op), src) && (Passes(m, op, src) <==> InBounds(op, Length(src)))
  {
    hide Low, A64Lower.ImmUsed, A64Lower.ImmExact, ValueOf, Wide, Held;
    var b := Bound(op);
    IndexForms(b);
    HeldForms(m, b);
    if src.Array? {
      CutLength(src.len);
    }
    if op.Between? {
      IndexForms(op.i);
      HeldForms(m, op.i);
    }
  }

  /** For all operands of a type whose registers hold them, failing means out of bounds exactly
      when the length is kept: always for slices. */
  lemma ChecksExact(m: Machine, src: Source, sz: nat, signed: bool, elem: nat)
    requires Sized(src) && elem > 0 && IsSize(sz)
    ensures (forall op | WellTyped(op, src) && OfType(op, sz, signed) && AllHeld(m, op) :: Checked(m, op, src, elem))
      <==> LengthKept(m, src, sz, signed)
  {
    hide Access, InBounds, A64Lower.ImmUsed, A64Lower.ImmExact, Passes, LengthKept, Strays, AllHeld, Held;
    if LengthKept(m, src, sz, signed) {
      forall op | WellTyped(op, src) && OfType(op, sz, signed) && AllHeld(m, op) ensures Checked(m, op, src, elem) {
        HeldPasses(m, op, src);
        ChecksMean(m, op, src, elem);
      }
    } else {
      MischeckedMeans(m, src, sz, signed);
      var op := Mischecked(m, src, sz, signed);
      ChecksMean(m, op, src, elem);
      assert !Checked(m, op, src, elem);
    }
  }

  /** An operand on which a lost length is wrong. */
  function Mischecked(m: Machine, src: Source, sz: nat, signed: bool): Op
    requires IsSize(sz) && src.Array?
  {
    if m.A64? then At(Index(sz, signed, A64Lower.ImmUsed(src.len)))
    else if signed && src.len % 256 >= 128 then To(Index(sz, signed, 128))
    else At(Index(sz, signed, Max(sz, signed)))
  }

  lemma MischeckedMeans(m: Machine, src: Source, sz: nat, signed: bool)
    requires Sized(src) && IsSize(sz) && !LengthKept(m, src, sz, signed)
    ensures src.Array?
    ensures var op := Mischecked(m, src, sz, signed);
      && WellTyped(op, src) && OfType(op, sz, signed) && AllHeld(m, op)
      && (Strays(m, Bound(op), src) || (Passes(m, op, src) <==> !InBounds(op, Length(src))))
  {
    hide A64Lower.ImmUsed, A64Lower.ImmExact, Reading, Low;
    var op := Mischecked(m, src, sz, signed);
    CutLength(src.len);
    if m.X86? {
      OwnWidthHeld(m, Bound(op));
      HeldForms(m, Bound(op));
      SmallIndex(sz, signed, Max(sz, signed));
      ByteIndex();
    } else {
      SmallIndex(sz, signed, A64Lower.ImmUsed(src.len));
      SmallHeld(sz, signed, A64Lower.ImmUsed(src.len));
    }
  }

  lemma SmallIndex(sz: nat, signed: bool, v: nat)
    requires IsSize(sz) && v <= Max(sz, signed) && v < P64
    ensures ValueOf(Index(sz, signed, v)) == v && Low(sz, v) == v
  {
  }

  lemma SmallHeld(sz: nat, signed: bool, v: nat)
    requires IsSize(sz) && v <= Max(sz, signed) && v < P32
    ensures Held(A64, Index(sz, signed, v)) && Compared(A64, Index(sz, signed, v), Array(0, 0, 0)) == v
  {
    SmallIndex(sz, signed, v);
  }

  lemma ByteIndex()
    ensures ValueOf(Index(1, true, 128)) == -128 && Low(1, 128) == 128
  {
  }

  // ---- When they are safe ----

  /** Failing, or in bounds. */
  ghost predicate Guarded(m: Machine, op: Op, src: Source, elem: nat)
    requires WellTyped(op, src) && elem > 0
  {
    Access(m, op, src, elem) == Fails || (Access(m, op, src, elem) != Astray && InBounds(op, Length(src)))
  }

  /** Below half, an index cannot be a negative one in disguise. */
  predicate Safe(m: Machine, form: Form, src: Source, sz: nat, signed: bool) {
    var inclusive := form == AtForm || form == FromForm;
    match m
    case X86 =>
      src.Slice? || sz >= 4 || (if sz == 2 then src.len < 0x80
                                else signed ==> src.len % 256 <= (if inclusive then 128 else 127))
    case A64 =>
      if sz >= 4 then true
      else if src.Slice? then form != BetweenForm
      else
        var n := A64Lower.ImmUsed(src.len);
        if form == BetweenForm then n <= Max(sz, signed)
        else signed ==> n <= (if inclusive then Half(sz) else Half(sz) - 1)
  }

  lemma SafePasses(m: Machine, op: Op, src: Source)
    requires Sized(src) && WellTyped(op, src) && Passes(m, op, src)
    requires Safe(m, FormOf(op), src, Bound(op).size, Bound(op).signed)
    ensures !Strays(m, Bound(op), src) && InBounds(op, Length(src))
  {
    hide Low, A64Lower.ImmUsed, A64Lower.ImmExact, ValueOf, Wide;
    var b := Bound(op);
    IndexForms(b);
    if src.Array? {
      CutLength(src.len);
    }
    if b.size < 4 {
      RegisterForms(b);
    }
    if op.Between? {
      IndexForms(op.i);
      if b.size < 4 {
        RegisterForms(op.i);
      }
    }
  }

  /** An operand that passes and is out of bounds. */
  function Escaping(m: Machine, form: Form, src: Source, sz: nat, signed: bool): Op
    requires IsSize(sz)
  {
    var wraps := m.A64? && form == BetweenForm && sz < 4 && (src.Slice? || !signed);
    var i := Index(sz, signed, if form == BetweenForm && !wraps then 1 else Half(sz));
    OpOf(form, i, Index(sz, signed, if wraps then 2 * Half(sz) else Half(sz)))
  }

  lemma HalfForms(sz: nat, signed: bool)
    requires sz == 1 || sz == 2
    ensures ValueOf(Index(sz, signed, Half(sz))) == (if signed then 0 - Half(sz) else Half(sz))
    ensures ValueOf(Index(sz, signed, 2 * Half(sz))) == 0 && ValueOf(Index(sz, signed, 1)) == 1
    ensures Low(sz, Half(sz)) == Half(sz) == Low(4, Half(sz)) && Low(4, 2 * Half(sz)) == 2 * Half(sz)
    ensures Low(sz, 1) == 1 == Low(4, 1) && Wide(Index(sz, signed, 2 * Half(sz))) == 0
  {
  }

  lemma EscapingMeans(m: Machine, form: Form, src: Source, sz: nat, signed: bool)
    requires Sized(src) && IsSize(sz) && !Safe(m, form, src, sz, signed)
    ensures var op := Escaping(m, form, src, sz, signed);
      && sz < 4 && (WellTyped(op, src) <==> form != ToForm || src.Array?) && OfType(op, sz, signed) && FormOf(op) == form
      && (Strays(m, Bound(op), src) || (Passes(m, op, src) && !InBounds(op, Length(src))))
  {
    hide A64Lower.ImmUsed, Low, Reading, ValueOf, Wide;
    HalfForms(sz, signed);
  }

  /** Whatever the registers hold, operands of a form and type fail or are in bounds exactly when
      no number that passes can be a negative one. */
  lemma SafeExactly(m: Machine, form: Form, src: Source, sz: nat, signed: bool, elem: nat)
    requires Sized(src) && elem > 0 && IsSize(sz) && (form == ToForm ==> src.Array?)
    ensures (forall op | WellTyped(op, src) && FormOf(op) == form && OfType(op, sz, signed) :: Guarded(m, op, src, elem))
      <==> Safe(m, form, src, sz, signed)
  {
    hide Access, InBounds, Passes, Safe, Strays;
    if Safe(m, form, src, sz, signed) {
      forall op | WellTyped(op, src) && FormOf(op) == form && OfType(op, sz, signed) ensures Guarded(m, op, src, elem) {
        ChecksMean(m, op, src, elem);
        NoStrays(m, op, src);
        if Passes(m, op, src) {
          SafePasses(m, op, src);
        }
      }
    } else {
      EscapingMeans(m, form, src, sz, signed);
      ChecksMean(m, Escaping(m, form, src, sz, signed), src, elem);
      assert !Guarded(m, Escaping(m, form, src, sz, signed), src, elem);
    }
  }

  lemma NoStrays(m: Machine, op: Op, src: Source)
    requires WellTyped(op, src) && Safe(m, FormOf(op), src, Bound(op).size, Bound(op).signed)
    ensures !Strays(m, Bound(op), src)
  {
  }

  /** What an access relies on for its checks: a safe form, or on AArch64 registers that hold the
      indices. */
  predicate ChecksRelied(m: Machine, op: Op, src: Source) {
    Safe(m, FormOf(op), src, Bound(op).size, Bound(op).signed) || (m.A64? && AllHeld(m, op))
  }

  /** Then operands that pass are in bounds. */
  lemma PassingInBounds(m: Machine, op: Op, src: Source, elem: nat)
    requires Sized(src) && WellTyped(op, src) && elem > 0 && ChecksRelied(m, op, src)
    ensures Access(m, op, src, elem) != Astray
    ensures Access(m, op, src, elem) != Fails ==> InBounds(op, Length(src))
  {
    hide Access, InBounds, Passes, Safe, Strays, AllHeld;
    ChecksMean(m, op, src, elem);
    if Safe(m, FormOf(op), src, Bound(op).size, Bound(op).signed) {
      NoStrays(m, op, src);
      if Passes(m, op, src) {
        SafePasses(m, op, src);
      }
    } else {
      HeldInBounds(op, src);
    }
  }

  lemma HeldInBounds(op: Op, src: Source)
    requires Sized(src) && WellTyped(op, src) && AllHeld(A64, op)
    ensures !Strays(A64, Bound(op), src)
    ensures Passes(A64, op, src) ==> InBounds(op, Length(src))
  {
    hide Low, A64Lower.ImmUsed, A64Lower.ImmExact, ValueOf, Wide, Held;
    IndexForms(Bound(op));
    HeldForms(A64, Bound(op));
    if src.Array? {
      CutLength(src.len);
    }
    if op.Between? {
      IndexForms(op.i);
      HeldForms(A64, op.i);
    }
  }
}
