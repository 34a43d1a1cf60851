// Stack slots of stored variables: each takes the next bytes below the frame pointer.
module StackSlots {
  import opened TypeSys
  import opened Words
  import opened Bits
  import A64Frame

  const MAX_STACK_SLOTS := 64

  function Doubled(p: nat, n: nat): nat
    requires p > 0
    decreases n - p
  {
    if p >= n then p else Doubled(2 * p, n)
  }

  /** The least power of two that is not less than n. */
  function NextPow2(n: nat): nat { if n <= 1 then 1 else Doubled(1, n) }

  lemma {:induction false} DoubledHolds(p: nat, n: nat)
    requires p > 0
    ensures Doubled(p, n) >= n && Doubled(p, n) >= p
    decreases n - p
  {
    if p < n {
      DoubledHolds(2 * p, n);
    }
  }

  /** A size is rounded to the least power of two that holds it. */
  lemma {:induction false} DoubledLeast(k: nat, n: nat) returns (j: nat)
    requires k == 0 || Pow2(k - 1) < n
    ensures Doubled(Pow2(k), n) == Pow2(j) >= n && (j == 0 || Pow2(j - 1) < n)
    decreases n - Pow2(k)
  {
    if Pow2(k) >= n {
      j := k;
    } else {
      assert Pow2(k + 1) == 2 * Pow2(k);
      j := DoubledLeast(k + 1, n);
    }
  }

  lemma NextPow2Least(n: nat) returns (j: nat)
    requires n > 0
    ensures NextPow2(n) == Pow2(j) >= n && (j == 0 || Pow2(j - 1) < n)
  {
    j := DoubledLeast(0, n);
  }

  /** Align up to a multiple of 8. */
  function Align8(x: nat): (y: nat)
    ensures x <= y < x + 8 && y % 8 == 0
  {
    (x + 7) / 8 * 8
  }

  /** The outer array length of a type, and 0 when it is not an array. */
  function TryGetArr(d: DType): int {
    if d.decl != [] && d.decl[0].tag == DkArray then d.decl[0].amount else 0
  }

  function SlotSize(d: DType): nat
    requires d.base.Some? && TryGetArr(d) >= 0
  {
    NextPow2(d.base.value.size) * (if TryGetArr(d) != 0 then TryGetArr(d) else 1)
  }

  /** A slot holds the bytes from FP - offset up to FP - offset + size. */
  datatype Slot = Slot(name: string, offset: nat, size: nat)

  predicate Apart(a: Slot, b: Slot) { a.offset <= b.offset - b.size || b.offset <= a.offset - a.size }

  /** Slots lie below each other within the stack size. */
  predicate SlotsOk(slots: seq<Slot>, stackSize: nat) {
    && (forall i :: 0 <= i < |slots| ==> slots[i].size <= slots[i].offset <= stackSize)
    && (forall i, j :: 0 <= i < j < |slots| ==> Apart(slots[i], slots[j]))
  }

  class Target {
    const name: string
    var offset: nat
    var isSet: bool

    constructor (name: string)
      ensures !isSet && this.name == name
    {
      this.name, offset, isSet := name, 0, false;
    }
  }

  class SlotAllocator {
    var stackSize: nat
    var recorded: seq<Slot>       // the first ones, for reports
    ghost var slots: seq<Slot>    // all of them

    ghost predicate Valid()
      reads this
    {
      && SlotsOk(slots, stackSize)
      && recorded == if |slots| <= MAX_STACK_SLOTS then slots else slots[..MAX_STACK_SLOTS]
    }

    constructor ()
      ensures Valid() && stackSize == 0 && slots == []
    {
      stackSize, recorded, slots := 0, [], [];
    }

    /** Where a stored value goes: a new slot on the first store, the same one after that. */
    method ResolveStackStoreTarget(target: Target, src: DType) returns (outOffset: nat)
      requires Valid() && src.base.Some? && TryGetArr(src) >= 0
      modifies this, target
      ensures Valid() && target.isSet && target.offset == outOffset
      ensures old(target.isSet) ==> outOffset == old(target.offset) && slots == old(slots) && stackSize == old(stackSize)
      ensures !old(target.isSet) ==>
        && slots == old(slots) + [Slot(target.name, outOffset, SlotSize(src))]
        && stackSize == outOffset >= old(stackSize) + SlotSize(src)
        && (SlotSize(src) > 8 ==> outOffset % 8 == 0 && outOffset < old(stackSize) + SlotSize(src) + 8)
        && (SlotSize(src) <= 8 ==> outOffset == old(stackSize) + SlotSize(src))
    {
      if !target.isSet {
        var size := SlotSize(src);
        ghost var before := stackSize;
        stackSize := stackSize + size;
        if size > 8 {
          stackSize := Align8(stackSize);
        }
        outOffset := stackSize;
        ghost var slot := Slot(target.name, outOffset, size);
        OneMoreSlot(slots, before, slot, stackSize);
        if |recorded| < MAX_STACK_SLOTS {
          recorded := recorded + [Slot(target.name, outOffset, size)];
        }
        slots := slots + [slot];
      } else {
        outOffset := target.offset;
      }
      target.offset := outOffset;
      target.isSet := true;
    }
  }

  lemma OneMoreSlot(slots: seq<Slot>, before: nat, slot: Slot, after: nat)
    requires SlotsOk(slots, before) && before + slot.size <= slot.offset <= after
    ensures SlotsOk(slots + [slot], after)
  {
  }

  /** In the final frame every slot lies between the stack pointer and the frame pointer, below
      all save slots, and two slots share no byte. */
  lemma SlotsInFrame(slots: seq<Slot>, f: A64Frame.FrameInfo, sp: int, i: nat, j: nat)
    requires SlotsOk(slots, f.locals) && i < j < |slots|
    ensures var fp := sp + A64Frame.Objs(f);
      && sp <= fp - slots[i].offset <= fp - slots[i].offset + slots[i].size <= fp
      && (fp - slots[i].offset + slots[i].size <= fp - slots[j].offset || fp - slots[j].offset + slots[j].size <= fp - slots[i].offset)
  {
    assert Apart(slots[i], slots[j]);
  }

  /** A slot is large enough for its value, and less than twice as large. */
  lemma SlotHolds(d: DType)
    requires d.base.Some? && TryGetArr(d) >= 0
    ensures SlotSize(d) >= d.base.value.size
    ensures d.decl == [] || (d.decl[0].tag == DkArray && |d.decl| == 1 && d.decl[0].amount > 0) ==>
      Size(d) <= SlotSize(d) && (d.base.value.size > 0 ==> SlotSize(d) < 2 * Size(d))
  {
    DoubledHolds(1, d.base.value.size);
    var (p, n) := (NextPow2(d.base.value.size), if TryGetArr(d) != 0 then TryGetArr(d) else 1);
    assert p >= d.base.value.size;
    Scaled(p, d.base.value.size, n);
    if d.base.value.size > 0 {
      var j := NextPow2Least(d.base.value.size);
      assert j > 0 ==> Pow2(j) == 2 * Pow2(j - 1);
      BelowTwice(p, d.base.value.size, n);
    }
  }

  lemma Twice(n: nat, b: nat)
    ensures n * (2 * b) == 2 * (b * n)
  {
  }

  lemma BelowTwice(p: nat, b: nat, n: nat)
    requires p < 2 * b && n >= 1
    ensures p * n < 2 * (b * n)
  {
    MulStrict(n, p, 2 * b);
    Twice(n, b);
  }

  lemma Scaled(p: nat, b: nat, n: nat)
    requires p >= b && n >= 1
    ensures p * n >= b * n >= b
  {
  }
}
