// A constant index into a slice: its count is compared with the index, and the failing branch is
// taken when it is not greater.
module StaticIndex {
  import opened Words
  import opened Registers
  import opened Conditions
  import X86Flags
  import X86Instr
  import X86Machine
  import X86Compare
  import A64Linker
  import A64Machine
  import A64Lower
  import A64Compare
  import opened Slices
  import opened SliceObjects

  /** On x86-64 the failing branch behind the emitted compare is taken exactly for an index out of
      bounds. */
  lemma X86StaticExact(count: X86Instr.RegNo, index: nat, s: X86Machine.State)
    requires index < 0x8000_0000
    ensures X86Compare.Stray(8, index) == []
    ensures X86Flags.XHolds(X86Flags.CondCode(LS), X86Machine.FlagsOf(X86Compare.StraightCmp(8, count, index), s))
      <==> s.regs[count] <= index
  {
    hide X86Machine.FlagsOf, X86Compare.StraightCmp, Low;
    X86ConstantBlock(HI, 8, count, index);
    assert X86ConstantRight(HI, 8, count, index, s);
    LowSmall(8, s.regs[count]);
    LowSmall(8, index);
  }

  ghost predicate A64Static(count: Reg, index: nat, s: A64Machine.State)
    requires General(count)
  {
    var taken := A64Machine.CondHolds(A64Linker.CondCode(LS), A64Machine.Exec(A64Compare.ComparingImm(count, index), s).flags);
    taken <==> s.regs[A64No(count)] <= index
  }

  /** On AArch64 in every state exactly when the index has an encoding. */
  lemma A64StaticExact(count: Reg, index: nat)
    requires General(count) && count.rsize == 8 && index < 0x8000_0000
    ensures (forall s: A64Machine.State :: A64Static(count, index, s)) <==> A64Lower.ImmExact(8, index)
  {
    hide A64Machine.Exec, A64Compare.ComparingImm, A64Lower.ImmExact, Low;
    forall s: A64Machine.State ensures A64Static(count, index, s) <==> A64ConstantRight(HI, count, index, s) {
      LowSmall(8, s.regs[A64No(count)]);
      LowSmall(8, index);
    }
    A64ConstantBlock(HI, count, index);
  }

  /** For one, index 8191 passes for a count of 4097. */
  lemma CutIndexPasses(count: Reg, s: A64Machine.State)
    requires General(count) && count.rsize == 8 && s.regs[A64No(count)] == 4097
    ensures !A64Lower.ImmExact(8, 8191) && !A64Static(count, 8191, s)
    ensures !A64Machine.CondHolds(A64Linker.CondCode(LS), A64Machine.Exec(A64Compare.ComparingImm(count, 8191), s).flags)
  {
    hide A64Machine.Exec, A64Machine.Straight;
    A64Compare.CmpImmMeaning(count, 8191, s);
  }

  /** An index below the count names an element of the object. */
  lemma StaticInside(index: nat, src: Source, o: Object)
    requires Viewing(src, o) && src.Slice? && o.elem > 0 && index < src.count
    ensures IsElement((src.ptr + index * o.elem) % P64, o)
  {
    hide Viewing, IsElement;
    var i := Index(8, false, index);
    assert ValueOf(i) == index;
    AskedLands(At(i), src, o);
  }
}
