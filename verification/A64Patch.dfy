// Writing resolved displacements into linked A64 words: the field is OR-ed into a word that
// was emitted with a zero field.
module A64Patch {
  import opened Words
  import opened Bits
  import opened TypeSys
  import opened LinkLayout
  import opened A64Instr

  /** A fix-up covers its one word. */
  const W: nat := 1

  const CSTR_CAP: nat := 0x1000

  /** The displacement of a fix-up from its own word: in words, or for strings (which follow
      the code) in bytes; none when the target is unknown. */
  function Resolve(fx: Fix, labels: seq<LabelDef>, syms: seq<LabelDef>, codeLen: nat): Option<int> {
    match fx.kind
    case StringRef => Some(4 * codeLen + fx.aux - 4 * fx.site)
    case CallTo => From(fx, Find(syms, fx.key))
    case _ => From(fx, Find(labels, fx.key))
  }

  function From(fx: Fix, target: Option<nat>): Option<int> {
    match target
    case None => None
    case Some(at) => Some(at - fx.site)
  }

  /** The displacement in the bits of its field. */
  function FieldBits(kind: FixKind, rel: int): (bits: U32) {
    match kind
    case StringRef => rel % 4 * 0x2000_0000 + rel / 4 % 0x8_0000 * 32
    case CondJump => rel % 0x8_0000 * 32
    case _ => rel % 0x400_0000
  }

  function Or(w: U32, v: U32): U32 {
    Pow2Sizes();
    OpRange(OrOp, w, v, 32);
    BitOp(OrOp, w, v)
  }

  function PatchOne(code: seq<U32>, fx: Fix, labels: seq<LabelDef>, syms: seq<LabelDef>): (r: seq<U32>)
    requires fx.site < |code|
    ensures |r| == |code|
  {
    match Resolve(fx, labels, syms, |code|)
    case None => code
    case Some(rel) => code[fx.site := Or(code[fx.site], FieldBits(fx.kind, rel))]
  }

  function PatchAll(code: seq<U32>, fixes: seq<Fix>, labels: seq<LabelDef>, syms: seq<LabelDef>): (r: seq<U32>)
    requires forall i :: 0 <= i < |fixes| ==> fixes[i].site < |code|
    ensures |r| == |code|
  {
    if fixes == [] then code
    else PatchOne(PatchAll(code, fixes[..|fixes| - 1], labels, syms), fixes[|fixes| - 1], labels, syms)
  }

  lemma PatchStep(code: seq<U32>, fixes: seq<Fix>, labels: seq<LabelDef>, syms: seq<LabelDef>, i: nat)
    requires i < |fixes| && forall k :: 0 <= k < |fixes| ==> fixes[k].site < |code|
    ensures PatchAll(code, fixes[..i + 1], labels, syms) == PatchOne(PatchAll(code, fixes[..i], labels, syms), fixes[i], labels, syms)
  {
    assert fixes[..i + 1][..i] == fixes[..i];
  }

  /** Words that no fix-up names are untouched. */
  lemma {:induction false} PatchedElsewhere(code: seq<U32>, fixes: seq<Fix>, labels: seq<LabelDef>, syms: seq<LabelDef>, p: nat)
    requires forall i :: 0 <= i < |fixes| ==> fixes[i].site < |code|
    requires p < |code| && forall i :: 0 <= i < |fixes| ==> fixes[i].site != p
    ensures PatchAll(code, fixes, labels, syms)[p] == code[p]
  {
    if fixes != [] {
      PatchedElsewhere(code, fixes[..|fixes| - 1], labels, syms, p);
    }
  }

  /** Sites differ, so each word receives exactly its own field. */
  lemma {:induction false} PatchedWord(code: seq<U32>, fixes: seq<Fix>, labels: seq<LabelDef>, syms: seq<LabelDef>, i: nat)
    requires Ordered(fixes, W, |code|) && i < |fixes|
    ensures var (s, v) := (fixes[i].site, Resolve(fixes[i], labels, syms, |code|));
      PatchAll(code, fixes, labels, syms)[s] == if v.None? then code[s] else Or(code[s], FieldBits(fixes[i].kind, v.value))
  {
    hide Resolve, Or, FieldBits;
    var front := fixes[..|fixes| - 1];
    if i < |front| {
      PatchedWord(code, front, labels, syms, i);
      assert front[i] == fixes[i] && fixes[i].site < fixes[|fixes| - 1].site;
    } else {
      PatchedElsewhere(code, front, labels, syms, fixes[i].site);
    }
  }

  // ---- OR-ing into a zero field ----

  lemma Powers()
    ensures Pow2(4) == 16 && Pow2(5) == 32 && Pow2(19) == 0x8_0000 && Pow2(26) == 0x400_0000
  {
    assert Pow2(5) == 32;
    Pow2Sum(5, 5);
    Pow2Sum(10, 9);
    assert Pow2(9) == 512;
    Pow2Sum(19, 7);
    assert Pow2(7) == 128;
  }

  lemma OrHigh(k: nat, b: nat, c: nat)
    requires c < Pow2(k)
    ensures BitOp(OrOp, Pow2(k) * b, c) == c + Pow2(k) * b
  {
    hide BitOp, Pow2;
    OpSplit(OrOp, k, 0, b, c, 0);
    OrZero(c);
    OrWithZero(b);
  }

  lemma OrLow(k: nat, a: nat, b: nat, d: nat)
    requires a < Pow2(k)
    ensures BitOp(OrOp, a + Pow2(k) * b, Pow2(k) * d) == a + Pow2(k) * BitOp(OrOp, b, d)
  {
    OpSplit(OrOp, k, a, b, 0, d);
    OrWithZero(a);
  }

  // ---- Placeholders become the resolved instruction ----

  /** The word a fix-up of this kind is emitted with. */
  predicate Placeholder(kind: FixKind, w: U32) {
    match kind
    case Jump => w == Encode(Branch(false, 0))
    case CallTo => w == Encode(Branch(true, 0))
    case CondJump => exists cond: nat :: cond < 16 && w == Encode(BranchCond(cond, 0))
    case StringRef => exists rd: RegNo :: w == Encode(Adr(rd, 0))
  }

  /** The same instruction with its displacement. */
  predicate Displaced(kind: FixKind, was: U32, w: U32, rel: int) {
    match kind
    case Jump => Decode(w) == Some(Branch(false, rel))
    case CallTo => Decode(w) == Some(Branch(true, rel))
    case CondJump => exists cond: nat :: cond < 16 && was == Encode(BranchCond(cond, 0)) && Decode(w) == Some(BranchCond(cond, rel))
    case StringRef => exists rd: RegNo :: was == Encode(Adr(rd, 0)) && Decode(w) == Some(Adr(rd, rel))
  }

  predicate InReach(kind: FixKind, rel: int) {
    match kind
    case CondJump => -0x4_0000 <= rel < 0x4_0000
    case StringRef => -0x10_0000 <= rel < 0x10_0000
    case _ => -0x200_0000 <= rel < 0x200_0000
  }

  lemma OrBranch(link: bool, rel: int)
    requires -0x200_0000 <= rel < 0x200_0000
    ensures Encode(Branch(link, 0)) < P32 && Or(Encode(Branch(link, 0)), rel % 0x400_0000) == Encode(Branch(link, rel))
  {
    Powers();
    OrHigh(26, if link then 37 else 5, rel % 0x400_0000);
  }

  lemma OrCond(cond: nat, rel: int)
    requires cond < 16
    ensures Encode(BranchCond(cond, 0)) < P32
      && Or(Encode(BranchCond(cond, 0)), rel % 0x8_0000 * 32) == Encode(BranchCond(cond, rel))
  {
    Powers();
    var imm := rel % 0x8_0000;
    OrLow(5, cond, 0x8_0000 * 0x54, imm);
    OrHigh(19, 0x54, imm);
  }

  lemma OrAdr(rd: RegNo, rel: int)
    ensures Encode(Adr(rd, 0)) < P32 && Or(Encode(Adr(rd, 0)), FieldBits(StringRef, rel)) == Encode(Adr(rd, rel))
  {
    hide BitOp, Pow2;
    Powers();
    var (lo, hi) := (rel % 4, rel / 4 % 0x8_0000);
    OrLow(5, rd, 0x8_0000 * 16, hi + 0x8_0000 * (32 * lo));
    OpSplit(OrOp, 19, 0, 16, hi, 32 * lo);
    OpSplit(OrOp, 5, 16, 0, 0, lo);
    OrZero(hi);
    OrZero(lo);
    OrWithZero(16);
  }

  /** Within reach, patching gives exactly the instruction with the displacement. */
  lemma PatchDisplaces(kind: FixKind, w: U32, rel: int)
    requires Placeholder(kind, w) && InReach(kind, rel)
    ensures Displaced(kind, w, Or(w, FieldBits(kind, rel)), rel)
  {
    hide Encode, Decode, Or;
    match kind
    case Jump =>
      OrBranch(false, rel);
      RoundTrip(Branch(false, rel), 0);
    case CallTo =>
      OrBranch(true, rel);
      RoundTrip(Branch(true, rel), 0);
    case CondJump =>
      var cond: nat :| cond < 16 && w == Encode(BranchCond(cond, 0));
      OrCond(cond, rel);
      RoundTrip(BranchCond(cond, rel), 0);
    case StringRef =>
      var rd: RegNo :| w == Encode(Adr(rd, 0));
      OrAdr(rd, rel);
      RoundTrip(Adr(rd, rel), 0);
  }
}
