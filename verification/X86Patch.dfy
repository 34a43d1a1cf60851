// Writing resolved displacements into linked x86-64 code.
module X86Patch {
  import opened Words
  import opened TypeSys
  import opened LinkLayout
  import opened X86Instr

  /** Width of every x86-64 fix-up field. */
  const W: nat := 4

  /** The displacement of a fix-up, relative to the end of its field; none when the target is
      unknown (an import, or an unresolved label). */
  function Resolve(fx: Fix, labels: seq<LabelDef>, syms: seq<LabelDef>, codeLen: nat): Option<int> {
    match fx.kind
    case StringRef => Some(codeLen + fx.aux - (fx.site + 4))
    case CallTo => RelTo(fx, Find(syms, fx.key))
    case _ => RelTo(fx, Find(labels, fx.key))
  }

  function RelTo(fx: Fix, target: Option<nat>): Option<int> {
    match target
    case None => None
    case Some(at) => Some(at - (fx.site + 4))
  }

  function Patch(code: seq<Byte>, site: nat, v: int): (r: seq<Byte>)
    requires site + 4 <= |code|
    ensures |r| == |code|
  {
    code[..site] + LE(v, 4) + code[site + 4..]
  }

  function PatchAll(code: seq<Byte>, fixes: seq<Fix>, labels: seq<LabelDef>, syms: seq<LabelDef>): (r: seq<Byte>)
    requires forall i :: 0 <= i < |fixes| ==> fixes[i].site + 4 <= |code|
    ensures |r| == |code|
  {
    if fixes == [] then code
    else
      var front, fx := fixes[..|fixes| - 1], fixes[|fixes| - 1];
      PatchOne(PatchAll(code, front, labels, syms), fx, labels, syms)
  }

  function PatchOne(code: seq<Byte>, fx: Fix, labels: seq<LabelDef>, syms: seq<LabelDef>): (r: seq<Byte>)
    requires fx.site + 4 <= |code|
    ensures |r| == |code|
  {
    match Resolve(fx, labels, syms, |code|)
    case None => code
    case Some(v) => Patch(code, fx.site, v)
  }

  lemma PatchStep(code: seq<Byte>, fixes: seq<Fix>, labels: seq<LabelDef>, syms: seq<LabelDef>, i: nat)
    requires i < |fixes| && forall k :: 0 <= k < |fixes| ==> fixes[k].site + 4 <= |code|
    ensures PatchAll(code, fixes[..i + 1], labels, syms) == PatchOne(PatchAll(code, fixes[..i], labels, syms), fixes[i], labels, syms)
  {
    assert fixes[..i + 1][..i] == fixes[..i];
  }

  /** Position p belongs to the field of fx. */
  predicate InField(fx: Fix, p: int) { fx.site <= p < fx.site + 4 }

  /** Bytes outside every field are untouched. */
  lemma {:induction false} PatchedElsewhere(code: seq<Byte>, fixes: seq<Fix>, labels: seq<LabelDef>, syms: seq<LabelDef>, p: nat)
    requires forall i :: 0 <= i < |fixes| ==> fixes[i].site + 4 <= |code|
    requires p < |code| && forall i :: 0 <= i < |fixes| ==> !InField(fixes[i], p)
    ensures PatchAll(code, fixes, labels, syms)[p] == code[p]
  {
    if fixes != [] {
      PatchedElsewhere(code, fixes[..|fixes| - 1], labels, syms, p);
    }
  }

  lemma PatchSlice(code: seq<Byte>, site: nat, v: int, at: nat)
    requires site + 4 <= |code| && at + 4 <= |code|
    ensures at == site ==> Patch(code, site, v)[at..at + 4] == LE(v, 4)
    ensures at + 4 <= site || site + 4 <= at ==> Patch(code, site, v)[at..at + 4] == code[at..at + 4]
  {
  }

  /** Fields do not overlap, so each ends up with its own displacement. */
  lemma {:induction false} PatchedField(code: seq<Byte>, fixes: seq<Fix>, labels: seq<LabelDef>, syms: seq<LabelDef>, i: nat)
    requires Ordered(fixes, W, |code|) && i < |fixes|
    ensures var s := fixes[i].site;
      PatchAll(code, fixes, labels, syms)[s..s + 4] ==
        match Resolve(fixes[i], labels, syms, |code|)
        case None => code[s..s + 4]
        case Some(v) => LE(v, 4)
  {
    var front, fx := fixes[..|fixes| - 1], fixes[|fixes| - 1];
    var c := PatchAll(code, front, labels, syms);
    var s := fixes[i].site;
    if i < |front| {
      PatchedField(code, front, labels, syms, i);
      assert front[i] == fixes[i] && s + 4 <= fx.site;
    } else {
      FieldUntouched(code, front, labels, syms, s);
    }
    match Resolve(fx, labels, syms, |code|) {
      case None =>
      case Some(v) => PatchSlice(c, fx.site, v, s);
    }
  }

  lemma FieldUntouched(code: seq<Byte>, fixes: seq<Fix>, labels: seq<LabelDef>, syms: seq<LabelDef>, s: nat)
    requires s + 4 <= |code|
    requires forall i :: 0 <= i < |fixes| ==> fixes[i].site + 4 <= s
    ensures PatchAll(code, fixes, labels, syms)[s..s + 4] == code[s..s + 4]
  {
    forall k | s <= k < s + 4 ensures PatchAll(code, fixes, labels, syms)[k] == code[k] {
      PatchedElsewhere(code, fixes, labels, syms, k);
    }
  }

  /** Within the code capacity a displacement is read back exactly from its field. */
  lemma FieldReadsBack(v: int)
    requires IsI32(v)
    ensures Signed(4, FromLE(LE(v, 4))) == v
  {
    FromLERoundTrip(v, 4);
    Pow256Sizes();
    SignedLow(4, v);
    SignedFits(4, v);
  }

  // ---- The instructions around the fields ----

  /** What a fix-up of the kind is emitted as; the displacement is its last four bytes. */
  predicate IsForm(kind: FixKind, i: Instr) {
    WellFormed(i)
    && match kind
       case Jump => i.Jmp?
       case CondJump => i.Jcc?
       case CallTo => i.Call?
       case StringRef => i.LeaRip?
  }

  /** The encoding of i ends at `end`. */
  predicate EndsAt(bs: seq<Byte>, end: nat, i: Instr) {
    |Encode(i)| <= end <= |bs| && bs[end - |Encode(i)|..end] == Encode(i)
  }

  /** The field of fix-up j is the displacement of an instruction of its kind, which starts after the
      field before it. */
  ghost predicate Standing(fixes: seq<Fix>, j: nat, body: seq<Byte>)
    requires j < |fixes|
  {
    exists i: Instr :: IsForm(fixes[j].kind, i) && i.rel == 0 && EndsAt(body, fixes[j].site + 4, i)
      && (j > 0 ==> fixes[j - 1].site + |Encode(i)| <= fixes[j].site)
  }

  ghost predicate Placed(o: Obj<Byte>) { WellPlaced(o, W) && forall j :: 0 <= j < |o.fixes| ==> Standing(o.fixes, j, o.body) }

  /** What stands in a body stays there while it grows. */
  lemma StandingGrows(fixes: seq<Fix>, j: nat, body: seq<Byte>, more: seq<Fix>, longer: seq<Byte>)
    requires j < |fixes| && fixes <= more && body <= longer && Standing(fixes, j, body)
    ensures Standing(more, j, longer)
  {
    hide Encode;
    var i: Instr :| IsForm(fixes[j].kind, i) && i.rel == 0 && EndsAt(body, fixes[j].site + 4, i)
      && (j > 0 ==> fixes[j - 1].site + |Encode(i)| <= fixes[j].site);
    assert EndsAt(longer, more[j].site + 4, i);
  }

  /** One more fix-up, for the instruction that was just emitted. */
  lemma NowStanding(fixes: seq<Fix>, before: seq<Byte>, f: Fix, i: Instr)
    requires IsForm(f.kind, i) && i.rel == 0 && f.site + 4 == |before + Encode(i)|
    requires fixes != [] ==> fixes[|fixes| - 1].site + 4 <= |before|
    ensures Standing(fixes + [f], |fixes|, before + Encode(i))
  {
    hide Encode, WellFormed;
    var (body, more) := (before + Encode(i), fixes + [f]);
    assert body[|before|..] == Encode(i);
    assert EndsAt(body, f.site + 4, i);
    assert more[|fixes|] == f && (fixes != [] ==> more[|fixes| - 1] == fixes[|fixes| - 1]);
  }

  /** Another displacement changes only the last four bytes. */
  lemma FormBytes(kind: FixKind, i: Instr, rel: int)
    requires IsForm(kind, i)
    ensures var n := |Encode(i)|;
      n >= 4 && |Encode(i.(rel := rel))| == n && Encode(i.(rel := rel)) == Encode(i)[..n - 4] + LE(rel, 4)
  {
    hide LE;
  }
}
