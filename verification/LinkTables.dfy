// The tables of the in-memory linkers: entries are relative to the body being emitted until
// its function is placed.
module LinkTables {
  import opened Words
  import opened LinkKeys
  import opened LinkLayout

  const FIXUP_CAP: nat := 1024

  /** Table entries; `done` says the offset is already relative to the linked code. */
  datatype Label = Label(key: string, at: nat, done: bool)
  datatype Fixup = Fixup(fix: Fix, done: bool)

  /** Per-function state that outlives a nested compilation. */
  class EmitContext {
    var fnName: string
    var fnNamed: bool

    constructor () {
      fnName, fnNamed := "", false;
    }
  }

  const QUOTE: Byte := 34

  function Unquoted(s: seq<Byte>): seq<Byte> {
    if |s| >= 2 && s[0] == QUOTE then s[1..|s| - 1] else s
  }

  /** A literal as the parser hands it over loses its first and last character; any other text,
      and one too short to be quoted, stays as it is. */
  lemma UnquotedText(t: seq<Byte>, last: Byte)
    ensures Unquoted([34] + t + [last]) == t
    ensures |t| < 2 || t[0] != 34 ==> Unquoted(t) == t
  {
    var s := [34] + t + [last];
    assert |s| == |t| + 2 && s[0] == QUOTE;
    assert s[1..|s| - 1] == t;
  }

  /** The literal appended to the string area by a fix-up with this `aux` stands there, terminated. */
  predicate StringAt(cstrs: seq<Byte>, aux: nat, t: seq<Byte>) {
    aux + |t| + 1 <= |cstrs| && cstrs[aux..aux + |t|] == t && cstrs[aux + |t|] == 0
  }

  /** A literal appended to the string area is at its old end. */
  lemma LastString(cstrs: seq<Byte>, t: seq<Byte>)
    ensures StringAt(cstrs + t + [0], |cstrs|, t)
  {
  }

  /** It stays there while more literals follow. */
  lemma StringStays(cstrs: seq<Byte>, more: seq<Byte>, aux: nat, t: seq<Byte>)
    requires StringAt(cstrs, aux, t)
    ensures StringAt(cstrs + more, aux, t)
  {
    assert (cstrs + more)[aux..aux + |t|] == cstrs[aux..aux + |t|];
  }

  /** t stands at place `at`, terminated. */
  predicate Stands(text: seq<Byte>, at: int, t: seq<Byte>) {
    0 <= at && at + |t| + 1 <= |text| && text[at..at + |t| + 1] == t + [0]
  }

  /** The strings follow the code. */
  lemma StringsFollow(a: seq<Byte>, cstrs: seq<Byte>, aux: nat, t: seq<Byte>)
    requires StringAt(cstrs, aux, t)
    ensures Stands(a + cstrs, |a| + aux, t)
  {
    var (text, at) := (a + cstrs, |a| + aux);
    assert text[at..at + |t|] == cstrs[aux..aux + |t|];
  }

  function AsLabels(ls: seq<LabelDef>, done: bool): (r: seq<Label>)
    ensures |r| == |ls| && forall i :: 0 <= i < |ls| ==> r[i] == Label(ls[i].key, ls[i].at, done)
  {
    seq(|ls|, i requires 0 <= i < |ls| => Label(ls[i].key, ls[i].at, done))
  }

  function AsFixups(fs: seq<Fix>, done: bool): (r: seq<Fixup>)
    ensures |r| == |fs| && forall i :: 0 <= i < |fs| ==> r[i] == Fixup(fs[i], done)
  {
    seq(|fs|, i requires 0 <= i < |fs| => Fixup(fs[i], done))
  }

  /** An entry after the function that holds it is placed at delta. */
  function MovedLabel(l: Label, delta: nat): Label { if l.done then l else Label(l.key, l.at + delta, true) }

  function MovedFixup(f: Fixup, delta: nat): Fixup {
    if f.done then f else Fixup(f.fix.(site := f.fix.site + delta), true)
  }

  function Defs(ls: seq<Label>): (r: seq<LabelDef>)
    ensures |r| == |ls| && forall i :: 0 <= i < |ls| ==> r[i] == LabelDef(ls[i].key, ls[i].at)
  {
    seq(|ls|, i requires 0 <= i < |ls| => LabelDef(ls[i].key, ls[i].at))
  }

  lemma LabelsPlaced<T>(objs: seq<Obj<T>>, o: Obj<T>, was: seq<Label>, now: seq<Label>)
    requires was == AsLabels(Labels(objs), true) + AsLabels(o.labels, false) && |now| == |was|
    requires forall j :: 0 <= j < |now| ==> now[j] == MovedLabel(was[j], BodyStart(objs, o))
    ensures now == AsLabels(Labels(objs + [o]), true)
  {
    CodeSnoc(objs, o);
  }

  lemma FixupsPlaced<T>(objs: seq<Obj<T>>, o: Obj<T>, was: seq<Fixup>, now: seq<Fixup>)
    requires was == AsFixups(Fixes(objs), true) + AsFixups(o.fixes, false) && |now| == |was|
    requires forall j :: 0 <= j < |now| ==> now[j] == MovedFixup(was[j], BodyStart(objs, o))
    ensures now == AsFixups(Fixes(objs + [o]), true)
  {
    CodeSnoc(objs, o);
  }

  lemma SymbolsPlaced<T>(objs: seq<Obj<T>>, o: Obj<T>, was: seq<LabelDef>, now: seq<LabelDef>)
    requires was == FirstCap(Symbols(objs), LABEL_CAP)
    requires now == if o.name.Some? && |was| < LABEL_CAP
      then was + [LabelDef(Truncated(o.name.value), |Code(objs)|)] else was
    ensures now == FirstCap(Symbols(objs + [o]), LABEL_CAP)
  {
    CodeSnoc(objs, o);
  }
}
