// What the linked x86-64 image says about the functions it was made from.
module X86Image {
  import opened Words
  import opened TypeSys
  import opened LinkKeys
  import opened LinkLayout
  import opened LinkNames
  import opened LinkTables
  import opened X86Patch
  import opened X86Instr
  import X86RoundTrip
  import X86Buffer

  const CSTR_CAP: nat := 0x2000

  /** The image that the functions and strings make. */
  ghost function LinkedImage(objs: seq<Obj<Byte>>, cstrs: seq<Byte>): Image<Byte>
    requires forall k :: 0 <= k < |objs| ==> WellPlaced(objs[k], W)
  {
    var syms := FirstCap(Symbols(objs), LABEL_CAP);
    FixesOrdered(objs, W);
    Image(PatchAll(Code(objs), Fixes(objs), Labels(objs), syms) + cstrs, Entry(objs),
      Imports(Fixes(objs), syms), ExtCalls(Fixes(objs), syms))
  }

  ghost predicate Linkable(objs: seq<Obj<Byte>>) {
    && |Code(objs)| <= X86Buffer.CODE_CAP
    && (forall k :: 0 <= k < |objs| ==> Placed(objs[k]))
    && (forall i :: 0 <= i < |Fixes(objs)| ==> Fixes(objs)[i].aux <= CSTR_CAP)
    && !Unlinkable(Fixes(objs), Labels(objs), FirstCap(Symbols(objs), LABEL_CAP))
  }

  /** Where the field at `site` points: displacements count from the field's end. */
  function Target(text: seq<Byte>, site: nat): int
    requires site + 4 <= |text|
  {
    site + 4 + Signed(4, FromLE(text[site..site + 4]))
  }

  lemma ResolvedTarget(fx: Fix, labels: seq<LabelDef>, syms: seq<LabelDef>, codeLen: nat)
    requires fx.site + 4 <= codeLen <= X86Buffer.CODE_CAP && fx.aux <= CSTR_CAP
    requires Within(labels, codeLen) && Within(syms, codeLen)
    ensures Resolve(fx, labels, syms, codeLen).Some? ==> IsI32(Resolve(fx, labels, syms, codeLen).value)
  {
    FindIsFirst(labels, fx.key);
    FindIsFirst(syms, fx.key);
  }

  /** The field of fix-up i of the image. */
  lemma FieldOf(objs: seq<Obj<Byte>>, cstrs: seq<Byte>, i: nat)
    requires Linkable(objs) && i < |Fixes(objs)|
    ensures
      var (text, fx) := (LinkedImage(objs, cstrs).text, Fixes(objs)[i]);
      var v := Resolve(fx, Labels(objs), FirstCap(Symbols(objs), LABEL_CAP), |Code(objs)|);
      && fx.site + 4 <= |Code(objs)| <= |text|
      && (v.Some? ==> Target(text, fx.site) == fx.site + 4 + v.value)
      && (v.None? ==> text[fx.site..fx.site + 4] == Code(objs)[fx.site..fx.site + 4])
  {
    hide LinkedImage, Resolve, PatchAll, Find, Linkable, Symbols, Code, Labels, Fixes, LE, FromLE, Signed;
    FieldBytes(objs, cstrs, i);
    var v := Resolve(Fixes(objs)[i], Labels(objs), FirstCap(Symbols(objs), LABEL_CAP), |Code(objs)|);
    if v.Some? {
      FieldReadsBack(v.value);
    }
  }

  /** What a fix-up placed at `site` must have become. */
  predicate Lands(fx: Fix, site: nat, was: seq<Byte>, objs: seq<Obj<Byte>>, image: Image<Byte>)
    requires site + 4 <= |image.text|
  {
    var syms := FirstCap(Symbols(objs), LABEL_CAP);
    match fx.kind
    case StringRef => Target(image.text, site) == |Code(objs)| + fx.aux
    case CallTo =>
      (match Find(syms, fx.key)
       case Some(at) => Target(image.text, site) == at
       case None => image.text[site..site + 4] == was && Recorded(fx.(site := site), image.extcalls, image.imports))
    case _ => Find(Labels(objs), fx.key) == Some(Target(image.text, site))
  }

  /** Every fix-up field of every function, wherever the function was placed, holds the exact
      distance to the label, function or string it names; a call to anything else is listed
      as external and its field is left as it was. */
  lemma FixupLands(objs: seq<Obj<Byte>>, cstrs: seq<Byte>, k: nat, j: nat)
    requires Linkable(objs) && k < |objs| && j < |objs[k].fixes|
    ensures
      var (fx, image) := (objs[k].fixes[j], LinkedImage(objs, cstrs));
      var site := BodyStart(objs[..k], objs[k]) + fx.site;
      && site + 4 <= |image.text| && fx.site + 4 <= |objs[k].body|
      && Lands(fx, site, objs[k].body[fx.site..fx.site + 4], objs, image)
  {
    hide PatchAll, Find, Imports, ExtCalls, Symbols, Code, Labels, Fixes, Recorded, LE, FromLE, Signed, Target;
    var i := FixPlacement(objs, k, j);
    var (fx, start) := (objs[k].fixes[j], BodyStart(objs[..k], objs[k]));
    var syms := FirstCap(Symbols(objs), LABEL_CAP);
    FieldOf(objs, cstrs, i);
    assert WellPlaced(objs[k], W);
    if fx.kind == CallTo && Find(syms, fx.key).None? {
      ExternalRecorded(Fixes(objs), syms, i);
      BodyPlacement(objs, k);
      Inside(Code(objs), start, |objs[k].body|, fx.site, fx.site + 4);
    }
    assert !Unresolved(Fixes(objs)[i], Labels(objs));
  }

  /** With distinct keys a branch to a label of any function reaches that very label, and with
      distinct names (that fit the table) a call reaches the start of that very function. */
  lemma KeysReachTheirOwners(objs: seq<Obj<Byte>>, m: nat, n: nat)
    requires m < |objs|
    ensures n < |objs[m].labels| && DistinctKeys(Labels(objs)) ==>
      Find(Labels(objs), objs[m].labels[n].key) == Some(BodyStart(objs[..m], objs[m]) + objs[m].labels[n].at)
    ensures objs[m].name.Some? && DistinctKeys(Symbols(objs)) && |Symbols(objs)| <= LABEL_CAP ==>
      Find(FirstCap(Symbols(objs), LABEL_CAP), Truncated(objs[m].name.value)) == Some(|Code(objs[..m])|)
  {
    hide Find, Symbols, Code, Labels, Truncated;
    if n < |objs[m].labels| && DistinctKeys(Labels(objs)) {
      LabelPlacement(objs, m, n);
      FindUnique(Labels(objs), LabelDef(objs[m].labels[n].key, BodyStart(objs[..m], objs[m]) + objs[m].labels[n].at));
    }
    if objs[m].name.Some? && DistinctKeys(Symbols(objs)) {
      SymbolPlacement(objs, m);
      FindUnique(Symbols(objs), LabelDef(Truncated(objs[m].name.value), |Code(objs[..m])|));
    }
  }

  /** A branch to a label, from any function, reaches the first label of that key: its own label
      when labels are distinct and no function name continues another after a dot. */
  lemma BranchReachesLabel(objs: seq<Obj<Byte>>, cstrs: seq<Byte>, ids: seq<Id>, k: nat, j: nat, n: nat)
    requires Linkable(objs) && Names(Labels(objs), ids) && n < |ids|
    requires k < |objs| && j < |objs[k].fixes|
    requires objs[k].fixes[j].kind == Jump || objs[k].fixes[j].kind == CondJump
    requires objs[k].fixes[j].key == KeyOf(ids[n])
    ensures var site := BodyStart(objs[..k], objs[k]) + objs[k].fixes[j].site;
      var text := LinkedImage(objs, cstrs).text;
      && site + 4 <= |text|
      && Target(text, site) == Labels(objs)[First(ids, n)].at
      && (ApartNames(ids) ==> Target(text, site) == Labels(objs)[n].at)
  {
    hide Linkable, LinkedImage, Names, Code, Labels, Find, KeyOf, Target;
    FixupLands(objs, cstrs, k, j);
    LookupFinds(Labels(objs), ids, n);
  }

  /** Everything else is the functions as they were emitted, one after the other, and the strings. */
  lemma OtherBytesKept(objs: seq<Obj<Byte>>, cstrs: seq<Byte>, p: nat)
    requires Linkable(objs) && p < |Code(objs)| + |cstrs|
    requires forall i :: 0 <= i < |Fixes(objs)| ==> !InField(Fixes(objs)[i], p)
    ensures |LinkedImage(objs, cstrs).text| == |Code(objs)| + |cstrs|
    ensures LinkedImage(objs, cstrs).text[p] == (Code(objs) + cstrs)[p]
  {
    hide PatchAll, Unlinkable, Code, Labels, Fixes, Symbols, Imports, ExtCalls;
    FixesOrdered(objs, W);
    if p < |Code(objs)| {
      PatchedElsewhere(Code(objs), Fixes(objs), Labels(objs), FirstCap(Symbols(objs), LABEL_CAP), p);
    }
  }

  /** The image starts at the prologue of the last function called "main", which stands there
      whole. */
  lemma MainStarts(objs: seq<Obj<Byte>>, cstrs: seq<Byte>, k: nat)
    requires Linkable(objs) && k < |objs| && objs[k].name == Some("main")
    requires forall j :: k < j < |objs| ==> objs[j].name != Some("main")
    ensures var (image, prol) := (LinkedImage(objs, cstrs), objs[k].prol);
      && image.entry == |Code(objs[..k])| && image.entry + |prol| <= |image.text|
      && image.text[image.entry..image.entry + |prol|] == prol
  {
    hide PatchAll, Unlinkable, Code, Labels, Fixes, Symbols, Imports, ExtCalls, Entry;
    var (image, prol, start) := (LinkedImage(objs, cstrs), objs[k].prol, |Code(objs[..k])|);
    EntryIsMain(objs, k);
    BodyPlacement(objs, k);
    forall p | 0 <= p < |prol| ensures image.text[start + p] == prol[p] {
      forall i | 0 <= i < |Fixes(objs)| ensures !InField(Fixes(objs)[i], start + p) {
        PrologueApart(objs, W, k, i);
      }
      OtherBytesKept(objs, cstrs, start + p);
      assert Code(objs)[start + p] == Code(objs)[start..start + |prol|][p];
    }
  }

  /** The field of a string's fix-up points to the text of the literal, terminated, behind the code. */
  lemma StringStands(objs: seq<Obj<Byte>>, cstrs: seq<Byte>, k: nat, j: nat, t: seq<Byte>)
    requires Linkable(objs) && k < |objs| && j < |objs[k].fixes| && objs[k].fixes[j].kind == StringRef
    requires StringAt(cstrs, objs[k].fixes[j].aux, t)
    ensures var text := LinkedImage(objs, cstrs).text;
      var site := BodyStart(objs[..k], objs[k]) + objs[k].fixes[j].site;
      && site + 4 <= |text|
      && |Code(objs)| <= Target(text, site) && Stands(text, Target(text, site), t)
  {
    hide PatchAll, Unlinkable, Code, Labels, Fixes, Symbols, Imports, ExtCalls, Entry, Target, Stands, StringAt, Linkable;
    FixupLands(objs, cstrs, k, j);
    LinkableIsPlaced(objs);
    CodeThenStrings(objs, cstrs);
    StringsFollow(LinkedImage(objs, cstrs).text[..|Code(objs)|], cstrs, objs[k].fixes[j].aux, t);
  }

  lemma LinkableIsPlaced(objs: seq<Obj<Byte>>)
    requires Linkable(objs)
    ensures forall k :: 0 <= k < |objs| ==> Placed(objs[k]) && WellPlaced(objs[k], W)
  {
  }

  lemma CodeThenStrings(objs: seq<Obj<Byte>>, cstrs: seq<Byte>)
    requires Linkable(objs)
    ensures var text := LinkedImage(objs, cstrs).text; |text| == |Code(objs)| + |cstrs| && text[..|Code(objs)|] + cstrs == text
  {
    hide PatchAll, Unlinkable, Code, Labels, Fixes, Symbols, Imports, ExtCalls, Entry;
    FixesOrdered(objs, W);
  }

  /** The instruction i ends at `end` of the text, whatever follows. */
  predicate DecodesAt(text: seq<Byte>, end: nat, i: Instr) {
    EndsAt(text, end, i) && Decode(text[end - |Encode(i)|..]) == Got(i, text[end..])
  }

  /** The instruction of every fix-up, wherever its function was placed, decodes as it was emitted but
      with a displacement that leads where its field points. */
  lemma FixupDecodes(objs: seq<Obj<Byte>>, cstrs: seq<Byte>, k: nat, j: nat) returns (i: Instr)
    requires Linkable(objs) && k < |objs| && j < |objs[k].fixes|
    ensures var (fx, text) := (objs[k].fixes[j], LinkedImage(objs, cstrs).text);
      var end := BodyStart(objs[..k], objs[k]) + fx.site + 4;
      && IsForm(fx.kind, i) && EndsAt(objs[k].body, fx.site + 4, i.(rel := 0))
      && end <= |text| && DecodesAt(text, end, i) && end + i.rel == Target(text, end - 4)
    ensures j > 0 ==> objs[k].fixes[j - 1].site + |Encode(i)| <= objs[k].fixes[j].site
  {
    hide LinkedImage, PatchAll, Unlinkable, Code, Labels, Fixes, Symbols, Imports, ExtCalls, Entry, LE, Encode, Resolve, Ordered, Target,
      DecodesAt;
    var fx := objs[k].fixes[j];
    var (start, text) := (BodyStart(objs[..k], objs[k]), LinkedImage(objs, cstrs).text);
    var e := EmittedForm(objs[k], j);
    var v := FieldValue(objs, cstrs, k, j);
    i := e.(rel := v);
    OpcodeKept(objs, cstrs, k, j, |Encode(e)|);
    FormBytes(fx.kind, e, v);
    FieldReplaced(fx.kind, e, v, objs[k].body, fx.site + 4, text, start + fx.site + 4);
  }

  /** The same opcode bytes with another displacement. */
  lemma FieldReplaced(kind: FixKind, e: Instr, v: int, body: seq<Byte>, was: nat, text: seq<Byte>, end: nat)
    requires IsForm(kind, e) && EndsAt(body, was, e) && IsI32(v) && 4 <= |Encode(e)| <= end <= |text|
    requires text[end - |Encode(e)|..end - 4] == body[was - |Encode(e)|..was - 4] && text[end - 4..end] == LE(v, 4)
    ensures DecodesAt(text, end, e.(rel := v))
  {
    hide LE, Encode, Decode;
    var (n, i) := (|Encode(e)|, e.(rel := v));
    FormBytes(kind, e, v);
    var lo := end - n;
    Inside(body, was - n, n, 0, n - 4);
    assert body[was - n..was][0..n - 4] == Encode(e)[..n - 4];
    Joined(text, lo, end - 4, end);
    Joined(text, lo, end, |text|);
    assert text[end..] == text[end..|text|] && text[lo..] == text[lo..|text|];
    X86RoundTrip.RoundTrip(i, text[end..]);
  }

  lemma Joined(text: seq<Byte>, a: nat, b: nat, c: nat)
    requires a <= b <= c <= |text|
    ensures text[a..c] == text[a..b] + text[b..c]
  {
  }

  /** The instruction a fix-up was emitted for. */
  lemma EmittedForm(o: Obj<Byte>, j: nat) returns (e: Instr)
    requires Placed(o) && j < |o.fixes|
    ensures IsForm(o.fixes[j].kind, e) && e.rel == 0 && e.(rel := 0) == e && EndsAt(o.body, o.fixes[j].site + 4, e) && |Encode(e)| >= 4
    ensures j > 0 ==> o.fixes[j - 1].site + |Encode(e)| <= o.fixes[j].site
  {
    hide Encode, Ordered;
    assert Standing(o.fixes, j, o.body);
    e :| IsForm(o.fixes[j].kind, e) && e.rel == 0 && EndsAt(o.body, o.fixes[j].site + 4, e)
      && (j > 0 ==> o.fixes[j - 1].site + |Encode(e)| <= o.fixes[j].site);
    FormBytes(o.fixes[j].kind, e, 0);
  }

  /** What the field of fix-up g of the image holds. */
  lemma FieldBytes(objs: seq<Obj<Byte>>, cstrs: seq<Byte>, g: nat)
    requires Linkable(objs) && g < |Fixes(objs)|
    ensures var (text, s) := (LinkedImage(objs, cstrs).text, Fixes(objs)[g].site);
      var v := Resolve(Fixes(objs)[g], Labels(objs), FirstCap(Symbols(objs), LABEL_CAP), |Code(objs)|);
      && s + 4 <= |Code(objs)| <= |text|
      && (v.Some? ==> IsI32(v.value))
      && text[s..s + 4] == (if v.Some? then LE(v.value, 4) else Code(objs)[s..s + 4])
  {
    hide PatchAll, Unlinkable, Code, Labels, Fixes, Symbols, Imports, ExtCalls, Entry, LE, Resolve, Find;
    var (labs, syms) := (Labels(objs), FirstCap(Symbols(objs), LABEL_CAP));
    FixesOrdered(objs, W);
    TargetsInCode(objs, W);
    PatchedField(Code(objs), Fixes(objs), labs, syms, g);
    ResolvedTarget(Fixes(objs)[g], labs, syms, |Code(objs)|);
    FrontSlice(PatchAll(Code(objs), Fixes(objs), labs, syms), cstrs, Fixes(objs)[g].site);
  }

  lemma FrontSlice(a: seq<Byte>, b: seq<Byte>, s: nat)
    requires s + 4 <= |a|
    ensures (a + b)[s..s + 4] == a[s..s + 4]
  {
  }

  /** What the field of a fix-up holds. */
  lemma FieldValue(objs: seq<Obj<Byte>>, cstrs: seq<Byte>, k: nat, j: nat) returns (v: int)
    requires Linkable(objs) && k < |objs| && j < |objs[k].fixes|
    ensures var text := LinkedImage(objs, cstrs).text; var end := BodyStart(objs[..k], objs[k]) + objs[k].fixes[j].site + 4;
      IsI32(v) && end <= |text| && text[end - 4..end] == LE(v, 4) && Target(text, end - 4) == end + v
  {
    hide LinkedImage, PatchAll, Unlinkable, Code, Labels, Fixes, Symbols, LE, FromLE, Signed, Resolve, Standing;
    var g := FixPlacement(objs, k, j);
    var fx := objs[k].fixes[j];
    FieldBytes(objs, cstrs, g);
    var r := Resolve(Fixes(objs)[g], Labels(objs), FirstCap(Symbols(objs), LABEL_CAP), |Code(objs)|);
    v := if r.Some? then r.value else 0;
    FieldReadsBack(v);
    if r.None? {
      BodyPlacement(objs, k);
      ZeroField(objs[k], j);
      Inside(Code(objs), BodyStart(objs[..k], objs[k]), |objs[k].body|, fx.site, fx.site + 4);
    }
  }

  lemma LastFour(a: seq<Byte>, b: seq<Byte>)
    requires |a| >= |b| == 4 && a == a[..|a| - 4] + b
    ensures a[|a| - 4..|a|] == b
  {
  }

  lemma Inside(a: seq<Byte>, at: nat, n: nat, lo: nat, hi: nat)
    requires at + n <= |a| && lo <= hi <= n
    ensures a[at..at + n][lo..hi] == a[at + lo..at + hi]
  {
    var p, q := a[at..at + n][lo..hi], a[at + lo..at + hi];
    forall k | 0 <= k < hi - lo ensures p[k] == q[k] {
      assert p[k] == a[at..at + n][lo + k] == a[at + (lo + k)];
    }
  }

  /** A field is emitted as zero. */
  lemma ZeroField(o: Obj<Byte>, j: nat)
    requires Placed(o) && j < |o.fixes|
    ensures var s := o.fixes[j].site; s + 4 <= |o.body| && o.body[s..s + 4] == LE(0, 4)
  {
    hide Encode, LE, Placed;
    var fx := o.fixes[j];
    var e := EmittedForm(o, j);
    FormBytes(fx.kind, e, 0);
    var n := |Encode(e)|;
    var end := fx.site + 4;
    assert o.body[end - n..end] == Encode(e);
    assert Encode(e) == Encode(e)[..n - 4] + LE(0, 4);
    LastFour(Encode(e), LE(0, 4));
    Inside(o.body, end - n, n, n - 4, n);
  }

  /** The bytes before the field stay as they were emitted. */
  lemma OpcodeKept(objs: seq<Obj<Byte>>, cstrs: seq<Byte>, k: nat, j: nat, n: nat)
    requires Linkable(objs) && k < |objs| && j < |objs[k].fixes| && 4 <= n <= objs[k].fixes[j].site + 4
    requires j > 0 ==> objs[k].fixes[j - 1].site + n <= objs[k].fixes[j].site
    ensures var (text, start, hi) := (LinkedImage(objs, cstrs).text, BodyStart(objs[..k], objs[k]), objs[k].fixes[j].site);
      start + hi <= |text| && hi <= |objs[k].body| && text[start + hi + 4 - n..start + hi] == objs[k].body[hi + 4 - n..hi]
  {
    hide PatchAll, Unlinkable, Code, Labels, Fixes, Symbols, Imports, ExtCalls, Entry, Standing;
    var (text, start, hi) := (LinkedImage(objs, cstrs).text, BodyStart(objs[..k], objs[k]), objs[k].fixes[j].site);
    var lo := hi + 4 - n;
    BodyPlacement(objs, k);
    assert Placed(objs[k]);
    forall m | 0 <= m < |objs[k].fixes| ensures objs[k].fixes[m].site + W <= lo || hi <= objs[k].fixes[m].site {
      if m < j {
        assert m < j - 1 ==> objs[k].fixes[m].site + W <= objs[k].fixes[j - 1].site;
      }
    }
    forall p | lo <= p < hi ensures text[start + p] == objs[k].body[p] {
      forall g | 0 <= g < |Fixes(objs)| ensures !InField(Fixes(objs)[g], start + p) {
        PartApart(objs, W, k, lo, hi, g);
      }
      OtherBytesKept(objs, cstrs, start + p);
      assert Code(objs)[start + p] == Code(objs)[start..start + |objs[k].body|][p];
    }
    FixesOrdered(objs, W);
  }
}
