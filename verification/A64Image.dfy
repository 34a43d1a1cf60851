// What the linked AArch64 image says about the functions it was made from.
module A64Image {
  import opened Words
  import opened TypeSys
  import opened LinkLayout
  import opened LinkNames
  import opened LinkTables
  import opened A64Instr
  import opened A64Patch
  import A64Buffer

  /** The instruction word at a byte offset of the image. */
  function WordAt(text: seq<Byte>, offset: nat): nat
    requires offset + 4 <= |text|
  {
    FromLE(text[offset..offset + 4])
  }

  lemma WordReadsBack(ws: seq<U32>, more: seq<Byte>, k: nat)
    requires k < |ws|
    ensures WordAt(LEWords(ws) + more, 4 * k) == ws[k]
  {
    hide LE, FromLE, LEWords;
    WordBytes(ws, k);
    SliceOfFront(LEWords(ws), more, 4 * k);
    WordBack(ws[k]);
  }

  lemma SliceOfFront(a: seq<Byte>, b: seq<Byte>, at: nat)
    requires at + 4 <= |a|
    ensures (a + b)[at..at + 4] == a[at..at + 4]
  {
  }

  /** Call sites counted in bytes. */
  function InBytes(calls: seq<ExtCall>): (r: seq<ExtCall>)
    ensures |r| == |calls| && forall k :: 0 <= k < |calls| ==> r[k] == calls[k].(site := 4 * calls[k].site)
  {
    seq(|calls|, k requires 0 <= k < |calls| => calls[k].(site := 4 * calls[k].site))
  }

  /** Fix-ups in order and in the body, each on a word that was emitted for it. */
  predicate Placed(o: Obj<U32>) {
    && WellPlaced(o, W)
    && forall j :: 0 <= j < |o.fixes| ==> Placeholder(o.fixes[j].kind, o.body[o.fixes[j].site])
  }

  predicate AllPlaced(objs: seq<Obj<U32>>) { forall k :: 0 <= k < |objs| ==> Placed(objs[k]) }

  predicate Linkable(objs: seq<Obj<U32>>) {
    && |Code(objs)| <= A64Buffer.CODE_CAP
    && AllPlaced(objs)
    && (forall i :: 0 <= i < |Fixes(objs)| ==> Fixes(objs)[i].aux <= CSTR_CAP)
    && !Unlinkable(Fixes(objs), Labels(objs), FirstCap(Symbols(objs), LABEL_CAP))
  }

  /** The image that the functions and strings make. */
  ghost function LinkedImage(objs: seq<Obj<U32>>, cstrs: seq<Byte>): Image<Byte>
    requires AllPlaced(objs)
  {
    var syms := FirstCap(Symbols(objs), LABEL_CAP);
    FixesOrdered(objs, W);
    Image(LEWords(PatchAll(Code(objs), Fixes(objs), Labels(objs), syms)) + cstrs, 4 * Entry(objs),
      Imports(Fixes(objs), syms), InBytes(ExtCalls(Fixes(objs), syms)))
  }

  lemma ResolvedInReach(fx: Fix, labels: seq<LabelDef>, syms: seq<LabelDef>, codeLen: nat)
    requires fx.site < codeLen <= A64Buffer.CODE_CAP && fx.aux <= CSTR_CAP
    requires Within(labels, codeLen) && Within(syms, codeLen)
    ensures Resolve(fx, labels, syms, codeLen).Some? ==> InReach(fx.kind, Resolve(fx, labels, syms, codeLen).value)
  {
    FindIsFirst(labels, fx.key);
    FindIsFirst(syms, fx.key);
  }

  /** The word of fix-up i of the image: displaced, or as it was. */
  lemma WordOf(objs: seq<Obj<U32>>, cstrs: seq<Byte>, i: nat)
    requires Linkable(objs) && i < |Fixes(objs)| && Fixes(objs)[i].site < |Code(objs)|
    requires Placeholder(Fixes(objs)[i].kind, Code(objs)[Fixes(objs)[i].site])
    ensures
      var (text, fx) := (LinkedImage(objs, cstrs).text, Fixes(objs)[i]);
      var v := Resolve(fx, Labels(objs), FirstCap(Symbols(objs), LABEL_CAP), |Code(objs)|);
      var was := Code(objs)[fx.site];
      && 4 * |Code(objs)| <= |text| && WordAt(text, 4 * fx.site) < P32
      && (v.Some? ==> Displaced(fx.kind, was, WordAt(text, 4 * fx.site), v.value))
      && (v.None? ==> WordAt(text, 4 * fx.site) == was)
  {
    hide Resolve, PatchAll, Find, Unlinkable, Imports, ExtCalls, Symbols, Code, Labels, Fixes, WordAt, Displaced, Or, FieldBits, LEWords, InReach;
    var fixes, labs, syms := Fixes(objs), Labels(objs), FirstCap(Symbols(objs), LABEL_CAP);
    var code := Code(objs);
    FixesOrdered(objs, W);
    TargetsInCode(objs, W);
    PatchedWord(code, fixes, labs, syms, i);
    ResolvedInReach(fixes[i], labs, syms, |code|);
    WordReadsBack(PatchAll(code, fixes, labs, syms), cstrs, fixes[i].site);
    var v := Resolve(fixes[i], labs, syms, |code|);
    if v.Some? {
      PatchDisplaces(fixes[i].kind, code[fixes[i].site], v.value);
    }
  }

  /** What a fix-up placed at word `site` must have become. */
  predicate Lands(fx: Fix, site: nat, was: U32, objs: seq<Obj<U32>>, image: Image<Byte>)
    requires 4 * site + 4 <= |image.text| && WordAt(image.text, 4 * site) < P32
  {
    var (syms, w) := (FirstCap(Symbols(objs), LABEL_CAP), WordAt(image.text, 4 * site));
    match fx.kind
    case StringRef => Displaced(StringRef, was, w, 4 * |Code(objs)| + fx.aux - 4 * site)
    case CallTo =>
      (match Find(syms, fx.key)
       case Some(at) => Displaced(CallTo, was, w, at - site)
       case None => w == was && Recorded(fx.(site := 4 * site), image.extcalls, image.imports))
    case _ =>
      (match Find(Labels(objs), fx.key)
       case Some(at) => Displaced(fx.kind, was, w, at - site)
       case None => false)
  }

  lemma RecordedInBytes(fx: Fix, calls: seq<ExtCall>, names: seq<string>)
    requires Recorded(fx, calls, names)
    ensures Recorded(fx.(site := 4 * fx.site), InBytes(calls), names)
  {
    var k :| 0 <= k < |calls| && Records(calls[k], fx, names);
    assert Records(InBytes(calls)[k], fx.(site := 4 * fx.site), names);
  }

  lemma UnpatchedCall(objs: seq<Obj<U32>>, i: nat)
    requires i < |Fixes(objs)|
    requires Fixes(objs)[i].kind == CallTo && Find(FirstCap(Symbols(objs), LABEL_CAP), Fixes(objs)[i].key).None?
    ensures var (fx, syms) := (Fixes(objs)[i], FirstCap(Symbols(objs), LABEL_CAP));
      && Resolve(fx, Labels(objs), syms, |Code(objs)|) == None
      && Recorded(fx.(site := 4 * fx.site), InBytes(ExtCalls(Fixes(objs), syms)), Imports(Fixes(objs), syms))
  {
    var syms := FirstCap(Symbols(objs), LABEL_CAP);
    ExternalRecorded(Fixes(objs), syms, i);
    RecordedInBytes(Fixes(objs)[i], ExtCalls(Fixes(objs), syms), Imports(Fixes(objs), syms));
  }

  /** Every fix-up word of every function, wherever the function was placed, decodes to its
      instruction with the exact distance to the label, function or string it names; a call to
      anything else is listed as external and its word is left as it was. */
  lemma FixupLands(objs: seq<Obj<U32>>, cstrs: seq<Byte>, k: nat, j: nat)
    requires Linkable(objs) && k < |objs| && j < |objs[k].fixes|
    ensures
      var (fx, image) := (objs[k].fixes[j], LinkedImage(objs, cstrs));
      var site := BodyStart(objs[..k], objs[k]) + fx.site;
      && 4 * site + 4 <= |image.text| && fx.site < |objs[k].body| && WordAt(image.text, 4 * site) < P32
      && Lands(fx, site, objs[k].body[fx.site], objs, image)
  {
    hide PatchAll, Find, Imports, ExtCalls, Symbols, Code, Labels, Fixes, Recorded, WordAt, Displaced, LEWords, Placeholder, InBytes;
    var i := FixPlacement(objs, k, j);
    var (fx, start) := (objs[k].fixes[j], BodyStart(objs[..k], objs[k]));
    assert Placed(objs[k]);
    BodyPlacement(objs, k);
    assert Code(objs)[start + fx.site] == objs[k].body[fx.site];
    WordOf(objs, cstrs, i);
    assert !Unresolved(Fixes(objs)[i], Labels(objs));
    if fx.kind == CallTo && Find(FirstCap(Symbols(objs), LABEL_CAP), fx.key).None? {
      UnpatchedCall(objs, i);
    }
  }

  /** The linked word is the emitted one with the distance to `at` put in. */
  ghost predicate Reaches(fx: Fix, body: seq<U32>, text: seq<Byte>, site: nat, at: nat) {
    && fx.site < |body| && 4 * site + 4 <= |text| && WordAt(text, 4 * site) < P32
    && Displaced(fx.kind, body[fx.site], WordAt(text, 4 * site), at - site)
  }

  /** A branch to a label, from any function, reaches the first label of that key: its own label
      when labels are distinct and no function name continues another after a dot. */
  lemma BranchReachesLabel(objs: seq<Obj<U32>>, cstrs: seq<Byte>, ids: seq<Id>, k: nat, j: nat, n: nat)
    requires Linkable(objs) && Names(Labels(objs), ids) && n < |ids|
    requires k < |objs| && j < |objs[k].fixes|
    requires objs[k].fixes[j].kind == Jump || objs[k].fixes[j].kind == CondJump
    requires objs[k].fixes[j].key == KeyOf(ids[n])
    ensures var (fx, text) := (objs[k].fixes[j], LinkedImage(objs, cstrs).text);
      var site := BodyStart(objs[..k], objs[k]) + fx.site;
      && Reaches(fx, objs[k].body, text, site, Labels(objs)[First(ids, n)].at)
      && (ApartNames(ids) ==> Reaches(fx, objs[k].body, text, site, Labels(objs)[n].at))
  {
    hide Linkable, LinkedImage, Code, Labels, Find, KeyOf, Displaced, WordAt, AllPlaced, Reaches, SameKey, ApartNames, BodyStart, FirstFrom;
    LinkableIsPlaced(objs);
    LookupFinds(Labels(objs), ids, n);
    BranchLands(objs, cstrs, k, j, Labels(objs)[First(ids, n)].at);
  }

  /** A branch whose key is looked up goes where the lookup says. */
  lemma BranchLands(objs: seq<Obj<U32>>, cstrs: seq<Byte>, k: nat, j: nat, at: nat)
    requires Linkable(objs) && k < |objs| && j < |objs[k].fixes|
    requires objs[k].fixes[j].kind == Jump || objs[k].fixes[j].kind == CondJump
    requires Find(Labels(objs), objs[k].fixes[j].key) == Some(at)
    ensures var fx := objs[k].fixes[j];
      Reaches(fx, objs[k].body, LinkedImage(objs, cstrs).text, BodyStart(objs[..k], objs[k]) + fx.site, at)
  {
    hide Linkable, LinkedImage, Code, Labels, Find, Displaced, WordAt, BodyStart;
    FixupLands(objs, cstrs, k, j);
  }

  lemma LinkableIsPlaced(objs: seq<Obj<U32>>)
    requires Linkable(objs)
    ensures AllPlaced(objs)
  {
  }

  /** Every other word is the functions as they were emitted, one after the other. */
  lemma OtherWordsKept(objs: seq<Obj<U32>>, cstrs: seq<Byte>, p: nat)
    requires Linkable(objs) && p < |Code(objs)|
    requires forall i :: 0 <= i < |Fixes(objs)| ==> Fixes(objs)[i].site != p
    ensures |LinkedImage(objs, cstrs).text| == 4 * |Code(objs)| + |cstrs|
    ensures WordAt(LinkedImage(objs, cstrs).text, 4 * p) == Code(objs)[p]
  {
    hide PatchAll, Unlinkable, Code, Labels, Fixes, Symbols, Imports, ExtCalls, WordAt, LEWords;
    FixesOrdered(objs, W);
    PatchedElsewhere(Code(objs), Fixes(objs), Labels(objs), FirstCap(Symbols(objs), LABEL_CAP), p);
    WordReadsBack(PatchAll(Code(objs), Fixes(objs), Labels(objs), FirstCap(Symbols(objs), LABEL_CAP)), cstrs, p);
  }

  /** The image starts at the prologue of the last function called "main", which stands there
      whole. */
  lemma MainStarts(objs: seq<Obj<U32>>, cstrs: seq<Byte>, k: nat)
    requires Linkable(objs) && AllPlaced(objs) && k < |objs| && objs[k].name == Some("main")
    requires forall j :: k < j < |objs| ==> objs[j].name != Some("main")
    ensures var (image, prol) := (LinkedImage(objs, cstrs), objs[k].prol);
      && image.entry == 4 * |Code(objs[..k])| && image.entry + 4 * |prol| <= |image.text|
      && forall p :: 0 <= p < |prol| ==> WordAt(image.text, image.entry + 4 * p) == prol[p]
  {
    hide PatchAll, Unlinkable, Code, Labels, Fixes, Symbols, Imports, ExtCalls, Entry, WordAt, LEWords, Placeholder;
    var (image, prol, start) := (LinkedImage(objs, cstrs), objs[k].prol, |Code(objs[..k])|);
    EntryIsMain(objs, k);
    BodyPlacement(objs, k);
    assert forall m :: 0 <= m < |objs| ==> Placed(objs[m]);
    FixesOrdered(objs, W);
    forall p | 0 <= p < |prol| ensures WordAt(image.text, image.entry + 4 * p) == prol[p] {
      forall i | 0 <= i < |Fixes(objs)| ensures Fixes(objs)[i].site != start + p {
        PrologueApart(objs, W, k, i);
      }
      OtherWordsKept(objs, cstrs, start + p);
      assert Code(objs)[start + p] == Code(objs)[start..start + |prol|][p];
    }
  }

  /** The word at `site` leaves in rd the address of a place of the text, not before `from`, where t
      stands, terminated. */
  predicate TakesAddressOf(text: seq<Byte>, site: nat, rd: RegNo, from: nat, t: seq<Byte>) {
    && site + 4 <= |text| && WordAt(text, site) < P32
    && match Decode(WordAt(text, site)) {
         case Some(Adr(r, rel)) => r == rd && from <= site + rel && Stands(text, site + rel, t)
         case _ => false
       }
  }

  /** A string's fix-up takes the address of the text of the literal. */
  lemma StringStands(objs: seq<Obj<U32>>, cstrs: seq<Byte>, k: nat, j: nat, rd: RegNo, t: seq<Byte>)
    requires Linkable(objs) && AllPlaced(objs) && k < |objs| && j < |objs[k].fixes| && objs[k].fixes[j].kind == StringRef
    requires objs[k].fixes[j].site < |objs[k].body| && objs[k].body[objs[k].fixes[j].site] == Encode(Adr(rd, 0))
    requires StringAt(cstrs, objs[k].fixes[j].aux, t)
    ensures TakesAddressOf(LinkedImage(objs, cstrs).text, 4 * (BodyStart(objs[..k], objs[k]) + objs[k].fixes[j].site), rd,
      4 * |Code(objs)|, t)
  {
    hide PatchAll, Unlinkable, Code, Labels, Fixes, Symbols, Imports, ExtCalls, Entry, WordAt, LEWords, Placeholder, Encode, Decode, Stands,
      Linkable, AllPlaced, StringAt;
    FixupLands(objs, cstrs, k, j);
    var fx := objs[k].fixes[j];
    CodeThenStrings(objs, cstrs);
    var text := LinkedImage(objs, cstrs).text;
    StringsFollow(text[..4 * |Code(objs)|], cstrs, fx.aux, t);
    var r: RegNo :| objs[k].body[fx.site] == Encode(Adr(r, 0))
      && Decode(WordAt(text, 4 * (BodyStart(objs[..k], objs[k]) + fx.site)))
           == Some(Adr(r, 4 * |Code(objs)| + fx.aux - 4 * (BodyStart(objs[..k], objs[k]) + fx.site)));
    RoundTrip(Adr(r, 0), 0);
    RoundTrip(Adr(rd, 0), 0);
  }

  lemma CodeThenStrings(objs: seq<Obj<U32>>, cstrs: seq<Byte>)
    requires AllPlaced(objs)
    ensures var text := LinkedImage(objs, cstrs).text;
      |text| == 4 * |Code(objs)| + |cstrs| && text[..4 * |Code(objs)|] + cstrs == text
  {
    hide PatchAll, Code, Labels, Fixes, Symbols, Imports, ExtCalls, Entry, LEWords, Placeholder;
    assert forall m :: 0 <= m < |objs| ==> Placed(objs[m]);
    FixesOrdered(objs, W);
  }
}
