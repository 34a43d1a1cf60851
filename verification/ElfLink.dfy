// From linked functions to the dynamic image: the whole path of an external call.
module ElfLink {
  import opened Words
  import opened TypeSys
  import opened LinkLayout
  import opened SysvHash
  import opened ElfArch
  import opened ElfImage
  import opened ElfPath
  import opened ElfLoader
  import opened ElfBound
  import opened LinkTables
  import X86Instr
  import X86RoundTrip
  import X86Patch
  import X86Image
  import A64Patch
  import A64Image
  import A64Instr

  /** Imported names, and "exit" for the entry stub. */
  function ImportNames(imports: seq<string>): (names: seq<Name>)
    ensures |names| == |imports| + 1 && forall i :: 0 <= i < |imports| ==> names[i] == AsciiBytes(imports[i])
  {
    seq(|imports|, i requires 0 <= i < |imports| => AsciiBytes(imports[i])) + [AsciiBytes("exit")]
  }

  /** The linker stops at 64 imports; with "exit" those are one more than the writer's table of
      name offsets holds. */
  lemma ImportsOverrun(imports: seq<string>)
    requires |imports| <= IMPORT_CAP
    ensures |ImportNames(imports)| > 64 <==> |imports| == IMPORT_CAP
  {
  }

  function InputOf(arch: Arch, image: Image<Byte>): Input {
    Input(arch, image.text, image.entry, ImportNames(image.imports), image.extcalls)
  }

  /** Where the text starts in memory. */
  function TextStart(inp: Input): nat { LOAD_BASE + LayoutFor(inp).text }

  /** The call with field at `site` of the text ends in the function of that name. */
  ghost predicate Reaches(img: seq<Byte>, inp: Input, site: nat, name: string) {
    exists bs: Name :: Spells(bs, name) && CallBinds(inp.arch, img, TextStart(inp) + site, bs)
  }

  lemma RecordedReaches(img: seq<Byte>, inp: Input, imports: seq<string>, bucket: seq<nat>, chain: seq<nat>, fx: Fix)
    requires Ready(img, inp, bucket, chain) && CallsOk(inp) && inp.names == ImportNames(imports)
    requires Recorded(fx, inp.calls, imports)
    ensures Reaches(img, inp, fx.site, fx.key)
  {
    hide LayoutFor, Ready, CallsOk, CallBinds, AsciiBytes;
    var k :| 0 <= k < |inp.calls| && Records(inp.calls[k], fx, imports);
    assert inp.names[inp.calls[k].import_] == AsciiBytes(fx.key);
    AsciiSpells(fx.key);
    CallBound(img, inp, bucket, chain, k);
  }

  lemma ExitIsLast(imports: seq<string>)
    ensures ImportNames(imports)[|imports|] == [0x65, 0x78, 0x69, 0x74]
  {
  }

  // ---- x86-64 ----

  lemma X86CallsOk(objs: seq<Obj<Byte>>, cstrs: seq<Byte>)
    requires X86Image.Linkable(objs)
    ensures var inp := InputOf(X86_64, X86Image.LinkedImage(objs, cstrs));
      CallsOk(inp) && Writable(inp)
  {
    hide X86Patch.PatchAll, Unlinkable, Code, Labels, Fixes, Symbols, Imports, ExtCalls, X86Image.Linkable;
    assert forall k :: 0 <= k < |objs| ==> WellPlaced(objs[k], X86Patch.W) by { X86Image.LinkableIsPlaced(objs); }
    FixesOrdered(objs, X86Patch.W);
    CallsInOrder(Fixes(objs), FirstCap(Symbols(objs), LABEL_CAP), X86Patch.W, |Code(objs)|);
    var inp := InputOf(X86_64, X86Image.LinkedImage(objs, cstrs));
    assert inp.calls == ExtCalls(Fixes(objs), FirstCap(Symbols(objs), LABEL_CAP));
    assert SitesFit(inp.calls, |inp.text|);
    assert forall i, j :: 0 <= i < j < |inp.calls| ==> inp.calls[i].site + 4 <= inp.calls[j].site;
    assert forall k :: 0 <= k < |inp.calls| ==> IsCall(inp.arch, inp.text[inp.calls[k].site..inp.calls[k].site + 4]);
  }

  /** Every call that no function of the program resolves reaches the import of its name. */
  lemma X86ExternalCall(objs: seq<Obj<Byte>>, cstrs: seq<Byte>, img: seq<Byte>, bucket: seq<nat>, chain: seq<nat>, k: nat, j: nat)
    requires X86Image.Linkable(objs) && k < |objs| && j < |objs[k].fixes|
    requires Ready(img, InputOf(X86_64, X86Image.LinkedImage(objs, cstrs)), bucket, chain)
    requires objs[k].fixes[j].kind == CallTo
    requires Find(FirstCap(Symbols(objs), LABEL_CAP), objs[k].fixes[j].key).None?
    ensures var fx := objs[k].fixes[j];
      && Reaches(img, InputOf(X86_64, X86Image.LinkedImage(objs, cstrs)), BodyStart(objs[..k], objs[k]) + fx.site, fx.key)
      && Holds(img, TextStart(InputOf(X86_64, X86Image.LinkedImage(objs, cstrs))) + BodyStart(objs[..k], objs[k]) + fx.site - 1, [0xe8], X)
  {
    hide X86Image.Linkable, X86Image.LinkedImage, Ready, CallsOk, Reaches, AsciiBytes, Code, Symbols, Find, FirstCap, ImportNames, Holds;
    X86Image.LinkableIsPlaced(objs);
    var (image, fx) := (X86Image.LinkedImage(objs, cstrs), objs[k].fixes[j]);
    X86CallOpcode(objs, cstrs, img, bucket, chain, k, j);
    X86CallsOk(objs, cstrs);
    X86Image.FixupLands(objs, cstrs, k, j);
    RecordedReaches(img, InputOf(X86_64, image), image.imports, bucket, chain,
      fx.(site := BodyStart(objs[..k], objs[k]) + fx.site));
  }

  /** Text bytes that are in no field of an external call are in no listed one. */
  lemma X86CallsApart(objs: seq<Obj<Byte>>, cstrs: seq<Byte>, at: nat, n: nat)
    requires X86Image.Linkable(objs)
    requires forall i :: 0 <= i < |Fixes(objs)| && External(Fixes(objs)[i], FirstCap(Symbols(objs), LABEL_CAP)) ==>
      Fixes(objs)[i].site + 4 <= at || at + n <= Fixes(objs)[i].site
    ensures var calls := X86Image.LinkedImage(objs, cstrs).extcalls;
      forall k :: 0 <= k < |calls| ==> calls[k].site + 4 <= at || at + n <= calls[k].site
  {
    hide X86Patch.PatchAll, Unlinkable, Code, Labels, Fixes, Symbols, Imports, ExtCalls, X86Image.Linkable, FirstCap, External;
    X86Image.LinkableIsPlaced(objs);
    var (calls, syms) := (X86Image.LinkedImage(objs, cstrs).extcalls, FirstCap(Symbols(objs), LABEL_CAP));
    forall k | 0 <= k < |calls| ensures calls[k].site + 4 <= at || at + n <= calls[k].site {
      OnlyExternalsListed(Fixes(objs), syms, k);
      var i :| 0 <= i < |Fixes(objs)| && External(Fixes(objs)[i], syms) && Records(calls[k], Fixes(objs)[i], Imports(Fixes(objs), syms));
    }
  }

  /** The process starts with the last function called "main": the entry stub calls the place where
      its prologue stands, and exits with its result. */
  lemma X86Starts(objs: seq<Obj<Byte>>, cstrs: seq<Byte>, img: seq<Byte>, bucket: seq<nat>, chain: seq<nat>, k: nat)
    requires X86Image.Linkable(objs) && k < |objs| && objs[k].name == Some("main")
    requires forall j :: k < j < |objs| ==> objs[j].name != Some("main")
    requires Ready(img, InputOf(X86_64, X86Image.LinkedImage(objs, cstrs)), bucket, chain)
    ensures var main_ := TextStart(InputOf(X86_64, X86Image.LinkedImage(objs, cstrs))) + |Code(objs[..k])|;
      StartsWith(X86_64, img, main_) && (objs[k].prol != [] ==> Holds(img, main_, objs[k].prol, X))
  {
    hide X86Image.Linkable, X86Image.LinkedImage, Ready, StartsWith, Holds, Code, Symbols, Fixes, FirstCap, ImportNames, LayoutFor, External;
    X86Image.LinkableIsPlaced(objs);
    var (image, prol, start) := (X86Image.LinkedImage(objs, cstrs), objs[k].prol, |Code(objs[..k])|);
    var inp := InputOf(X86_64, image);
    X86Image.MainStarts(objs, cstrs, k);
    ExitIsLast(image.imports);
    StartBound(img, inp, bucket, chain);
    if prol != [] {
      BodyPlacement(objs, k);
      forall i | 0 <= i < |Fixes(objs)| ensures Fixes(objs)[i].site + 4 <= start || start + |prol| <= Fixes(objs)[i].site {
        PrologueApart(objs, X86Patch.W, k, i);
      }
      X86CallsApart(objs, cstrs, start, |prol|);
      TextHeld(img, inp, bucket, chain, start, |prol|);
    }
  }

  /** Every instruction with a fix-up that is no external call is in memory as it was linked: as it
      was emitted, but with a displacement that leads where its field points. */
  lemma X86Loaded(objs: seq<Obj<Byte>>, cstrs: seq<Byte>, img: seq<Byte>, bucket: seq<nat>, chain: seq<nat>, k: nat, j: nat)
    returns (i: X86Instr.Instr)
    requires X86Image.Linkable(objs) && k < |objs| && j < |objs[k].fixes|
    requires !External(objs[k].fixes[j], FirstCap(Symbols(objs), LABEL_CAP))
    requires Ready(img, InputOf(X86_64, X86Image.LinkedImage(objs, cstrs)), bucket, chain)
    ensures var (fx, image) := (objs[k].fixes[j], X86Image.LinkedImage(objs, cstrs));
      var end := BodyStart(objs[..k], objs[k]) + fx.site + 4;
      && X86Patch.IsForm(fx.kind, i) && X86Patch.EndsAt(objs[k].body, fx.site + 4, i.(rel := 0))
      && end <= |image.text| && end + i.rel == X86Image.Target(image.text, end - 4)
      && InMemory(img, TextStart(InputOf(X86_64, image)) + end, i)
  {
    hide X86Image.Linkable, X86Image.LinkedImage, Ready, Holds, Code, Symbols, Fixes, FirstCap, ImportNames, LayoutFor, External,
      X86Instr.Encode, X86Instr.Decode, X86Image.Target;
    X86Image.LinkableIsPlaced(objs);
    var (fx, image) := (objs[k].fixes[j], X86Image.LinkedImage(objs, cstrs));
    var end := BodyStart(objs[..k], objs[k]) + fx.site + 4;
    i := X86Image.FixupDecodes(objs, cstrs, k, j);
    var n := |X86Instr.Encode(i)|;
    X86Patch.FormBytes(fx.kind, i, 0);
    X86Whole(objs, k, j, n);
    X86CallsApart(objs, cstrs, end - n, n);
    TextHeld(img, InputOf(X86_64, image), bucket, chain, end - n, n);
    X86RoundTrip.RoundTrip(i, []);
    assert X86Instr.Encode(i) + [] == X86Instr.Encode(i);
  }

  /** The instruction whose encoding ends at address `end` is in memory to be executed. */
  predicate InMemory(img: seq<Byte>, end: int, i: X86Instr.Instr) {
    var bs := X86Instr.Encode(i);
    Holds(img, end - |bs|, bs, X) && X86Instr.Decode(bs) == X86Instr.Got(i, [])
  }

  /** No external call's field touches an instruction that ends with the field of another fix-up and
      starts after the one before it. */
  lemma X86Whole(objs: seq<Obj<Byte>>, k: nat, j: nat, n: nat)
    requires X86Image.Linkable(objs) && k < |objs| && j < |objs[k].fixes|
    requires !External(objs[k].fixes[j], FirstCap(Symbols(objs), LABEL_CAP))
    requires 4 <= n <= objs[k].fixes[j].site + 4 && (j > 0 ==> objs[k].fixes[j - 1].site + n <= objs[k].fixes[j].site)
    ensures var end := BodyStart(objs[..k], objs[k]) + objs[k].fixes[j].site + 4;
      forall g :: 0 <= g < |Fixes(objs)| && External(Fixes(objs)[g], FirstCap(Symbols(objs), LABEL_CAP)) ==>
        Fixes(objs)[g].site + 4 <= end - n || end <= Fixes(objs)[g].site
  {
    hide X86Image.Linkable, Code, Symbols, Fixes, FirstCap, Find;
    X86Image.LinkableIsPlaced(objs);
    var (fx, syms) := (objs[k].fixes[j], FirstCap(Symbols(objs), LABEL_CAP));
    var (start, lo, hi) := (BodyStart(objs[..k], objs[k]), fx.site + 4 - n, fx.site);
    var own := FixPlacement(objs, k, j);
    FixesOrdered(objs, X86Patch.W);
    assert WellPlaced(objs[k], X86Patch.W);
    forall m | 0 <= m < |objs[k].fixes| ensures objs[k].fixes[m].site + X86Patch.W <= lo || hi <= objs[k].fixes[m].site {
      if m < j {
        assert m < j - 1 ==> objs[k].fixes[m].site + X86Patch.W <= objs[k].fixes[j - 1].site;
      }
    }
    forall g | 0 <= g < |Fixes(objs)| && External(Fixes(objs)[g], syms)
      ensures Fixes(objs)[g].site + 4 <= start + lo || start + hi + 4 <= Fixes(objs)[g].site
    {
      PartApart(objs, X86Patch.W, k, lo, hi, g);
      assert g != own;
    }
  }

  /** The opcode of every call, external or not, is in memory right before its field. */
  lemma X86CallOpcode(objs: seq<Obj<Byte>>, cstrs: seq<Byte>, img: seq<Byte>, bucket: seq<nat>, chain: seq<nat>, k: nat, j: nat)
    requires X86Image.Linkable(objs) && k < |objs| && j < |objs[k].fixes| && objs[k].fixes[j].kind == CallTo
    requires Ready(img, InputOf(X86_64, X86Image.LinkedImage(objs, cstrs)), bucket, chain)
    ensures Holds(img, TextStart(InputOf(X86_64, X86Image.LinkedImage(objs, cstrs))) + BodyStart(objs[..k], objs[k]) + objs[k].fixes[j].site - 1,
      [0xe8], X)
  {
    hide X86Image.Linkable, X86Image.LinkedImage, Ready, Holds, Code, Symbols, Fixes, FirstCap, ImportNames, LayoutFor, External, LE;
    X86Image.LinkableIsPlaced(objs);
    var (fx, image) := (objs[k].fixes[j], X86Image.LinkedImage(objs, cstrs));
    var at := BodyStart(objs[..k], objs[k]) + fx.site - 1;
    CallByte(objs[k], j);
    X86Image.OpcodeKept(objs, cstrs, k, j, 5);
    forall m | 0 <= m < |objs[k].fixes| ensures objs[k].fixes[m].site + X86Patch.W <= fx.site - 1 || fx.site <= objs[k].fixes[m].site {
      assert WellPlaced(objs[k], X86Patch.W);
      if m < j {
        assert m < j - 1 ==> objs[k].fixes[m].site + X86Patch.W <= objs[k].fixes[j - 1].site;
      }
    }
    forall g | 0 <= g < |Fixes(objs)| ensures Fixes(objs)[g].site + 4 <= at || at + 1 <= Fixes(objs)[g].site {
      PartApart(objs, X86Patch.W, k, fx.site - 1, fx.site, g);
    }
    X86CallsApart(objs, cstrs, at, 1);
    TextHeld(img, InputOf(X86_64, image), bucket, chain, at, 1);
    assert image.text[at..at + 1] == objs[k].body[fx.site - 1..fx.site] == [0xe8];
  }

  lemma CallByte(o: Obj<Byte>, j: nat)
    requires X86Patch.Placed(o) && j < |o.fixes| && o.fixes[j].kind == CallTo
    ensures 1 <= o.fixes[j].site <= |o.body| && o.body[o.fixes[j].site - 1] == 0xe8
    ensures j > 0 ==> o.fixes[j - 1].site + 5 <= o.fixes[j].site
  {
    hide LE, X86Instr.Encode, X86Patch.Placed;
    var e := X86Image.EmittedForm(o, j);
    assert e.Call?;
    CallBytes(e.rel);
    assert X86Instr.Encode(e) == [0xe8] + LE(e.rel, 4);
    var end := o.fixes[j].site + 4;
    assert o.body[end - 5..end][0] == 0xe8;
  }

  /** A string literal in memory: the address computed by the instruction of its fix-up is that of its
      text, terminated. */
  lemma X86Literal(objs: seq<Obj<Byte>>, cstrs: seq<Byte>, img: seq<Byte>, bucket: seq<nat>, chain: seq<nat>, k: nat, j: nat, t: seq<Byte>)
    returns (i: X86Instr.Instr)
    requires X86Image.Linkable(objs) && k < |objs| && j < |objs[k].fixes| && objs[k].fixes[j].kind == StringRef
    requires StringAt(cstrs, objs[k].fixes[j].aux, t)
    requires Ready(img, InputOf(X86_64, X86Image.LinkedImage(objs, cstrs)), bucket, chain)
    ensures var end := TextStart(InputOf(X86_64, X86Image.LinkedImage(objs, cstrs))) + BodyStart(objs[..k], objs[k]) + objs[k].fixes[j].site + 4;
      && i.LeaRip? && X86Patch.EndsAt(objs[k].body, objs[k].fixes[j].site + 4, X86Instr.LeaRip(i.sz, i.reg, 0))
      && InMemory(img, end, i) && Holds(img, end + i.rel, t + [0], R)
  {
    hide X86Image.Linkable, X86Image.LinkedImage, Ready, Holds, Code, Symbols, Fixes, FirstCap, ImportNames, LayoutFor, StringAt, InMemory,
      X86Image.Target, X86Patch.EndsAt;
    X86Image.LinkableIsPlaced(objs);
    var (text, inp) := (X86Image.LinkedImage(objs, cstrs).text, InputOf(X86_64, X86Image.LinkedImage(objs, cstrs)));
    var site := BodyStart(objs[..k], objs[k]) + objs[k].fixes[j].site;
    i := X86Loaded(objs, cstrs, img, bucket, chain, k, j);
    X86Image.StringStands(objs, cstrs, k, j, t);
    var at := X86Image.Target(text, site);
    FixesOrdered(objs, X86Patch.W);
    X86CallsApart(objs, cstrs, at, |t| + 1);
    TextHeld(img, inp, bucket, chain, at, |t| + 1);
  }

  // ---- AArch64 ----

  lemma CallWord(w: U32)
    requires A64Patch.Placeholder(CallTo, w)
    ensures w == 0x94000000 && w / 0x400_0000 == 0x25
  {
  }

  lemma A64Placed(objs: seq<Obj<U32>>)
    requires A64Image.Linkable(objs)
    ensures A64Image.AllPlaced(objs) && forall k :: 0 <= k < |objs| ==> WellPlaced(objs[k], A64Patch.W)
  {
    assert forall k :: 0 <= k < |objs| ==> A64Image.Placed(objs[k]);
  }

  /** Every linked fix-up is on the word that was emitted for it. */
  lemma {:induction false} PlaceholdersInCode(objs: seq<Obj<U32>>, i: nat)
    requires A64Image.AllPlaced(objs) && i < |Fixes(objs)|
    ensures var fx := Fixes(objs)[i]; fx.site < |Code(objs)| && A64Patch.Placeholder(fx.kind, Code(objs)[fx.site])
  {
    hide A64Patch.Placeholder;
    if objs != [] {
      var (front, o) := (objs[..|objs| - 1], objs[|objs| - 1]);
      assert A64Image.Placed(o);
      if i < |Fixes(front)| {
        PlaceholdersInCode(front, i);
      } else {
        var j := i - |Fixes(front)|;
        assert Fixes(objs)[i] == o.fixes[j].(site := o.fixes[j].site + BodyStart(front, o));
      }
    }
  }

  lemma A64CallBytes(objs: seq<Obj<U32>>, cstrs: seq<Byte>, k: nat)
    requires A64Image.Linkable(objs) && A64Image.AllPlaced(objs)
    ensures var image := A64Image.LinkedImage(objs, cstrs);
      k < |image.extcalls| ==>
        var s := image.extcalls[k].site;
        s % 4 == 0 && s + 4 <= |image.text| && IsCall(AArch64, image.text[s..s + 4])
  {
    hide A64Patch.PatchAll, Unlinkable, Code, Labels, Fixes, Symbols, Imports, ExtCalls, A64Image.Linkable, LEWords,
      A64Patch.Placeholder, A64Patch.Resolve, FirstCap, A64Image.AllPlaced, FromLE;
    var syms := FirstCap(Symbols(objs), LABEL_CAP);
    var image := A64Image.LinkedImage(objs, cstrs);
    if k < |image.extcalls| {
      OnlyExternalsListed(Fixes(objs), syms, k);
      var i :| 0 <= i < |Fixes(objs)| && External(Fixes(objs)[i], syms) && Records(ExtCalls(Fixes(objs), syms)[k], Fixes(objs)[i], Imports(Fixes(objs), syms));
      PlaceholdersInCode(objs, i);
      A64Image.WordOf(objs, cstrs, i);
      A64Image.UnpatchedCall(objs, i);
      CallWord(Code(objs)[Fixes(objs)[i].site]);
      assert image.extcalls[k].site == 4 * Fixes(objs)[i].site;
    }
  }

  lemma InBytesApart(calls: seq<ExtCall>, limit: nat)
    requires CallsApart(calls, 1, limit)
    ensures CallsApart(A64Image.InBytes(calls), 4, 4 * limit)
  {
  }

  lemma A64CallsOk(objs: seq<Obj<U32>>, cstrs: seq<Byte>)
    requires A64Image.Linkable(objs) && A64Image.AllPlaced(objs)
    ensures var inp := InputOf(AArch64, A64Image.LinkedImage(objs, cstrs));
      CallsOk(inp) && Writable(inp)
  {
    hide A64Patch.PatchAll, Unlinkable, Code, Labels, Symbols, Imports, A64Image.Linkable, LEWords,
      A64Image.AllPlaced, IsCall;
    A64Placed(objs);
    FixesOrdered(objs, A64Patch.W);
    var syms := FirstCap(Symbols(objs), LABEL_CAP);
    var calls := ExtCalls(Fixes(objs), syms);
    CallsInOrder(Fixes(objs), syms, 1, |Code(objs)|);
    InBytesApart(calls, |Code(objs)|);
    var image := A64Image.LinkedImage(objs, cstrs);
    forall k | 0 <= k < |image.extcalls|
      ensures var s := image.extcalls[k].site; s % 4 == 0 && s + 4 <= |image.text| && IsCall(AArch64, image.text[s..s + 4])
    {
      A64CallBytes(objs, cstrs, k);
    }
    var inp := InputOf(AArch64, image);
    assert inp.calls == A64Image.InBytes(calls);
    assert SitesFit(inp.calls, |inp.text|);
  }

  lemma A64ExternalCall(objs: seq<Obj<U32>>, cstrs: seq<Byte>, img: seq<Byte>, bucket: seq<nat>, chain: seq<nat>, k: nat, j: nat)
    requires A64Image.Linkable(objs) && A64Image.AllPlaced(objs) && k < |objs| && j < |objs[k].fixes|
    requires Ready(img, InputOf(AArch64, A64Image.LinkedImage(objs, cstrs)), bucket, chain)
    requires objs[k].fixes[j].kind == CallTo
    requires Find(FirstCap(Symbols(objs), LABEL_CAP), objs[k].fixes[j].key).None?
    ensures var fx := objs[k].fixes[j];
      Reaches(img, InputOf(AArch64, A64Image.LinkedImage(objs, cstrs)), 4 * (BodyStart(objs[..k], objs[k]) + fx.site), fx.key)
  {
    hide A64Image.Linkable, A64Image.LinkedImage, Ready, CallsOk, Reaches, AsciiBytes, Code, Symbols, Find, FirstCap, ImportNames,
      A64Image.AllPlaced, A64Patch.Displaced;
    var (image, fx) := (A64Image.LinkedImage(objs, cstrs), objs[k].fixes[j]);
    A64CallsOk(objs, cstrs);
    A64Image.FixupLands(objs, cstrs, k, j);
    RecordedReaches(img, InputOf(AArch64, image), image.imports, bucket, chain,
      fx.(site := 4 * (BodyStart(objs[..k], objs[k]) + fx.site)));
  }

  /** Text bytes that are in no word of an external call are in no listed one. */
  lemma A64CallsApart(objs: seq<Obj<U32>>, cstrs: seq<Byte>, at: nat, n: nat)
    requires A64Image.Linkable(objs) && A64Image.AllPlaced(objs)
    requires forall i :: 0 <= i < |Fixes(objs)| && External(Fixes(objs)[i], FirstCap(Symbols(objs), LABEL_CAP)) ==>
      4 * Fixes(objs)[i].site + 4 <= at || at + n <= 4 * Fixes(objs)[i].site
    ensures var calls := A64Image.LinkedImage(objs, cstrs).extcalls;
      forall k :: 0 <= k < |calls| ==> calls[k].site + 4 <= at || at + n <= calls[k].site
  {
    hide A64Patch.PatchAll, Unlinkable, Code, Labels, Fixes, Symbols, Imports, ExtCalls, A64Image.Linkable, FirstCap, External, LEWords,
      A64Image.AllPlaced;
    var (calls, syms) := (ExtCalls(Fixes(objs), FirstCap(Symbols(objs), LABEL_CAP)), FirstCap(Symbols(objs), LABEL_CAP));
    A64Placed(objs);
    FixesOrdered(objs, A64Patch.W);
    assert A64Image.LinkedImage(objs, cstrs).extcalls == A64Image.InBytes(calls);
    forall k | 0 <= k < |calls| ensures 4 * calls[k].site + 4 <= at || at + n <= 4 * calls[k].site {
      OnlyExternalsListed(Fixes(objs), syms, k);
      var i :| 0 <= i < |Fixes(objs)| && External(Fixes(objs)[i], syms) && Records(calls[k], Fixes(objs)[i], Imports(Fixes(objs), syms));
    }
  }

  /** The process starts with the last function called "main": the entry stub calls the place where
      its prologue stands, and exits with its result. */
  lemma A64Starts(objs: seq<Obj<U32>>, cstrs: seq<Byte>, img: seq<Byte>, bucket: seq<nat>, chain: seq<nat>, k: nat)
    requires A64Image.Linkable(objs) && A64Image.AllPlaced(objs) && k < |objs| && objs[k].name == Some("main")
    requires forall j :: k < j < |objs| ==> objs[j].name != Some("main")
    requires Ready(img, InputOf(AArch64, A64Image.LinkedImage(objs, cstrs)), bucket, chain)
    ensures var main_ := TextStart(InputOf(AArch64, A64Image.LinkedImage(objs, cstrs))) + 4 * |Code(objs[..k])|;
      StartsWith(AArch64, img, main_) && forall p :: 0 <= p < |objs[k].prol| ==> Holds(img, main_ + 4 * p, LE(objs[k].prol[p], 4), X)
  {
    hide A64Image.Linkable, A64Image.LinkedImage, Ready, StartsWith, Holds, Code, Symbols, Fixes, FirstCap, ImportNames, LayoutFor, External,
      A64Image.AllPlaced, LE, FromLE;
    var (image, prol, start) := (A64Image.LinkedImage(objs, cstrs), objs[k].prol, |Code(objs[..k])|);
    var inp := InputOf(AArch64, image);
    A64Image.MainStarts(objs, cstrs, k);
    ExitIsLast(image.imports);
    StartBound(img, inp, bucket, chain);
    A64Placed(objs);
    forall p | 0 <= p < |prol| ensures Holds(img, TextStart(inp) + 4 * start + 4 * p, LE(prol[p], 4), X) {
      forall i | 0 <= i < |Fixes(objs)| ensures 4 * Fixes(objs)[i].site + 4 <= 4 * (start + p) || 4 * (start + p) + 4 <= 4 * Fixes(objs)[i].site {
        PrologueApart(objs, A64Patch.W, k, i);
      }
      A64CallsApart(objs, cstrs, 4 * (start + p), 4);
      TextHeld(img, inp, bucket, chain, 4 * (start + p), 4);
      LEBack(image.text[4 * (start + p)..4 * (start + p) + 4]);
    }
  }

  /** A string literal in memory: its fix-up word leaves in its register the address of the text,
      terminated. */
  lemma A64Literal(objs: seq<Obj<U32>>, cstrs: seq<Byte>, img: seq<Byte>, bucket: seq<nat>, chain: seq<nat>, k: nat, j: nat,
                   rd: A64Instr.RegNo, t: seq<Byte>)
    requires A64Image.Linkable(objs) && A64Image.AllPlaced(objs) && k < |objs| && j < |objs[k].fixes| && objs[k].fixes[j].kind == StringRef
    requires objs[k].fixes[j].site < |objs[k].body| && objs[k].body[objs[k].fixes[j].site] == A64Instr.Encode(A64Instr.Adr(rd, 0))
    requires StringAt(cstrs, objs[k].fixes[j].aux, t)
    requires Ready(img, InputOf(AArch64, A64Image.LinkedImage(objs, cstrs)), bucket, chain)
    ensures var a := TextStart(InputOf(AArch64, A64Image.LinkedImage(objs, cstrs))) + 4 * (BodyStart(objs[..k], objs[k]) + objs[k].fixes[j].site);
      exists word: seq<Byte>, rel: int :: TakesAddress(word, rd, rel) && Holds(img, a, word, X) && Holds(img, a + rel, t + [0], R)
  {
    hide A64Image.Linkable, A64Image.LinkedImage, Ready, Holds, Code, Symbols, Fixes, FirstCap, ImportNames, LayoutFor, FromLE, StringAt,
      A64Image.AllPlaced, A64Instr.Encode, A64Instr.Decode;
    var (text, inp) := (A64Image.LinkedImage(objs, cstrs).text, InputOf(AArch64, A64Image.LinkedImage(objs, cstrs)));
    var site := 4 * (BodyStart(objs[..k], objs[k]) + objs[k].fixes[j].site);
    A64Image.StringStands(objs, cstrs, k, j, rd, t);
    var word := text[site..site + 4];
    var rel := A64Instr.Decode(FromLE(word)).value.imm21;
    A64Placed(objs);
    var i := FixPlacement(objs, k, j);
    FixesOrdered(objs, A64Patch.W);
    A64CallsApart(objs, cstrs, site, 4);
    A64CallsApart(objs, cstrs, site + rel, |t| + 1);
    TextHeld(img, inp, bucket, chain, site, 4);
    TextHeld(img, inp, bucket, chain, site + rel, |t| + 1);
    assert TakesAddress(word, rd, rel) && Holds(img, TextStart(inp) + site, word, X) && Holds(img, TextStart(inp) + site + rel, t + [0], R);
  }

  /** The instruction word ADR rd, rel. */
  predicate TakesAddress(word: seq<Byte>, rd: A64Instr.RegNo, rel: int) {
    |word| == 4 && FromLE(word) < P32 && A64Instr.Decode(FromLE(word)) == Some(A64Instr.Adr(rd, rel))
  }
}
