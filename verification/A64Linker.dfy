// The in-memory linker of the AArch64 backend: buffers, label and fix-up tables that are
// relocated in place, and the final patching pass.
module A64Linker {
  import opened Words
  import opened TypeSys
  import opened Registers
  import opened LinkKeys
  import opened LinkLayout
  import opened LinkTables
  import opened A64Instr
  import opened A64Buffer
  import opened A64Patch
  import opened A64Image

  /** A64 condition codes are numbered as the compiler's conditions. */
  const COND_A64 := [0x0, 0x1, 0x2, 0x3, 0x4, 0x5, 0x6, 0x7, 0x8, 0x9, 0xa, 0xb, 0xc, 0xd, 0xe, 0xf]

  function CondCode(condition: nat): (cc: nat)
    requires condition < |COND_A64|
    ensures cc == condition
  {
    COND_A64[condition]
  }

  /** Pending fix-ups lie in the body, in order, on words that were emitted for them. */
  predicate PendingPlaced(body: seq<U32>, labels: seq<LabelDef>, fixes: seq<Fix>) {
    Placed(Obj(None, [], body, labels, fixes))
  }

  class Linker {
    const out: WordBuffer
    const code: array<U32>
    var codeLen: nat
    var entryOff: nat
    var labels: seq<Label>
    var fixups: seq<Fixup>
    var fnSyms: seq<LabelDef>
    var cstrs: seq<Byte>
    var activeCtx: EmitContext?
    var imports: seq<string>
    var extcalls: seq<ExtCall>
    ghost var objs: seq<Obj<U32>>        // the functions linked so far
    ghost var pendLabels: seq<LabelDef>   // of the function being emitted
    ghost var pendFixes: seq<Fix>

    /** The tables are the reference layout of the finished functions, followed by the
        entries of the function being emitted. */
    ghost predicate InStep()
      reads `codeLen, `entryOff, `labels, `fixups, `fnSyms, `objs, `pendLabels, `pendFixes, code, out
    {
      && codeLen <= CODE_CAP == code.Length
      && code[..codeLen] == Code(objs)
      && labels == AsLabels(Labels(objs), true) + AsLabels(pendLabels, false)
      && fixups == AsFixups(Fixes(objs), true) + AsFixups(pendFixes, false)
      && fnSyms == FirstCap(Symbols(objs), LABEL_CAP)
      && entryOff == 4 * Entry(objs)
      && AllPlaced(objs)
      && PendingPlaced(out.bodyStream, pendLabels, pendFixes)
      && (forall i :: 0 <= i < |fixups| ==> fixups[i].fix.aux <= CSTR_CAP)
    }

    ghost predicate Valid()
      reads `codeLen, `entryOff, `labels, `fixups, `fnSyms, `objs, `pendLabels, `pendFixes
      reads code, out, out.body, out.prol
    {
      && out.Valid()
      && code != out.body && code != out.prol && code.Length == CODE_CAP
      && (!out.failed ==> InStep())
    }

    constructor ()
      ensures Valid() && fresh(out) && fresh(out.body) && fresh(out.prol) && fresh(code)
      ensures !out.failed && objs == [] && pendLabels == [] && pendFixes == [] && cstrs == [] && imports == [] && extcalls == []
      ensures out.bodyStream == [] && out.prolStream == []
    {
      hide InStep, WordBuffer.Valid;
      out := new WordBuffer();
      code := new U32[CODE_CAP](_ => 0);
      codeLen, entryOff, labels, fixups, fnSyms, cstrs := 0, 0, [], [], [], [];
      activeCtx, imports, extcalls := null, [], [];
      objs, pendLabels, pendFixes := [], [], [];
      new;
      NothingYet();
    }

    lemma NothingYet()
      requires codeLen == 0 && entryOff == 0 && labels == [] && fixups == [] && fnSyms == [] && code.Length == CODE_CAP
      requires objs == [] && pendLabels == [] && pendFixes == []
      ensures InStep()
    {
    }

    /** Emitters that only append to the body (and put a prologue) keep the linker in step. */
    twostate lemma StillValid()
      requires old(Valid()) && unchanged(this) && unchanged(code)
      requires out.Valid() && (old(out.failed) ==> out.failed) && old(out.bodyStream) <= out.bodyStream
      ensures Valid()
    {
    }

    /** Nothing of the current function has been emitted yet. */
    ghost predicate Idle()
      reads this, out
    {
      out.bodyStream == [] && out.prolStream == [] && pendLabels == [] && pendFixes == []
    }

    method EmitFnBegin(context: EmitContext)
      requires Valid() && Idle()
      modifies this`activeCtx, context, out
      ensures Valid() && Idle() && activeCtx == context && !context.fnNamed
      ensures out.failed == old(out.failed)
    {
      out.Reset();
      context.fnNamed := false;
      activeCtx := context;
    }

    method EmitFn(name: string)
      modifies activeCtx
      ensures activeCtx != null ==> activeCtx.fnName == name && activeCtx.fnNamed
    {
      if activeCtx != null {
        activeCtx.fnName := name;
        activeCtx.fnNamed := true;
      }
    }

    method EmitLabel(fn: string, name: string, index: int)
      requires Valid()
      modifies this`labels, this`pendLabels, out`failed, out`earlier
      ensures Valid()
      ensures out.failed <==> old(out.failed) || old(|labels|) >= LABEL_CAP
      ensures !out.failed ==>
        pendLabels == old(pendLabels) + [LabelDef(MakeKey(fn, name, index), |out.bodyStream|)]
    {
      if |labels| >= LABEL_CAP {
        out.Fail();
        return;
      }
      ghost var l := LabelDef(MakeKey(fn, name, index), out.bodyLen);
      labels := labels + [Label(MakeKey(fn, name, index), out.bodyLen, false)];
      pendLabels := pendLabels + [l];
      assert AsLabels(pendLabels, false) == AsLabels(old(pendLabels), false) + [Label(l.key, l.at, false)];
    }

    /** Record a fix-up for the next word and put that word. */
    method PutFixup(kind: FixKind, key: string, aux: nat, w: U32)
      requires Valid() && |fixups| < FIXUP_CAP && aux <= CSTR_CAP && Placeholder(kind, w)
      modifies this`fixups, this`pendFixes, out, out.body
      ensures Valid() && out.Emitted([w])
      ensures !out.failed ==> pendFixes == old(pendFixes) + [Fix(kind, key, |old(out.bodyStream)|, aux)]
    {
      hide Placeholder;
      ghost var f := Fix(kind, key, out.bodyLen, aux);
      fixups := fixups + [Fixup(Fix(kind, key, out.bodyLen, aux), false)];
      pendFixes := pendFixes + [f];
      out.PutWord(w);
      assert AsFixups(pendFixes, false) == AsFixups(old(pendFixes), false) + [Fixup(f, false)];
    }

    method EmitBranch(fn: string, name: string, index: int)
      requires Valid()
      modifies this`fixups, this`pendFixes, out, out.body
      ensures Valid()
      ensures old(out.failed) || old(|fixups|) >= FIXUP_CAP ==> out.failed
      ensures !out.failed ==>
        && out.bodyStream == old(out.bodyStream) + [EncodeOne(Branch(false, 0))]
        && pendFixes == old(pendFixes) + [Fix(Jump, MakeKey(fn, name, index), |old(out.bodyStream)|, 0)]
    {
      hide InStep, WordBuffer.Valid, MakeKey, Truncated;
      if |fixups| >= FIXUP_CAP {
        out.Fail();
        return;
      }
      PutFixup(Jump, MakeKey(fn, name, index), 0, 0x14000000);
    }

    method EmitBranchCond(condition: nat, fn: string, name: string, index: int) returns (ok: bool)
      requires Valid()
      modifies this`fixups, this`pendFixes, out, out.body
      ensures Valid()
      ensures ok <==> condition < |COND_A64| && old(|fixups|) < FIXUP_CAP
      ensures old(out.failed) || !ok ==> out.failed
      ensures !out.failed ==>
        && out.bodyStream == old(out.bodyStream) + [EncodeOne(BranchCond(CondCode(condition), 0))]
        && pendFixes == old(pendFixes) + [Fix(CondJump, MakeKey(fn, name, index), |old(out.bodyStream)|, 0)]
    {
      hide InStep, WordBuffer.Valid, MakeKey, Truncated, CondCode, Encode, Decode, Placeholder;
      if condition >= |COND_A64| || |fixups| >= FIXUP_CAP {
        out.Fail();
        return false;
      }
      var cc := CondCode(condition);
      CondWord(cc);
      PutFixup(CondJump, MakeKey(fn, name, index), 0, 0x54000000 + cc);
      return true;
    }

    method EmitFnCall(name: string)
      requires Valid()
      modifies this`fixups, this`pendFixes, out, out.body
      ensures Valid()
      ensures old(out.failed) || old(|fixups|) >= FIXUP_CAP ==> out.failed
      ensures !out.failed ==>
        && out.bodyStream == old(out.bodyStream) + [EncodeOne(Branch(true, 0))]
        && pendFixes == old(pendFixes) + [Fix(CallTo, Truncated(name), |old(out.bodyStream)|, 0)]
    {
      hide InStep, WordBuffer.Valid, Truncated;
      if |fixups| >= FIXUP_CAP {
        out.Fail();
        return;
      }
      PutFixup(CallTo, Truncated(name), 0, 0x94000000);
    }

    /** The address of a string literal; surrounding quotes are dropped and a terminator added. */
    method EmitStringLit(dst: Reg, s: seq<Byte>)
      requires Valid() && HasA64(dst)
      modifies this`fixups, this`pendFixes, this`cstrs, out, out.body
      ensures Valid()
      ensures old(out.failed) ==> out.failed
      ensures !out.failed ==>
        && cstrs == old(cstrs) + Unquoted(s) + [0] && |cstrs| <= CSTR_CAP
        && out.bodyStream == old(out.bodyStream) + [EncodeOne(Adr(A64No(dst), 0))]
        && pendFixes == old(pendFixes) + [Fix(StringRef, "", |old(out.bodyStream)|, |old(cstrs)|)]
    {
      hide InStep, WordBuffer.Valid;
      var text := Unquoted(s);
      if |cstrs| + |text| + 1 > CSTR_CAP {
        out.Fail();
        return;
      }
      var strOff := |cstrs|;
      cstrs := cstrs + text + [0];
      if |fixups| >= FIXUP_CAP {
        out.Fail();
        return;
      }
      AdrWord(A64No(dst));
      PutFixup(StringRef, "", strOff, 0x10000000 + A64No(dst));
    }

    method RelocateLabels(delta: nat)
      modifies this`labels
      ensures |labels| == |old(labels)|
      ensures forall j :: 0 <= j < |labels| ==> labels[j] == MovedLabel(old(labels)[j], delta)
    {
      for i := 0 to |labels|
        invariant |labels| == |old(labels)|
        invariant forall j :: 0 <= j < i ==> labels[j] == MovedLabel(old(labels)[j], delta)
        invariant forall j :: i <= j < |labels| ==> labels[j] == old(labels)[j]
      {
        if !labels[i].done {
          labels := labels[i := Label(labels[i].key, labels[i].at + delta, true)];
        }
      }
    }

    method RelocateFixups(delta: nat)
      modifies this`fixups
      ensures |fixups| == |old(fixups)|
      ensures forall j :: 0 <= j < |fixups| ==> fixups[j] == MovedFixup(old(fixups)[j], delta)
    {
      for i := 0 to |fixups|
        invariant |fixups| == |old(fixups)|
        invariant forall j :: 0 <= j < i ==> fixups[j] == MovedFixup(old(fixups)[j], delta)
        invariant forall j :: i <= j < |fixups| ==> fixups[j] == old(fixups)[j]
      {
        if !fixups[i].done {
          fixups := fixups[i := Fixup(fixups[i].fix.(site := fixups[i].fix.site + delta), true)];
        }
      }
    }

    /** Append a buffer to the linked code. */
    method AppendCode(buf: array<U32>, n: nat)
      requires buf != code && n <= buf.Length && codeLen + n <= code.Length
      modifies this`codeLen, code
      ensures codeLen == old(codeLen) + n
      ensures code[..codeLen] == old(code[..codeLen]) + old(buf[..n])
    {
      forall k | 0 <= k < n { code[codeLen + k] := buf[k]; }
      codeLen := codeLen + n;
    }

    method DefineFunction(context: EmitContext, base: nat)
      modifies this`fnSyms, this`entryOff
      ensures fnSyms == if context.fnNamed && |old(fnSyms)| < LABEL_CAP
        then old(fnSyms) + [LabelDef(Truncated(context.fnName), base)] else old(fnSyms)
      ensures entryOff == if context.fnNamed && context.fnName == "main" then 4 * base else old(entryOff)
    {
      if context.fnNamed {
        if |fnSyms| < LABEL_CAP {
          fnSyms := fnSyms + [LabelDef(Truncated(context.fnName), base)];
        }
        if context.fnName == "main" {
          entryOff := base * 4;
        }
      }
    }

    /** Finish a function: it becomes the next object of the layout. */
    method EmitFnEnd(context: EmitContext)
      requires Valid()
      modifies this`codeLen, this`entryOff, this`labels, this`fixups, this`fnSyms
      modifies this`objs, this`pendLabels, this`pendFixes, code, out
      ensures Valid()
      ensures out.failed <==> old(out.failed) || |Code(old(objs))| + |old(out.prolStream)| + |old(out.bodyStream)| > CODE_CAP
      ensures !out.failed ==> Idle() && objs == old(objs) + [Obj(if context.fnNamed then Some(context.fnName) else None,
        old(out.prolStream), old(out.bodyStream), old(pendLabels), old(pendFixes))]
    {
      hide Code, Labels, Fixes, Symbols, Entry, WordBuffer.Valid, InStep, FirstCap, Placed;
      var base := codeLen;
      var delta := base + out.prolLen;
      ghost var o := PendingObj(context);
      EndInput(context);
      if codeLen + out.prolLen + out.bodyLen > CODE_CAP {
        out.Fail();
        return;
      }
      AppendCode(out.prol, out.prolLen);
      AppendCode(out.body, out.bodyLen);
      RelocateLabels(delta);
      RelocateFixups(delta);
      DefineFunction(context, base);
      ghost var before := objs;
      objs, pendLabels, pendFixes := objs + [o], [], [];
      out.Reset();
      if !out.failed {
        LabelsPlaced(before, o, old(labels), labels);
        FixupsPlaced(before, o, old(fixups), fixups);
        SymbolsPlaced(before, o, old(fnSyms), fnSyms);
        EndOutput(before, o);
      }
    }

    // ---- Final patching ----

    method PatchWord(kind: FixKind, site: nat, rel: int)
      requires site < codeLen <= code.Length
      modifies code
      ensures code[..codeLen] == old(code[..codeLen])[site := Or(old(code[site]), FieldBits(kind, rel))]
    {
      code[site] := Or(code[site], FieldBits(kind, rel));
    }

    /** The import index of a name, entered in the table if it is new. */
    method Import(key: string) returns (imp: nat)
      requires out.Valid()
      modifies this`imports, out`failed, out`earlier
      ensures out.Valid() && imp == IndexOf(old(imports), key)
      ensures imp < |old(imports)| || |old(imports)| < IMPORT_CAP ==>
        imports == AddName(old(imports), key) && out.failed == old(out.failed)
      ensures imp == |old(imports)| >= IMPORT_CAP ==> imports == old(imports) && out.failed
    {
      hide WordBuffer.Valid;
      imp := |imports|;
      assert imports[0..] == imports;
      for k := 0 to |imports|
        invariant imp == |imports| && IndexOf(imports, key) == k + IndexOf(imports[k..], key)
      {
        if imports[k] == key {
          imp := k;
          break;
        }
        assert imports[k..][1..] == imports[k + 1..];
      }
      if imp == |imports| {
        if |imports| >= IMPORT_CAP {
          out.Fail();
          return;
        }
        imports := imports + [key];
      }
    }

    /** Resolve one fix-up in place, or list the call as external. */
    method LinkFixup(fx: Fix)
      requires out.Valid() && fx.site < codeLen <= code.Length
      requires code != out.body && code != out.prol && |imports| <= IMPORT_CAP
      modifies this`imports, this`extcalls, code, out`failed, out`earlier
      ensures out.Valid()
      ensures code[..codeLen] == PatchOne(old(code[..codeLen]), fx, Defs(labels), fnSyms)
      ensures var names := if External(fx, fnSyms) then AddName(old(imports), fx.key) else old(imports);
        var full := |names| > IMPORT_CAP;
        && (out.failed <==> old(out.failed) || full || Unresolved(fx, Defs(labels)))
        && imports == (if full then old(imports) else names)
        && (full || extcalls ==
             old(extcalls) + if External(fx, fnSyms) then [ExtCall(4 * fx.site, IndexOf(old(imports), fx.key))] else [])
    {
      hide WordBuffer.Valid, IndexOf, Or, FieldBits, Find;
      match fx.kind
      case StringRef =>
        PatchWord(fx.kind, fx.site, codeLen * 4 + fx.aux - fx.site * 4);
      case CallTo =>
        var target := FindAt(fnSyms, fx.key);
        if target.Some? {
          PatchWord(fx.kind, fx.site, target.value - fx.site);
          return;
        }
        var imp := Import(fx.key);
        if imp < |imports| {
          extcalls := extcalls + [ExtCall(fx.site * 4, imp)];
        }
      case _ =>
        var target := FindAt(Defs(labels), fx.key);
        if target.None? {
          out.Fail();
          return;
        }
        PatchWord(fx.kind, fx.site, target.value - fx.site);
    }

    /** The linked image: every fix-up of every function resolved against the whole program. */
    method BinEmit() returns (image: Image<Byte>)
      requires Valid() && Idle() && !out.failed && imports == [] && extcalls == []
      modifies this`imports, this`extcalls, code, out`failed, out`earlier
      ensures out.failed <==> Unlinkable(Fixes(objs), Labels(objs), FirstCap(Symbols(objs), LABEL_CAP))
      ensures !out.failed ==> Linkable(objs) && image == LinkedImage(objs, cstrs)
    {
      hide WordBuffer.Valid, InStep, Linkable, Imports, ExtCalls, Unlinkable, PatchAll, PatchOne, Unresolved, External, AddName, IndexOf,
        Code, Labels, Fixes, Symbols, Entry, FirstCap, Find, Placed, LEWords;
      ghost var fixes, labs := Fixes(objs), Labels(objs);
      LinkInput();
      ImageLinkable();
      NothingLinked(Code(objs), labs, fnSyms);
      for i := 0 to |fixups|
        invariant out.Valid() && |imports| <= IMPORT_CAP
        invariant out.failed <==> Unlinkable(fixes[..i], labs, fnSyms)
        invariant code[..codeLen] == PatchAll(Code(objs), fixes[..i], labs, fnSyms)
        invariant !out.failed ==> imports == Imports(fixes[..i], fnSyms)
        invariant !out.failed ==> extcalls == InBytes(ExtCalls(fixes[..i], fnSyms))
      {
        UnlinkableStep(fixes, labs, fnSyms, i);
        LinksStep(fixes, fnSyms, i);
        PatchStep(Code(objs), fixes, labs, fnSyms, i);
        LinkFixup(fixups[i].fix);
      }
      assert fixes[..|fixes|] == fixes;
      image := Image(LEWords(code[..codeLen]) + cstrs, entryOff, imports, extcalls);
    }

    lemma ImageLinkable()
      requires Valid() && Idle() && !out.failed
      ensures Linkable(objs) || Unlinkable(Fixes(objs), Labels(objs), FirstCap(Symbols(objs), LABEL_CAP))
    {
      hide Unlinkable, WordBuffer.Valid, Imports, Find;
      LinkInput();
      assert forall i :: 0 <= i < |Fixes(objs)| ==> Fixes(objs)[i] == fixups[i].fix;
    }

    lemma LinkInput()
      requires Valid() && Idle() && !out.failed
      ensures codeLen == |Code(objs)| <= code.Length && code[..codeLen] == Code(objs)
      ensures Defs(labels) == Labels(objs)
      ensures |fixups| == |Fixes(objs)| && forall i :: 0 <= i < |fixups| ==> fixups[i].fix == Fixes(objs)[i]
      ensures fnSyms == FirstCap(Symbols(objs), LABEL_CAP) && entryOff == 4 * Entry(objs)
      ensures forall i :: 0 <= i < |fixups| ==> fixups[i].fix.site < codeLen
    {
      assert AsLabels([], false) == [] && AsFixups([], false) == [];
      FixesOrdered(objs, W);
    }

    /** What the function being emitted will be once finished. */
    ghost function PendingObj(context: EmitContext): Obj<U32>
      reads this, context, out
    {
      Obj(if context.fnNamed then Some(context.fnName) else None, out.prolStream, out.bodyStream, pendLabels, pendFixes)
    }

    lemma EndInput(context: EmitContext)
      requires Valid()
      ensures out.bodyLen <= out.body.Length && out.prolLen <= out.prol.Length
      ensures !out.failed ==>
        && codeLen <= code.Length
        && codeLen == |Code(objs)| && code[..codeLen] == Code(objs)
        && out.prol[..out.prolLen] == out.prolStream && out.body[..out.bodyLen] == out.bodyStream
        && |out.prolStream| == out.prolLen && |out.bodyStream| == out.bodyLen
        && labels == AsLabels(Labels(objs), true) + AsLabels(pendLabels, false)
        && fixups == AsFixups(Fixes(objs), true) + AsFixups(pendFixes, false)
        && fnSyms == FirstCap(Symbols(objs), LABEL_CAP) && entryOff == 4 * Entry(objs)
        && Placed(PendingObj(context)) && AllPlaced(objs)
        && (forall i :: 0 <= i < |fixups| ==> fixups[i].fix.aux <= CSTR_CAP)
    {
    }

    lemma EndOutput(before: seq<Obj<U32>>, o: Obj<U32>)
      requires objs == before + [o] && pendLabels == [] && pendFixes == []
      requires codeLen <= CODE_CAP == code.Length
      requires code[..codeLen] == Code(before) + o.prol + o.body
      requires labels == AsLabels(Labels(objs), true) && fixups == AsFixups(Fixes(objs), true)
      requires fnSyms == FirstCap(Symbols(objs), LABEL_CAP)
      requires entryOff == 4 * if o.name == Some("main") then |Code(before)| else Entry(before)
      requires Placed(o) && AllPlaced(before)
      requires forall i :: 0 <= i < |fixups| ==> fixups[i].fix.aux <= CSTR_CAP
      ensures InStep()
    {
      CodeSnoc(before, o);
      assert AsLabels([], false) == [] && AsFixups([], false) == [];
    }
  }

  lemma NothingLinked(code: seq<U32>, labels: seq<LabelDef>, syms: seq<LabelDef>)
    ensures !Unlinkable([], labels, syms) && Imports([], syms) == [] && ExtCalls([], syms) == []
    ensures PatchAll(code, [], labels, syms) == code
  {
  }

  lemma CondWord(cc: nat)
    requires cc < 16
    ensures 0x54000000 + cc == EncodeOne(BranchCond(cc, 0)) && Placeholder(CondJump, 0x54000000 + cc)
  {
    assert 0x54000000 + cc == Encode(BranchCond(cc, 0));
  }

  lemma AdrWord(rd: RegNo)
    ensures 0x10000000 + rd == EncodeOne(Adr(rd, 0)) && Placeholder(StringRef, 0x10000000 + rd)
  {
    assert 0x10000000 + rd == Encode(Adr(rd, 0));
  }
}
