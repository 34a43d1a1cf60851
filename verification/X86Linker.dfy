// The in-memory linker of the x86-64 backend: buffers, label and fix-up tables that are
// relocated in place, and the final patching pass.
module X86Linker {
  import opened Words
  import opened TypeSys
  import opened Registers
  import opened LinkKeys
  import opened LinkLayout
  import opened LinkTables
  import opened X86Buffer
  import opened X86Patch
  import opened X86Image
  import opened X86Flags
  import X86Instr
  import Emit = X86Emit

  /** x86 condition codes in the order of the compiler's conditions; the last two
      conditions (always, never) have none. */
  class Linker {
    const out: CodeBuffer
    const code: array<Byte>
    var codeLen: nat
    var entryOff: nat
    var labels: seq<Label>
    var fixups: seq<Fixup>
    var fnSyms: seq<LabelDef>
    var cstrs: seq<Byte>
    var activeCtx: EmitContext?
    var imports: seq<string>
    var extcalls: seq<ExtCall>
    ghost var objs: seq<Obj<Byte>>        // the functions linked so far
    ghost var pendLabels: seq<LabelDef>   // of the function being emitted
    ghost var pendFixes: seq<Fix>

    /** The tables are the reference layout of the finished functions, followed by the
        entries of the function being emitted. */
    ghost predicate InStep()
      reads `codeLen, `entryOff, `labels, `fixups, `fnSyms, `objs, `pendLabels, `pendFixes, code, out
    {
      && codeLen <= CODE_CAP == code.Length
      && code[..codeLen] == Code(objs)
      && labels == AsLabels(Labels(objs), true) + AsLabels(pendLabels, false)
      && fixups == AsFixups(Fixes(objs), true) + AsFixups(pendFixes, false)
      && fnSyms == FirstCap(Symbols(objs), LABEL_CAP)
      && entryOff == Entry(objs)
      && (forall k :: 0 <= k < |objs| ==> Placed(objs[k]))
      && Ordered(pendFixes, W, |out.bodyStream|)
      && (forall j :: 0 <= j < |pendFixes| ==> Standing(pendFixes, j, out.bodyStream))
      && (forall i :: 0 <= i < |pendLabels| ==> pendLabels[i].at <= |out.bodyStream|)
      && (forall i :: 0 <= i < |fixups| ==> fixups[i].fix.aux <= CSTR_CAP)
    }

    ghost predicate Valid()
      reads `codeLen, `entryOff, `labels, `fixups, `fnSyms, `objs, `pendLabels, `pendFixes
      reads code, out, out.body, out.prol
    {
      && out.Valid() && !out.emitToProl
      && code != out.body && code != out.prol && code.Length == CODE_CAP
      && (!out.failed ==> InStep())
    }

    constructor ()
      ensures Valid() && fresh(out) && fresh(out.body) && fresh(out.prol) && fresh(code)
      ensures !out.failed && objs == [] && pendLabels == [] && pendFixes == [] && cstrs == [] && imports == [] && extcalls == []
      ensures out.bodyStream == [] && out.prolStream == []
    {
      out := new CodeBuffer();
      code := new Byte[CODE_CAP](_ => 0);
      codeLen, entryOff, labels, fixups, fnSyms, cstrs := 0, 0, [], [], [], [];
      activeCtx, imports, extcalls := null, [], [];
      objs, pendLabels, pendFixes := [], [], [];
    }

    /** Emitters that only append to the body (and put a prologue) keep the linker in step. */
    twostate lemma StillValid()
      requires old(Valid()) && unchanged(this) && unchanged(code)
      requires out.Valid() && !out.emitToProl && (old(out.failed) ==> out.failed) && old(out.bodyStream) <= out.bodyStream
      ensures Valid()
    {
      hide Standing;
      if !out.failed {
        forall j | 0 <= j < |pendFixes| ensures Standing(pendFixes, j, out.bodyStream) {
          StandingGrows(pendFixes, j, old(out.bodyStream), pendFixes, out.bodyStream);
        }
      }
    }

    /** Nothing of the current function has been emitted yet. */
    ghost predicate Idle()
      reads this, out
    {
      out.bodyStream == [] && out.prolStream == [] && pendLabels == [] && pendFixes == []
    }

    method EmitFnBegin(context: EmitContext)
      requires Valid() && Idle()
      modifies this`activeCtx, context, out
      ensures Valid() && Idle() && activeCtx == context && !context.fnNamed
      ensures out.failed == old(out.failed)
    {
      out.Reset();
      context.fnNamed := false;
      activeCtx := context;
    }

    method EmitFn(name: string)
      modifies activeCtx
      ensures activeCtx != null ==> activeCtx.fnName == name && activeCtx.fnNamed
    {
      if activeCtx != null {
        activeCtx.fnName := name;
        activeCtx.fnNamed := true;
      }
    }

    method EmitLabel(fn: string, name: string, index: int)
      requires Valid()
      modifies this`labels, this`pendLabels, out`failed, out`earlier
      ensures Valid()
      ensures out.failed <==> old(out.failed) || old(|labels|) >= LABEL_CAP
      ensures !out.failed ==>
        pendLabels == old(pendLabels) + [LabelDef(MakeKey(fn, name, index), |out.bodyStream|)]
    {
      if |labels| >= LABEL_CAP {
        out.Fail();
        return;
      }
      ghost var l := LabelDef(MakeKey(fn, name, index), out.CurOff());
      labels := labels + [Label(MakeKey(fn, name, index), out.CurOff(), false)];
      pendLabels := pendLabels + [l];
      assert AsLabels(pendLabels, false) == AsLabels(old(pendLabels), false) + [Label(l.key, l.at, false)];
    }

    /** Record a fix-up at the current offset and leave a zero field for it. */
    method PutField(kind: FixKind, key: string, aux: nat, ghost before: seq<Byte>, ghost i: X86Instr.Instr)
      requires Valid() && |fixups| < FIXUP_CAP && aux <= CSTR_CAP
      requires IsForm(kind, i) && i.rel == 0 && out.bodyStream + LE(0, 4) == before + X86Instr.Encode(i)
      requires !out.failed && pendFixes != [] ==> pendFixes[|pendFixes| - 1].site + 4 <= |before|
      modifies this`fixups, this`pendFixes, out, out.body, out.prol
      ensures Valid() && out.Emitted(LE(0, 4))
      ensures !out.failed ==> pendFixes == old(pendFixes) + [Fix(kind, key, |old(out.bodyStream)|, aux)]
    {
      hide Standing, IsForm, X86Instr.Encode, LE, Code, Labels, Fixes, Symbols, Entry, FirstCap, Placed, X86Instr.WellFormed, AsLabels;
      ghost var f := Fix(kind, key, out.CurOff(), aux);
      fixups := fixups + [Fixup(Fix(kind, key, out.CurOff(), aux), false)];
      pendFixes := pendFixes + [f];
      out.Put32(0);
      assert AsFixups(pendFixes, false) == AsFixups(old(pendFixes), false) + [Fixup(f, false)];
      if !out.failed {
        AllStanding(old(pendFixes), old(out.bodyStream), before, f, i);
      }
    }

    /** Where the last field ends is where the next instruction may start. */
    lemma FieldsBehind()
      requires Valid()
      ensures !out.failed && pendFixes != [] ==> pendFixes[|pendFixes| - 1].site + 4 <= |out.bodyStream|
    {
    }

    /** The opcode of a branch, before its displacement field. */
    method PutOpcode(op: seq<Byte>)
      requires Valid() && 1 <= |op| <= 2
      modifies out, out.body, out.prol
      ensures Valid() && out.Emitted(op)
    {
      hide InStep, CodeBuffer.Valid;
      out.Put8(op[0]);
      if |op| == 2 {
        out.Put8(op[1]);
        assert op == [op[0]] + [op[1]];
      } else {
        assert op == [op[0]];
      }
      StillValid();
    }

    method EmitBranch(fn: string, name: string, index: int)
      requires Valid()
      modifies this`fixups, this`pendFixes, out, out.body, out.prol
      ensures Valid()
      ensures old(out.failed) || old(|fixups|) >= FIXUP_CAP ==> out.failed
      ensures !out.failed ==>
        && out.bodyStream == old(out.bodyStream) + X86Instr.Encode(X86Instr.Jmp(0))
        && pendFixes == old(pendFixes) + [Fix(Jump, MakeKey(fn, name, index), |old(out.bodyStream)| + 1, 0)]
    {
      hide InStep, CodeBuffer.Valid, X86Instr.Encode, LE, MakeKey, Truncated;
      FieldsBehind();
      if |fixups| >= FIXUP_CAP {
        out.Fail();
        return;
      }
      PutOpcode([0xe9]);
      JmpBytes();
      PutField(Jump, MakeKey(fn, name, index), 0, old(out.bodyStream), X86Instr.Jmp(0));
    }

    method EmitBranchCond(condition: nat, fn: string, name: string, index: int) returns (ok: bool)
      requires Valid()
      modifies this`fixups, this`pendFixes, out, out.body, out.prol
      ensures Valid()
      ensures ok <==> condition < |COND_CC| && old(|fixups|) < FIXUP_CAP
      ensures old(out.failed) || !ok ==> out.failed
      ensures !out.failed ==>
        && out.bodyStream == old(out.bodyStream) + X86Instr.Encode(X86Instr.Jcc(CondCode(condition), 0))
        && pendFixes == old(pendFixes) + [Fix(CondJump, MakeKey(fn, name, index), |old(out.bodyStream)| + 2, 0)]
    {
      hide InStep, CodeBuffer.Valid, X86Instr.Encode, LE, MakeKey, Truncated, CondCode;
      FieldsBehind();
      if condition >= |COND_CC| || |fixups| >= FIXUP_CAP {
        out.Fail();
        return false;
      }
      var cc := CondCode(condition);
      PutOpcode([0x0f, 0x80 + cc]);
      JccBytes(cc);
      PutField(CondJump, MakeKey(fn, name, index), 0, old(out.bodyStream), X86Instr.Jcc(cc, 0));
      return true;
    }

    method EmitFnCall(name: string)
      requires Valid()
      modifies this`fixups, this`pendFixes, out, out.body, out.prol
      ensures Valid()
      ensures old(out.failed) || old(|fixups|) >= FIXUP_CAP ==> out.failed
      ensures !out.failed ==>
        && out.bodyStream == old(out.bodyStream) + X86Instr.Encode(X86Instr.Call(0))
        && pendFixes == old(pendFixes) + [Fix(CallTo, Truncated(name), |old(out.bodyStream)| + 1, 0)]
    {
      hide InStep, CodeBuffer.Valid, X86Instr.Encode, LE, MakeKey, Truncated;
      FieldsBehind();
      if |fixups| >= FIXUP_CAP {
        out.Fail();
        return;
      }
      PutOpcode([0xe8]);
      CallBytes();
      PutField(CallTo, Truncated(name), 0, old(out.bodyStream), X86Instr.Call(0));
    }

    /** An address computation relative to the next instruction, up to its displacement. */
    method PutLea(sz: nat, r: X86Instr.RegNo)
      requires Valid() && (sz == 4 || sz == 8)
      modifies out, out.body, out.prol
      ensures Valid() && out.bodyStream + LE(0, 4) == old(out.bodyStream) + X86Instr.Encode(X86Instr.LeaRip(sz, r, 0))
      ensures old(out.failed) ==> out.failed
    {
      hide InStep, CodeBuffer.Valid, X86Instr.Assemble;
      ghost var i := X86Instr.LeaRip(sz, r, 0);
      ghost var head := X86Instr.Assemble(X86Instr.Parse(i).(tail := []));
      Emit.PutHead(out, sz, r, 0, 0, false, X86Instr.OP_LEA);
      out.Put8(X86Instr.ModRM(0, r, 5));
      StillValid();
      Emit.TailAfterHead(X86Instr.Parse(i));
    }

    /** The address of a string literal; surrounding quotes are dropped and a terminator added. */
    method EmitStringLit(dst: Reg, s: seq<Byte>)
      requires Valid() && InTable(dst) && (RSize(dst) == 4 || RSize(dst) == 8)
      modifies this`fixups, this`pendFixes, this`cstrs, out, out.body, out.prol
      ensures Valid()
      ensures old(out.failed) ==> out.failed
      ensures !out.failed ==>
        && cstrs == old(cstrs) + Unquoted(s) + [0] && |cstrs| <= CSTR_CAP
        && out.bodyStream == old(out.bodyStream) + X86Instr.Encode(X86Instr.LeaRip(RSize(dst), X86No(dst), 0))
        && pendFixes == old(pendFixes)
             + [Fix(StringRef, "", |out.bodyStream| - 4, |old(cstrs)|)]
    {
      hide InStep, CodeBuffer.Valid, X86Instr.Encode, X86No, Unquoted, IsForm;
      FieldsBehind();
      var text := Unquoted(s);
      if |cstrs| + |text| + 1 > CSTR_CAP {
        out.Fail();
        return;
      }
      var strOff := |cstrs|;
      cstrs := cstrs + text + [0];
      assert IsForm(StringRef, X86Instr.LeaRip(RSize(dst), X86No(dst), 0)) by { LeaForm(RSize(dst), X86No(dst)); }
      PutLea(RSize(dst), X86No(dst));
      if |fixups| >= FIXUP_CAP {
        out.Fail();
        return;
      }
      PutField(StringRef, "", strOff, old(out.bodyStream), X86Instr.LeaRip(RSize(dst), X86No(dst), 0));
    }

    method RelocateLabels(delta: nat)
      modifies this`labels
      ensures |labels| == |old(labels)|
      ensures forall j :: 0 <= j < |labels| ==> labels[j] == MovedLabel(old(labels)[j], delta)
    {
      for i := 0 to |labels|
        invariant |labels| == |old(labels)|
        invariant forall j :: 0 <= j < i ==> labels[j] == MovedLabel(old(labels)[j], delta)
        invariant forall j :: i <= j < |labels| ==> labels[j] == old(labels)[j]
      {
        if !labels[i].done {
          labels := labels[i := Label(labels[i].key, labels[i].at + delta, true)];
        }
      }
    }

    method RelocateFixups(delta: nat)
      modifies this`fixups
      ensures |fixups| == |old(fixups)|
      ensures forall j :: 0 <= j < |fixups| ==> fixups[j] == MovedFixup(old(fixups)[j], delta)
    {
      for i := 0 to |fixups|
        invariant |fixups| == |old(fixups)|
        invariant forall j :: 0 <= j < i ==> fixups[j] == MovedFixup(old(fixups)[j], delta)
        invariant forall j :: i <= j < |fixups| ==> fixups[j] == old(fixups)[j]
      {
        if !fixups[i].done {
          fixups := fixups[i := Fixup(fixups[i].fix.(site := fixups[i].fix.site + delta), true)];
        }
      }
    }

    /** Append a buffer to the linked code. */
    method AppendCode(buf: array<Byte>, n: nat)
      requires buf != code && n <= buf.Length && codeLen + n <= code.Length
      modifies this`codeLen, code
      ensures codeLen == old(codeLen) + n
      ensures code[..codeLen] == old(code[..codeLen]) + old(buf[..n])
    {
      forall k | 0 <= k < n { code[codeLen + k] := buf[k]; }
      codeLen := codeLen + n;
    }

    method DefineFunction(context: EmitContext, base: nat)
      modifies this`fnSyms, this`entryOff
      ensures fnSyms == if context.fnNamed && |old(fnSyms)| < LABEL_CAP
        then old(fnSyms) + [LabelDef(Truncated(context.fnName), base)] else old(fnSyms)
      ensures entryOff == if context.fnNamed && context.fnName == "main" then base else old(entryOff)
    {
      if context.fnNamed {
        if |fnSyms| < LABEL_CAP {
          fnSyms := fnSyms + [LabelDef(Truncated(context.fnName), base)];
        }
        if context.fnName == "main" {
          entryOff := base;
        }
      }
    }

    /** Both buffers go behind the linked code, and the entries of the function move with them. */
    method PlaceFunction(context: EmitContext)
      requires out.prol != code && out.body != code && out.prolLen <= out.prol.Length && out.bodyLen <= out.body.Length
      requires codeLen + out.prolLen + out.bodyLen <= code.Length
      modifies this`codeLen, this`entryOff, this`labels, this`fixups, this`fnSyms, code
      ensures codeLen == old(codeLen + out.prolLen + out.bodyLen)
      ensures code[..codeLen] == old(code[..codeLen] + out.prol[..out.prolLen] + out.body[..out.bodyLen])
      ensures |labels| == |old(labels)|
      ensures forall j :: 0 <= j < |labels| ==> labels[j] == MovedLabel(old(labels)[j], old(codeLen) + out.prolLen)
      ensures |fixups| == |old(fixups)|
      ensures forall j :: 0 <= j < |fixups| ==> fixups[j] == MovedFixup(old(fixups)[j], old(codeLen) + out.prolLen)
      ensures fnSyms == if context.fnNamed && |old(fnSyms)| < LABEL_CAP
        then old(fnSyms) + [LabelDef(Truncated(context.fnName), old(codeLen))] else old(fnSyms)
      ensures entryOff == if context.fnNamed && context.fnName == "main" then old(codeLen) else old(entryOff)
    {
      hide MovedLabel, MovedFixup, Truncated;
      var base := codeLen;
      var delta := base + out.prolLen;
      AppendCode(out.prol, out.prolLen);
      AppendCode(out.body, out.bodyLen);
      RelocateLabels(delta);
      RelocateFixups(delta);
      DefineFunction(context, base);
    }

    /** Finish a function: it becomes the next object of the layout. */
    method EmitFnEnd(context: EmitContext)
      requires Valid()
      modifies this`codeLen, this`entryOff, this`labels, this`fixups, this`fnSyms
      modifies this`objs, this`pendLabels, this`pendFixes, code, out
      ensures Valid()
      ensures out.failed <==> old(out.failed) || |Code(old(objs))| + |old(out.prolStream)| + |old(out.bodyStream)| > CODE_CAP
      ensures !out.failed ==> Idle() && objs == old(objs) + [Obj(if context.fnNamed then Some(context.fnName) else None,
        old(out.prolStream), old(out.bodyStream), old(pendLabels), old(pendFixes))]
    {
      hide Code, Labels, Fixes, Symbols, Entry, CodeBuffer.Valid, InStep, FirstCap, WellPlaced, Placed, Ordered, MovedLabel, MovedFixup,
        AsLabels, AsFixups, Truncated, Standing;
      ghost var o := PendingObj(context);
      EndInput(context);
      if codeLen + out.prolLen + out.bodyLen > CODE_CAP {
        out.Fail();
        return;
      }
      PlaceFunction(context);
      ghost var before := objs;
      objs, pendLabels, pendFixes := objs + [o], [], [];
      out.Reset();
      if !out.failed {
        EndOutput(before, o, old(labels), old(fixups), old(fnSyms));
      }
    }

    // ---- Final patching ----

    method PatchField(site: nat, v: int)
      requires site + 4 <= codeLen <= code.Length
      modifies code
      ensures code[..codeLen] == Patch(old(code[..codeLen]), site, v)
    {
      var bytes := LE(v, 4);
      forall k | 0 <= k < 4 { code[site + k] := bytes[k]; }
    }

    /** The import index of a name, entered in the table if it is new. */
    method Import(key: string) returns (imp: nat)
      requires out.Valid()
      modifies this`imports, out`failed, out`earlier
      ensures out.Valid() && imp == IndexOf(old(imports), key)
      ensures imp < |old(imports)| || |old(imports)| < IMPORT_CAP ==>
        imports == AddName(old(imports), key) && out.failed == old(out.failed)
      ensures imp == |old(imports)| >= IMPORT_CAP ==> imports == old(imports) && out.failed
    {
      hide CodeBuffer.Valid;
      imp := |imports|;
      assert imports[0..] == imports;
      for k := 0 to |imports|
        invariant imp == |imports| && IndexOf(imports, key) == k + IndexOf(imports[k..], key)
      {
        if imports[k] == key {
          imp := k;
          break;
        }
        assert imports[k..][1..] == imports[k + 1..];
      }
      if imp == |imports| {
        if |imports| >= IMPORT_CAP {
          out.Fail();
          return;
        }
        imports := imports + [key];
      }
    }

    /** Resolve one fix-up in place, or list the call as external. */
    method LinkFixup(fx: Fix)
      requires out.Valid() && fx.site + 4 <= codeLen <= code.Length
      requires code != out.body && code != out.prol && |imports| <= IMPORT_CAP
      modifies this`imports, this`extcalls, code, out`failed, out`earlier
      ensures out.Valid()
      ensures code[..codeLen] == PatchOne(old(code[..codeLen]), fx, Defs(labels), fnSyms)
      ensures var names := if External(fx, fnSyms) then AddName(old(imports), fx.key) else old(imports);
        var full := |names| > IMPORT_CAP;
        && (out.failed <==> old(out.failed) || full || Unresolved(fx, Defs(labels)))
        && imports == (if full then old(imports) else names)
        && (full || extcalls ==
             old(extcalls) + if External(fx, fnSyms) then [ExtCall(fx.site, IndexOf(old(imports), fx.key))] else [])
    {
      hide CodeBuffer.Valid, IndexOf, Patch, Find;
      match fx.kind
      case StringRef =>
        PatchField(fx.site, codeLen + fx.aux - (fx.site + 4));
      case CallTo =>
        var target := FindAt(fnSyms, fx.key);
        if target.Some? {
          PatchField(fx.site, target.value - (fx.site + 4));
          return;
        }
        var imp := Import(fx.key);
        if imp < |imports| {
          extcalls := extcalls + [ExtCall(fx.site, imp)];
        }
      case _ =>
        var target := FindAt(Defs(labels), fx.key);
        if target.None? {
          out.Fail();
          return;
        }
        PatchField(fx.site, target.value - (fx.site + 4));
    }

    /** The linked image: every fix-up of every function resolved against the whole program. */
    method BinEmit() returns (image: Image<Byte>)
      requires Valid() && Idle() && !out.failed && imports == [] && extcalls == []
      modifies this`imports, this`extcalls, code, out`failed, out`earlier
      ensures out.failed <==> Unlinkable(Fixes(objs), Labels(objs), FirstCap(Symbols(objs), LABEL_CAP))
      ensures !out.failed ==> Linkable(objs) && image == LinkedImage(objs, cstrs)
    {
      hide CodeBuffer.Valid, InStep, Linkable, Imports, ExtCalls, Unlinkable, PatchAll, PatchOne, Unresolved, External, AddName, IndexOf,
        Code, Labels, Fixes, Symbols, Entry, FirstCap, Find, WellPlaced, Ordered;
      ghost var fixes, labs := Fixes(objs), Labels(objs);
      LinkInput();
      ImageLinkable();
      NothingLinked(Code(objs), labs, fnSyms);
      for i := 0 to |fixups|
        invariant out.Valid() && |imports| <= IMPORT_CAP
        invariant out.failed <==> Unlinkable(fixes[..i], labs, fnSyms)
        invariant code[..codeLen] == PatchAll(Code(objs), fixes[..i], labs, fnSyms)
        invariant !out.failed ==> imports == Imports(fixes[..i], fnSyms)
        invariant !out.failed ==> extcalls == ExtCalls(fixes[..i], fnSyms)
      {
        UnlinkableStep(fixes, labs, fnSyms, i);
        LinksStep(fixes, fnSyms, i);
        PatchStep(Code(objs), fixes, labs, fnSyms, i);
        LinkFixup(fixups[i].fix);
      }
      assert fixes[..|fixes|] == fixes;
      image := Image(code[..codeLen] + cstrs, entryOff, imports, extcalls);
    }

    lemma ImageLinkable()
      requires Valid() && Idle() && !out.failed
      ensures Linkable(objs) || Unlinkable(Fixes(objs), Labels(objs), FirstCap(Symbols(objs), LABEL_CAP))
    {
      hide Unlinkable, CodeBuffer.Valid, Imports, Find;
      LinkInput();
      assert forall i :: 0 <= i < |Fixes(objs)| ==> Fixes(objs)[i] == fixups[i].fix;
    }

    lemma LinkInput()
      requires Valid() && Idle() && !out.failed
      ensures codeLen == |Code(objs)| <= code.Length && code[..codeLen] == Code(objs)
      ensures Defs(labels) == Labels(objs)
      ensures |fixups| == |Fixes(objs)| && forall i :: 0 <= i < |fixups| ==> fixups[i].fix == Fixes(objs)[i]
      ensures fnSyms == FirstCap(Symbols(objs), LABEL_CAP) && entryOff == Entry(objs)
      ensures forall i :: 0 <= i < |fixups| ==> fixups[i].fix.site + 4 <= codeLen
    {
      assert AsLabels([], false) == [] && AsFixups([], false) == [];
      FixesOrdered(objs, W);
    }

    /** What the function being emitted will be once finished. */
    ghost function PendingObj(context: EmitContext): Obj<Byte>
      reads this, context, out
    {
      Obj(if context.fnNamed then Some(context.fnName) else None, out.prolStream, out.bodyStream, pendLabels, pendFixes)
    }

    lemma EndInput(context: EmitContext)
      requires Valid()
      ensures out.bodyLen <= out.body.Length && out.prolLen <= out.prol.Length
      ensures !out.failed ==>
        && codeLen <= code.Length
        && codeLen == |Code(objs)| && code[..codeLen] == Code(objs)
        && out.prol[..out.prolLen] == out.prolStream && out.body[..out.bodyLen] == out.bodyStream
        && |out.prolStream| == out.prolLen && |out.bodyStream| == out.bodyLen
        && labels == AsLabels(Labels(objs), true) + AsLabels(pendLabels, false)
        && fixups == AsFixups(Fixes(objs), true) + AsFixups(pendFixes, false)
        && fnSyms == FirstCap(Symbols(objs), LABEL_CAP) && entryOff == Entry(objs)
        && Placed(PendingObj(context))
        && (forall k :: 0 <= k < |objs| ==> Placed(objs[k]))
        && (forall i :: 0 <= i < |fixups| ==> fixups[i].fix.aux <= CSTR_CAP)
    {
    }

    lemma EndOutput(before: seq<Obj<Byte>>, o: Obj<Byte>, wasLabels: seq<Label>, wasFixups: seq<Fixup>, wasSyms: seq<LabelDef>)
      requires objs == before + [o] && pendLabels == [] && pendFixes == []
      requires codeLen <= CODE_CAP == code.Length
      requires code[..codeLen] == Code(before) + o.prol + o.body
      requires wasLabels == AsLabels(Labels(before), true) + AsLabels(o.labels, false) && |labels| == |wasLabels|
      requires forall j :: 0 <= j < |labels| ==> labels[j] == MovedLabel(wasLabels[j], BodyStart(before, o))
      requires wasFixups == AsFixups(Fixes(before), true) + AsFixups(o.fixes, false) && |fixups| == |wasFixups|
      requires forall j :: 0 <= j < |fixups| ==> fixups[j] == MovedFixup(wasFixups[j], BodyStart(before, o))
      requires forall j :: 0 <= j < |wasFixups| ==> wasFixups[j].fix.aux <= CSTR_CAP
      requires wasSyms == FirstCap(Symbols(before), LABEL_CAP)
      requires fnSyms == if o.name.Some? && |wasSyms| < LABEL_CAP
        then wasSyms + [LabelDef(Truncated(o.name.value), |Code(before)|)] else wasSyms
      requires entryOff == if o.name == Some("main") then |Code(before)| else Entry(before)
      requires Placed(o) && forall k :: 0 <= k < |before| ==> Placed(before[k])
      ensures InStep()
    {
      hide Code, Labels, Fixes, Symbols, Entry, FirstCap, Placed, Truncated, Standing;
      LabelsPlaced(before, o, wasLabels, labels);
      FixupsPlaced(before, o, wasFixups, fixups);
      SymbolsPlaced(before, o, wasSyms, fnSyms);
      CodeSnoc(before, o);
      assert AsLabels([], false) == [] && AsFixups([], false) == [];
    }
  }

  /** The fix-ups of a function with one more, after its instruction was emitted. */
  lemma AllStanding(fixes: seq<Fix>, body: seq<Byte>, before: seq<Byte>, f: Fix, i: X86Instr.Instr)
    requires forall j :: 0 <= j < |fixes| ==> Standing(fixes, j, body)
    requires IsForm(f.kind, i) && i.rel == 0 && body + LE(0, 4) == before + X86Instr.Encode(i) && f.site == |body|
    requires fixes != [] ==> fixes[|fixes| - 1].site + 4 <= |before|
    ensures forall j :: 0 <= j <= |fixes| ==> Standing(fixes + [f], j, body + LE(0, 4))
  {
    hide Standing, IsForm, X86Instr.Encode, LE;
    NowStanding(fixes, before, f, i);
    forall j | 0 <= j < |fixes| ensures Standing(fixes + [f], j, body + LE(0, 4)) {
      StandingGrows(fixes, j, body, fixes + [f], body + LE(0, 4));
    }
  }

  lemma LeaForm(sz: nat, r: X86Instr.RegNo)
    requires sz == 4 || sz == 8
    ensures IsForm(StringRef, X86Instr.LeaRip(sz, r, 0))
  {
  }

  lemma NothingLinked(code: seq<Byte>, labels: seq<LabelDef>, syms: seq<LabelDef>)
    ensures !Unlinkable([], labels, syms) && Imports([], syms) == [] && ExtCalls([], syms) == []
    ensures PatchAll(code, [], labels, syms) == code
  {
  }

  lemma JmpBytes()
    ensures X86Instr.Encode(X86Instr.Jmp(0)) == [0xe9] + LE(0, 4)
  {
  }

  lemma CallBytes()
    ensures X86Instr.Encode(X86Instr.Call(0)) == [0xe8] + LE(0, 4)
  {
  }

  lemma JccBytes(cc: int)
    requires 0 <= cc < 16
    ensures X86Instr.Encode(X86Instr.Jcc(cc, 0)) == [0x0f, 0x80 + cc] + LE(0, 4)
  {
  }
}
