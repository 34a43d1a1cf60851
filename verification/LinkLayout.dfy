// The reference linker: finished functions are laid out one after the other, and every
// label and fix-up moves with the body it belongs to.
module LinkLayout {
  import opened TypeSys
  import opened LinkKeys

  const LABEL_CAP: nat := 1024

  datatype FixKind = Jump | CondJump | CallTo | StringRef

  datatype LabelDef = LabelDef(key: string, at: nat)

  /** A field to patch at `site`; `aux` is the offset of a string in the string area. */
  datatype Fix = Fix(kind: FixKind, key: string, site: nat, aux: nat)

  /** A finished function; labels and fix-ups are relative to its body. */
  datatype Obj<T> = Obj(name: Option<string>, prol: seq<T>, body: seq<T>, labels: seq<LabelDef>, fixes: seq<Fix>)

  function Code<T>(objs: seq<Obj<T>>): seq<T> {
    if objs == [] then []
    else Code(objs[..|objs| - 1]) + objs[|objs| - 1].prol + objs[|objs| - 1].body
  }

  function ShiftLabels(ls: seq<LabelDef>, delta: nat): (r: seq<LabelDef>)
    ensures |r| == |ls| && forall i :: 0 <= i < |ls| ==> r[i] == LabelDef(ls[i].key, ls[i].at + delta)
  {
    seq(|ls|, i requires 0 <= i < |ls| => LabelDef(ls[i].key, ls[i].at + delta))
  }

  function ShiftFixes(fs: seq<Fix>, delta: nat): (r: seq<Fix>)
    ensures |r| == |fs| && forall i :: 0 <= i < |fs| ==> r[i] == fs[i].(site := fs[i].site + delta)
  {
    seq(|fs|, i requires 0 <= i < |fs| => fs[i].(site := fs[i].site + delta))
  }

  /** Where the body of the function that follows `objs` starts. */
  function BodyStart<T>(objs: seq<Obj<T>>, o: Obj<T>): nat { |Code(objs)| + |o.prol| }

  function Labels<T>(objs: seq<Obj<T>>): seq<LabelDef> {
    if objs == [] then []
    else
      var front, o := objs[..|objs| - 1], objs[|objs| - 1];
      Labels(front) + ShiftLabels(o.labels, BodyStart(front, o))
  }

  function Fixes<T>(objs: seq<Obj<T>>): seq<Fix> {
    if objs == [] then []
    else
      var front, o := objs[..|objs| - 1], objs[|objs| - 1];
      Fixes(front) + ShiftFixes(o.fixes, BodyStart(front, o))
  }

  /** Named functions with their start offsets, in layout order. */
  function Symbols<T>(objs: seq<Obj<T>>): seq<LabelDef> {
    if objs == [] then []
    else
      var front, o := objs[..|objs| - 1], objs[|objs| - 1];
      Symbols(front) + if o.name.Some? then [LabelDef(Truncated(o.name.value), |Code(front)|)] else []
  }

  /** The start of the last function called "main", and 0 when there is none. */
  function Entry<T>(objs: seq<Obj<T>>): nat {
    if objs == [] then 0
    else
      var front, o := objs[..|objs| - 1], objs[|objs| - 1];
      if o.name == Some("main") then |Code(front)| else Entry(front)
  }

  /** Fields of width w lie in the body, in order and without overlap. */
  predicate Ordered(fs: seq<Fix>, w: nat, limit: nat) {
    && (forall i :: 0 <= i < |fs| ==> fs[i].site + w <= limit)
    && (forall i, j :: 0 <= i < j < |fs| ==> fs[i].site + w <= fs[j].site)
  }

  predicate WellPlaced<T>(o: Obj<T>, w: nat) {
    && Ordered(o.fixes, w, |o.body|)
    && forall i :: 0 <= i < |o.labels| ==> o.labels[i].at <= |o.body|
  }

  lemma OrderedAppend(a: seq<Fix>, b: seq<Fix>, w: nat, mid: nat, limit: nat)
    requires Ordered(a, w, mid) && Ordered(b, w, limit) && mid <= limit
    requires forall i :: 0 <= i < |b| ==> mid <= b[i].site
    ensures Ordered(a + b, w, limit)
  {
    forall i, j | 0 <= i < j < |a + b| ensures (a + b)[i].site + w <= (a + b)[j].site {
      if j >= |a| {
        assert (a + b)[j] == b[j - |a|];
        assert i >= |a| ==> (a + b)[i] == b[i - |a|];
      }
    }
  }

  lemma {:induction false} FixesOrdered<T>(objs: seq<Obj<T>>, w: nat)
    requires forall k :: 0 <= k < |objs| ==> WellPlaced(objs[k], w)
    ensures Ordered(Fixes(objs), w, |Code(objs)|)
  {
    if objs != [] {
      var front, o := objs[..|objs| - 1], objs[|objs| - 1];
      FixesOrdered(front, w);
      OrderedAppend(Fixes(front), ShiftFixes(o.fixes, BodyStart(front, o)), w, |Code(front)|, |Code(objs)|);
    }
  }

  lemma CodeSnoc<T>(objs: seq<Obj<T>>, o: Obj<T>)
    ensures Code(objs + [o]) == Code(objs) + o.prol + o.body
    ensures Labels(objs + [o]) == Labels(objs) + ShiftLabels(o.labels, BodyStart(objs, o))
    ensures Fixes(objs + [o]) == Fixes(objs) + ShiftFixes(o.fixes, BodyStart(objs, o))
    ensures Symbols(objs + [o]) == Symbols(objs) + (if o.name.Some? then [LabelDef(Truncated(o.name.value), |Code(objs)|)] else [])
    ensures Entry(objs + [o]) == if o.name == Some("main") then |Code(objs)| else Entry(objs)
  {
    assert (objs + [o])[..|objs|] == objs;
  }

  /** The body of function k is found, whole, right after its prologue. */
  lemma {:induction false} BodyPlacement<T>(objs: seq<Obj<T>>, k: nat)
    requires k < |objs|
    ensures var s := BodyStart(objs[..k], objs[k]);
      && s + |objs[k].body| <= |Code(objs)|
      && Code(objs)[s..s + |objs[k].body|] == objs[k].body
      && Code(objs)[s - |objs[k].prol|..s] == objs[k].prol
    decreases |objs|
  {
    var front, o := objs[..|objs| - 1], objs[|objs| - 1];
    if k < |front| {
      BodyPlacement(front, k);
      assert front[..k] == objs[..k] && front[k] == objs[k];
      var s := BodyStart(objs[..k], objs[k]);
      assert Code(objs)[..|Code(front)|] == Code(front);
      assert Code(objs)[s..s + |objs[k].body|] == Code(front)[s..s + |objs[k].body|];
      assert Code(objs)[s - |objs[k].prol|..s] == Code(front)[s - |objs[k].prol|..s];
    } else {
      assert objs[..k] == front;
    }
  }

  /** Label j of function k ends up at its own place in that function's body. */
  lemma {:induction false} LabelPlacement<T>(objs: seq<Obj<T>>, k: nat, j: nat)
    requires k < |objs| && j < |objs[k].labels|
    ensures var l := objs[k].labels[j];
      LabelDef(l.key, BodyStart(objs[..k], objs[k]) + l.at) in Labels(objs)
    decreases |objs|
  {
    var front, o := objs[..|objs| - 1], objs[|objs| - 1];
    if k < |front| {
      LabelPlacement(front, k, j);
      assert front[..k] == objs[..k] && front[k] == objs[k];
    } else {
      assert objs[..k] == front;
      assert ShiftLabels(o.labels, BodyStart(front, o))[j] in Labels(objs);
    }
  }

  /** Fix-up j of function k ends up at its own place in that function's body. */
  lemma {:induction false} FixPlacement<T>(objs: seq<Obj<T>>, k: nat, j: nat) returns (i: nat)
    requires k < |objs| && j < |objs[k].fixes|
    ensures var fx := objs[k].fixes[j];
      i < |Fixes(objs)| && Fixes(objs)[i] == fx.(site := BodyStart(objs[..k], objs[k]) + fx.site)
    decreases |objs|
  {
    var front, o := objs[..|objs| - 1], objs[|objs| - 1];
    if k < |front| {
      i := FixPlacement(front, k, j);
      assert front[..k] == objs[..k] && front[k] == objs[k];
    } else {
      assert objs[..k] == front;
      i := |Fixes(front)| + j;
    }
  }

  /** A named function's symbol is where its prologue starts. */
  lemma {:induction false} SymbolPlacement<T>(objs: seq<Obj<T>>, k: nat)
    requires k < |objs| && objs[k].name.Some?
    ensures LabelDef(Truncated(objs[k].name.value), |Code(objs[..k])|) in Symbols(objs)
    decreases |objs|
  {
    var front := objs[..|objs| - 1];
    if k < |front| {
      SymbolPlacement(front, k);
      assert front[..k] == objs[..k] && front[k] == objs[k];
    } else {
      assert objs[..k] == front;
      var last := LabelDef(Truncated(objs[k].name.value), |Code(front)|);
      assert Symbols(objs)[|Symbols(front)|] == last;
    }
  }

  predicate Within(tab: seq<LabelDef>, limit: nat) { forall i :: 0 <= i < |tab| ==> tab[i].at <= limit }

  lemma {:induction false} TargetsInCode<T>(objs: seq<Obj<T>>, w: nat)
    requires forall k :: 0 <= k < |objs| ==> WellPlaced(objs[k], w)
    ensures Within(Labels(objs), |Code(objs)|) && Within(Symbols(objs), |Code(objs)|)
  {
    if objs != [] {
      TargetsInCode(objs[..|objs| - 1], w);
    }
  }

  /** With one function of that name, the entry is where it starts. */
  lemma {:induction false} EntryIsMain<T>(objs: seq<Obj<T>>, k: nat)
    requires k < |objs| && objs[k].name == Some("main")
    requires forall j :: k < j < |objs| ==> objs[j].name != Some("main")
    ensures Entry(objs) == |Code(objs[..k])|
    decreases |objs|
  {
    var front := objs[..|objs| - 1];
    if k < |front| {
      EntryIsMain(front, k);
      assert front[..k] == objs[..k] && front[k] == objs[k];
    } else {
      assert objs[..k] == front;
    }
  }

  /** Without a function of that name the entry is the start of the text. */
  lemma {:induction false} EntryWithoutMain<T>(objs: seq<Obj<T>>)
    requires forall j :: 0 <= j < |objs| ==> objs[j].name != Some("main")
    ensures Entry(objs) == 0
  {
    if objs != [] {
      EntryWithoutMain(objs[..|objs| - 1]);
    }
  }

  /** No field lies in a prologue. */
  lemma {:induction false} PrologueApart<T>(objs: seq<Obj<T>>, w: nat, k: nat, i: nat)
    requires forall m :: 0 <= m < |objs| ==> WellPlaced(objs[m], w)
    requires k < |objs| && i < |Fixes(objs)|
    ensures Fixes(objs)[i].site + w <= |Code(objs[..k])| || BodyStart(objs[..k], objs[k]) <= Fixes(objs)[i].site
    decreases |objs|
  {
    var front, o := objs[..|objs| - 1], objs[|objs| - 1];
    FixesOrdered(front, w);
    if k == |front| {
      assert objs[..k] == front;
    } else {
      assert front[..k] == objs[..k] && front[k] == objs[k];
      BodyPlacement(front, k);
      if i < |Fixes(front)| {
        PrologueApart(front, w, k, i);
      }
    }
  }

  /** A part of a body that no field of its function touches is touched by no field at all. */
  lemma {:induction false} PartApart<T>(objs: seq<Obj<T>>, w: nat, k: nat, lo: nat, hi: nat, i: nat)
    requires forall m :: 0 <= m < |objs| ==> WellPlaced(objs[m], w)
    requires k < |objs| && lo <= hi <= |objs[k].body| && i < |Fixes(objs)|
    requires forall j :: 0 <= j < |objs[k].fixes| ==> objs[k].fixes[j].site + w <= lo || hi <= objs[k].fixes[j].site
    ensures var start := BodyStart(objs[..k], objs[k]);
      Fixes(objs)[i].site + w <= start + lo || start + hi <= Fixes(objs)[i].site
    decreases |objs|
  {
    var front, o := objs[..|objs| - 1], objs[|objs| - 1];
    FixesOrdered(front, w);
    if k == |front| {
      assert objs[..k] == front;
    } else {
      assert front[..k] == objs[..k] && front[k] == objs[k];
      BodyPlacement(front, k);
      if i < |Fixes(front)| {
        PartApart(front, w, k, lo, hi, i);
      }
    }
  }

  // ---- Table lookup ----

  /** The table holds LABEL_CAP entries; later ones are dropped. */
  function FirstCap<T>(s: seq<T>, cap: nat): seq<T> { if |s| <= cap then s else s[..cap] }

  predicate DistinctKeys(tab: seq<LabelDef>) { forall i, j :: 0 <= i < j < |tab| ==> tab[i].key != tab[j].key }

  lemma FindUnique(tab: seq<LabelDef>, l: LabelDef)
    requires DistinctKeys(tab) && l in tab
    ensures Find(tab, l.key) == Some(l.at)
  {
    FindIsFirst(tab, l.key);
  }

  /** The first entry with the key. */
  function Find(tab: seq<LabelDef>, key: string): Option<nat> {
    if tab == [] then None
    else if tab[0].key == key then Some(tab[0].at)
    else Find(tab[1..], key)
  }

  /** Where a lookup stops: the entry found is the first with its key. */
  lemma {:induction false} FindIsFirst(tab: seq<LabelDef>, key: string)
    ensures Find(tab, key).Some? <==> exists i :: 0 <= i < |tab| && tab[i].key == key
    ensures Find(tab, key).Some? ==>
      exists i :: 0 <= i < |tab| && tab[i] == LabelDef(key, Find(tab, key).value)
        && forall j :: 0 <= j < i ==> tab[j].key != key
  {
    if tab != [] {
      FindIsFirst(tab[1..], key);
      if tab[0].key == key {
        assert tab[0] == LabelDef(key, tab[0].at);
      } else {
        if Find(tab[1..], key).Some? {
          var i :| 0 <= i < |tab[1..]| && tab[1..][i] == LabelDef(key, Find(tab, key).value)
            && forall j :: 0 <= j < i ==> tab[1..][j].key != key;
          assert tab[i + 1] == LabelDef(key, Find(tab, key).value);
          assert forall j :: 0 < j < i + 1 ==> tab[j] == tab[1..][j - 1];
        } else {
          assert forall j :: 0 < j < |tab| ==> tab[j] == tab[1..][j - 1];
        }
      }
    }
  }

  method FindAt(tab: seq<LabelDef>, key: string) returns (r: Option<nat>)
    ensures r == Find(tab, key)
  {
    assert tab[0..] == tab;
    for j := 0 to |tab|
      invariant Find(tab, key) == Find(tab[j..], key)
    {
      if tab[j].key == key {
        return Some(tab[j].at);
      }
      assert tab[j..][1..] == tab[j + 1..];
    }
    return None;
  }

  // ---- Calls that leave the program ----

  datatype ExtCall = ExtCall(site: nat, import_: nat)

  datatype Image<T> = Image(text: seq<T>, entry: nat, imports: seq<string>, extcalls: seq<ExtCall>)

  const IMPORT_CAP: nat := 64

  predicate External(fx: Fix, syms: seq<LabelDef>) { fx.kind == CallTo && Find(syms, fx.key).None? }

  function IndexOf(names: seq<string>, key: string): (i: nat)
    ensures i <= |names|
    ensures i < |names| ==> names[i] == key
    ensures i == |names| ==> key !in names
  {
    if names == [] || names[0] == key then 0 else 1 + IndexOf(names[1..], key)
  }

  function AddName(names: seq<string>, key: string): seq<string> {
    if IndexOf(names, key) == |names| then names + [key] else names
  }

  /** The names that external calls need, each once, in order of first use. */
  function Imports(fixes: seq<Fix>, syms: seq<LabelDef>): seq<string> {
    if fixes == [] then []
    else
      var names, fx := Imports(fixes[..|fixes| - 1], syms), fixes[|fixes| - 1];
      if External(fx, syms) then AddName(names, fx.key) else names
  }

  function ExtCalls(fixes: seq<Fix>, syms: seq<LabelDef>): seq<ExtCall> {
    if fixes == [] then []
    else
      var front, fx := fixes[..|fixes| - 1], fixes[|fixes| - 1];
      ExtCalls(front, syms)
      + if External(fx, syms) then [ExtCall(fx.site, IndexOf(Imports(front, syms), fx.key))] else []
  }

  predicate Distinct(names: seq<string>) { forall i, j :: 0 <= i < j < |names| ==> names[i] != names[j] }

  /** e is the record of the external call fx. */
  predicate Records(e: ExtCall, fx: Fix, names: seq<string>) {
    e.site == fx.site && e.import_ < |names| && names[e.import_] == fx.key
  }

  predicate Recorded(fx: Fix, calls: seq<ExtCall>, names: seq<string>) {
    exists k :: 0 <= k < |calls| && Records(calls[k], fx, names)
  }

  predicate Wanted(e: ExtCall, fixes: seq<Fix>, syms: seq<LabelDef>, names: seq<string>) {
    exists i :: 0 <= i < |fixes| && External(fixes[i], syms) && Records(e, fixes[i], names)
  }

  lemma ImportsGrow(fixes: seq<Fix>, syms: seq<LabelDef>)
    requires fixes != []
    ensures Imports(fixes[..|fixes| - 1], syms) <= Imports(fixes, syms)
    ensures ExtCalls(fixes[..|fixes| - 1], syms) <= ExtCalls(fixes, syms)
  {
  }

  lemma LastRecorded(fixes: seq<Fix>, syms: seq<LabelDef>)
    requires fixes != [] && External(fixes[|fixes| - 1], syms)
    ensures |ExtCalls(fixes, syms)| > 0
    ensures Records(ExtCalls(fixes, syms)[|ExtCalls(fixes, syms)| - 1], fixes[|fixes| - 1], Imports(fixes, syms))
  {
  }

  /** Imports are distinct. */
  lemma {:induction false} ImportsDistinct(fixes: seq<Fix>, syms: seq<LabelDef>)
    ensures Distinct(Imports(fixes, syms))
  {
    if fixes != [] {
      ImportsDistinct(fixes[..|fixes| - 1], syms);
    }
  }

  /** Every external call is listed with the import of its name. */
  lemma {:induction false} ExternalRecorded(fixes: seq<Fix>, syms: seq<LabelDef>, i: nat)
    requires i < |fixes| && External(fixes[i], syms)
    ensures Recorded(fixes[i], ExtCalls(fixes, syms), Imports(fixes, syms))
  {
    ImportsGrow(fixes, syms);
    var front := fixes[..|fixes| - 1];
    if i < |front| {
      ExternalRecorded(front, syms, i);
      var k :| 0 <= k < |ExtCalls(front, syms)| && Records(ExtCalls(front, syms)[k], fixes[i], Imports(front, syms));
      assert Records(ExtCalls(fixes, syms)[k], fixes[i], Imports(fixes, syms));
    } else {
      LastRecorded(fixes, syms);
    }
  }

  /** Nothing else is listed. */
  lemma {:induction false} OnlyExternalsListed(fixes: seq<Fix>, syms: seq<LabelDef>, k: nat)
    requires k < |ExtCalls(fixes, syms)|
    ensures Wanted(ExtCalls(fixes, syms)[k], fixes, syms, Imports(fixes, syms))
  {
    ImportsGrow(fixes, syms);
    var front := fixes[..|fixes| - 1];
    if k < |ExtCalls(front, syms)| {
      OnlyExternalsListed(front, syms, k);
      var e := ExtCalls(fixes, syms)[k];
      var i :| 0 <= i < |front| && External(front[i], syms) && Records(e, front[i], Imports(front, syms));
      assert fixes[i] == front[i] && Records(e, fixes[i], Imports(fixes, syms));
    } else {
      LastRecorded(fixes, syms);
    }
  }

  predicate CallsApart(calls: seq<ExtCall>, w: nat, limit: nat) {
    && (forall k :: 0 <= k < |calls| ==> calls[k].site + w <= limit)
    && (forall i, j :: 0 <= i < j < |calls| ==> calls[i].site + w <= calls[j].site)
  }

  /** The listed call fields are in order, apart, and below the limit of the fix-ups. */
  lemma {:induction false} CallsInOrder(fixes: seq<Fix>, syms: seq<LabelDef>, w: nat, limit: nat)
    requires Ordered(fixes, w, limit)
    ensures CallsApart(ExtCalls(fixes, syms), w, limit)
  {
    if fixes != [] {
      var (front, last) := (fixes[..|fixes| - 1], fixes[|fixes| - 1]);
      assert forall i :: 0 <= i < |front| ==> front[i] == fixes[i];
      CallsInOrder(front, syms, w, last.site);
      assert last.site + w <= limit;
      assert ExtCalls(fixes, syms) == ExtCalls(front, syms)
        || (|ExtCalls(fixes, syms)| == |ExtCalls(front, syms)| + 1 && ExtCalls(fixes, syms)[|ExtCalls(front, syms)|].site == last.site);
    }
  }

  predicate Unresolved(fx: Fix, labels: seq<LabelDef>) {
    (fx.kind == Jump || fx.kind == CondJump) && Find(labels, fx.key).None?
  }

  /** An unknown label, or more names than the import table holds. */
  predicate Unlinkable(fixes: seq<Fix>, labels: seq<LabelDef>, syms: seq<LabelDef>) {
    || (exists i :: 0 <= i < |fixes| && Unresolved(fixes[i], labels))
    || |Imports(fixes, syms)| > IMPORT_CAP
  }

  /** How one more fix-up changes what is known about the prefix before it. */
  lemma UnlinkableStep(fixes: seq<Fix>, labels: seq<LabelDef>, syms: seq<LabelDef>, i: nat)
    requires i < |fixes|
    ensures Unlinkable(fixes[..i + 1], labels, syms) <==>
      || Unlinkable(fixes[..i], labels, syms)
      || Unresolved(fixes[i], labels)
      || (External(fixes[i], syms) && |AddName(Imports(fixes[..i], syms), fixes[i].key)| > IMPORT_CAP)
  {
    var now, was := fixes[..i + 1], fixes[..i];
    assert now[..|now| - 1] == was;
    assert now == was + [fixes[i]];
    if Unresolved(fixes[i], labels) {
      assert Unresolved(now[i], labels);
    }
    if k :| 0 <= k < |was| && Unresolved(was[k], labels) {
      assert Unresolved(now[k], labels);
    }
  }

  lemma LinksStep(fixes: seq<Fix>, syms: seq<LabelDef>, i: nat)
    requires i < |fixes|
    ensures var (was, fx) := (fixes[..i], fixes[i]);
      && Imports(fixes[..i + 1], syms) ==
           (if External(fx, syms) then AddName(Imports(was, syms), fx.key) else Imports(was, syms))
      && ExtCalls(fixes[..i + 1], syms) == ExtCalls(was, syms)
           + if External(fx, syms) then [ExtCall(fx.site, IndexOf(Imports(was, syms), fx.key))] else []
  {
    assert fixes[..i + 1][..i] == fixes[..i];
  }
}
