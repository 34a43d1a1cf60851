// Derived types: a base type under a list of declarators, outermost first.
module TypeSys {
  const DECLARATOR_MAX := 8

  datatype Option<+T> = None | Some(value: T)

  datatype Kind = DkAddr | DkArray | DkCheck | DkSlice

  datatype Declarator = Declarator(tag: Kind, amount: int)

  /** A base type; `id` stands for the identity of the type object. */
  datatype BaseType = BaseType(id: nat, size: nat, signed: bool)

  datatype DType = DType(base: Option<BaseType>, decl: seq<Declarator>)

  /** The declarator that an empty list answers with (tag 0 is "addr", amount 0). */
  const NoDeclarator := Declarator(DkAddr, 0)

  function Outer(d: DType): Declarator { if d.decl == [] then NoDeclarator else d.decl[0] }

  function WrapSpec(d: DType, x: Declarator): DType {
    if |d.decl| >= DECLARATOR_MAX then d else d.(decl := [x] + d.decl)
  }

  function AppendSpec(d: DType, x: Declarator): DType {
    if |d.decl| >= DECLARATOR_MAX then d else d.(decl := d.decl + [x])
  }

  function UnwrapSpec(d: DType): DType {
    if d.decl == [] then d else d.(decl := d.decl[1..])
  }

  /** Whether the value is an address, looking under one check; 0 when it is not. */
  function TryGetAddr(d: DType): int {
    var i := if d.decl != [] && d.decl[0].tag == DkCheck then 1 else 0;
    if i >= |d.decl| || d.decl[i].tag != DkAddr then 0 else d.decl[i].amount
  }

  /** A derived type held in a fixed table of declarators that is shifted in place. */
  class DTypeCell {
    const decl: array<Declarator>
    var declLen: nat
    var base: Option<BaseType>

    ghost predicate Valid()
      reads this
    {
      decl.Length == DECLARATOR_MAX && declLen <= DECLARATOR_MAX
    }

    ghost function Value(): DType
      requires Valid()
      reads this, decl
    {
      DType(base, decl[..declLen])
    }

    constructor (base: Option<BaseType>)
      ensures Valid() && fresh(decl) && Value() == DType(base, [])
    {
      decl := new Declarator[DECLARATOR_MAX](_ => NoDeclarator);
      declLen := 0;
      this.base := base;
    }

    method Append(x: Declarator)
      requires Valid()
      modifies this`declLen, decl
      ensures Valid() && Value() == AppendSpec(old(Value()), x)
    {
      if declLen < DECLARATOR_MAX {
        decl[declLen] := x;
        declLen := declLen + 1;
      }
    }

    method Wrap(x: Declarator)
      requires Valid()
      modifies this`declLen, decl
      ensures Valid() && Value() == WrapSpec(old(Value()), x)
    {
      if declLen >= DECLARATOR_MAX {
        return;
      }
      var i := declLen;
      while i > 0
        invariant 0 <= i <= declLen == old(declLen)
        invariant forall k :: 0 <= k < i ==> decl[k] == old(decl[k])
        invariant forall k :: i < k <= declLen ==> decl[k] == old(decl[k - 1])
      {
        decl[i] := decl[i - 1];
        i := i - 1;
      }
      decl[0] := x;
      declLen := declLen + 1;
    }

    method Unwrap() returns (outer: Declarator)
      requires Valid()
      modifies this`declLen, decl
      ensures Valid() && outer == Outer(old(Value())) && Value() == UnwrapSpec(old(Value()))
    {
      if declLen == 0 {
        return NoDeclarator;
      }
      outer := decl[0];
      declLen := declLen - 1;
      for i := 0 to declLen
        invariant declLen == old(declLen) - 1
        invariant forall k :: 0 <= k < i ==> decl[k] == old(decl[k + 1])
        invariant forall k :: i <= k < DECLARATOR_MAX ==> decl[k] == old(decl[k])
      {
        decl[i] := decl[i + 1];
      }
    }
  }

  /** Unwrapping undoes wrapping exactly below the declarator limit. */
  lemma UnwrapUndoesWrap(d: DType, x: Declarator)
    requires |d.decl| <= DECLARATOR_MAX
    ensures (UnwrapSpec(WrapSpec(d, x)) == d && Outer(WrapSpec(d, x)) == x
             && WrapSpec(UnwrapSpec(WrapSpec(d, x)), Outer(WrapSpec(d, x))) == WrapSpec(d, x))
        <==> (|d.decl| < DECLARATOR_MAX)
  {
    if |d.decl| >= DECLARATOR_MAX {
      assert WrapSpec(d, x) == d;
      assert |UnwrapSpec(d).decl| == |d.decl| - 1;
    } else {
      assert ([x] + d.decl)[1..] == d.decl;
    }
  }

  // ---- Equality and the check relation ----

  /** Declarators agree; the amount of a slice is only a hint. */
  predicate SameDecl(a: Declarator, b: Declarator) {
    a.tag == b.tag && (a.tag == DkSlice || a.amount == b.amount)
  }

  predicate EqSpec(a: DType, b: DType) {
    |a.decl| == |b.decl| && a.base == b.base
    && forall k :: 0 <= k < |a.decl| ==> SameDecl(a.decl[k], b.decl[k])
  }

  method Eq(lhs: DType, rhs: DType) returns (eq: bool)
    ensures eq <==> EqSpec(lhs, rhs)
  {
    if |lhs.decl| != |rhs.decl| {
      return false;
    }
    for i := 0 to |lhs.decl|
      invariant forall k :: 0 <= k < i ==> SameDecl(lhs.decl[k], rhs.decl[k])
    {
      if lhs.decl[i].tag != rhs.decl[i].tag {
        return false;
      }
      if lhs.decl[i].tag != DkSlice && lhs.decl[i].amount != rhs.decl[i].amount {
        return false;
      }
    }
    return lhs.base == rhs.base;
  }

  /** The longest run of checks at the front. */
  function CheckRun(d: seq<Declarator>): (run: seq<Declarator>)
    ensures run <= d
    ensures |run| < |d| ==> d[|run|].tag != DkCheck
    ensures forall x :: x in run ==> x.tag == DkCheck
  {
    if d == [] || d[0].tag != DkCheck then [] else [d[0]] + CheckRun(d[1..])
  }

  /** What a checked conversion means: every run of checks in `from` is a prefix of the
      matching run in `to`, and everything between the runs agrees. */
  predicate Guards(from: seq<Declarator>, to: seq<Declarator>)
    decreases |from|
  {
    var f, t := from[|CheckRun(from)|..], to[|CheckRun(to)|..];
    && CheckRun(from) <= CheckRun(to)
    && (if f == [] || t == [] then f == t == [] else SameDecl(f[0], t[0]) && Guards(f[1..], t[1..]))
  }

  predicate CheckSpec(from: DType, to: DType) {
    from.base == to.base && Guards(from.decl, to.decl)
  }

  lemma CheckRunStep(d: seq<Declarator>)
    requires d != []
    ensures d[0].tag == DkCheck ==> CheckRun(d) == [d[0]] + CheckRun(d[1..])
    ensures d[0].tag == DkCheck ==> d[|CheckRun(d)|..] == d[1..][|CheckRun(d[1..])|..]
    ensures d[0].tag != DkCheck ==> CheckRun(d) == []
  {
  }

  /** One turn of the comparison loop: a check that only `to` has is skipped. */
  lemma GuardsSkip(from: seq<Declarator>, to: seq<Declarator>)
    requires to != [] && to[0].tag == DkCheck && (from == [] || from[0].tag != DkCheck)
    ensures Guards(from, to) <==> Guards(from, to[1..])
  {
    CheckRunStep(to);
    assert CheckRun(from) == [];
  }

  /** One turn of the comparison loop: both heads are compared. */
  lemma GuardsStep(from: seq<Declarator>, to: seq<Declarator>)
    requires from != [] && to != [] && (from[0].tag == DkCheck || to[0].tag != DkCheck)
    ensures Guards(from, to) <==> SameDecl(from[0], to[0]) && Guards(from[1..], to[1..])
  {
    CheckRunStep(from);
    CheckRunStep(to);
    if from[0].tag == DkCheck && to[0].tag == DkCheck {
      var cf, ct := CheckRun(from[1..]), CheckRun(to[1..]);
      assert [from[0]] + cf <= [to[0]] + ct <==> from[0] == to[0] && cf <= ct by {
        assert ([from[0]] + cf)[1..] == cf && ([to[0]] + ct)[1..] == ct;
      }
      assert from[0] == to[0] <==> SameDecl(from[0], to[0]);
    } else if from[0].tag == DkCheck {
      assert CheckRun(from) != [] && CheckRun(to) == [];
    } else {
      assert from[|CheckRun(from)|..] == from && to[|CheckRun(to)|..] == to;
    }
  }

  method Check(from: DType, to: DType) returns (ok: bool)
    ensures ok <==> CheckSpec(from, to)
  {
    hide Guards, CheckRun;
    var i, j := 0, 0;
    ghost var f, t := from.decl, to.decl;   // what is left to compare
    while i < |from.decl| && j < |to.decl|
      invariant i <= |from.decl| && j <= |to.decl|
      invariant f == from.decl[i..] && t == to.decl[j..]
      invariant Guards(from.decl, to.decl) <==> Guards(f, t)
      decreases |to.decl| - j
    {
      if to.decl[j].tag == DkCheck && from.decl[i].tag != DkCheck {
        GuardsSkip(f, t);
        j, t := j + 1, t[1..];
        continue;
      }
      GuardsStep(f, t);
      if from.decl[i].tag != to.decl[j].tag {
        return false;
      }
      if from.decl[i].tag != DkSlice && from.decl[i].amount != to.decl[j].amount {
        return false;
      }
      i, j, f, t := i + 1, j + 1, f[1..], t[1..];
    }
    while j < |to.decl| && to.decl[j].tag == DkCheck
      invariant j <= |to.decl| && i <= |from.decl|
      invariant i < |from.decl| ==> j == |to.decl|
      invariant f == from.decl[i..] && t == to.decl[j..]
      invariant Guards(from.decl, to.decl) <==> Guards(f, t)
    {
      GuardsSkip(f, t);
      j, t := j + 1, t[1..];
    }
    if i != |from.decl| || j != |to.decl| {
      EndsDiffer(f, t);
      return false;
    }
    NothingLeft();
    return from.base == to.base;
  }

  lemma NothingLeft()
    ensures Guards([], [])
  {
  }

  lemma EndsDiffer(from: seq<Declarator>, to: seq<Declarator>)
    requires (from == []) != (to == [])
    requires to != [] ==> to[0].tag != DkCheck
    ensures !Guards(from, to)
  {
    if to != [] {
      CheckRunStep(to);
    } else {
      CheckRunStep(from);
    }
  }

  lemma {:induction false} GuardsReflexive(d: seq<Declarator>)
    ensures Guards(d, d)
    decreases |d|
  {
    var f := d[|CheckRun(d)|..];
    if f != [] {
      GuardsReflexive(f[1..]);
    }
  }

  lemma {:induction false} GuardsTransitive(a: seq<Declarator>, b: seq<Declarator>, c: seq<Declarator>)
    requires Guards(a, b) && Guards(b, c)
    ensures Guards(a, c)
    decreases |a|
  {
    var f, t, u := a[|CheckRun(a)|..], b[|CheckRun(b)|..], c[|CheckRun(c)|..];
    if f != [] {
      GuardsTransitive(f[1..], t[1..], u[1..]);
    }
  }

  lemma {:induction false} GuardsAntisymmetric(a: seq<Declarator>, b: seq<Declarator>)
    requires Guards(a, b) && Guards(b, a)
    ensures |a| == |b| && forall k :: 0 <= k < |a| ==> SameDecl(a[k], b[k])
    decreases |a|
  {
    var n := |CheckRun(a)|;
    assert CheckRun(a) == CheckRun(b);
    var f, t := a[n..], b[n..];
    if f != [] {
      GuardsAntisymmetric(f[1..], t[1..]);
      forall k | 0 <= k < |a| ensures SameDecl(a[k], b[k]) {
        if k < n {
          assert a[k] == CheckRun(a)[k] == b[k];
        } else if k > n {
          assert a[k] == f[1..][k - n - 1] && b[k] == t[1..][k - n - 1];
        }
      }
    } else {
      assert a == CheckRun(a) == b;
    }
  }

  lemma {:induction false} EqualGuards(a: seq<Declarator>, b: seq<Declarator>)
    requires |a| == |b| && forall k :: 0 <= k < |a| ==> SameDecl(a[k], b[k])
    ensures Guards(a, b)
    decreases |a|
  {
    if a != [] {
      EqualGuards(a[1..], b[1..]);
      GuardsStep(a, b);
    }
  }

  /** The conversions a check allows form a partial order, with `Eq` as its equality. */
  lemma CheckIsPartialOrder(a: DType, b: DType, c: DType)
    ensures CheckSpec(a, a)
    ensures CheckSpec(a, b) && CheckSpec(b, c) ==> CheckSpec(a, c)
    ensures CheckSpec(a, b) && CheckSpec(b, a) <==> EqSpec(a, b)
  {
    GuardsReflexive(a.decl);
    if CheckSpec(a, b) && CheckSpec(b, c) {
      GuardsTransitive(a.decl, b.decl, c.decl);
    }
    if CheckSpec(a, b) && CheckSpec(b, a) {
      GuardsAntisymmetric(a.decl, b.decl);
    }
    if EqSpec(a, b) {
      EqualGuards(a.decl, b.decl);
      EqualGuards(b.decl, a.decl);
    }
  }

  // ---- Sizes ----

  predicate HasSlice(d: DType) { exists k :: 0 <= k < |d.decl| && d.decl[k].tag == DkSlice }

  /** Registers a value of the type occupies: a slice is an address and a length. */
  method RegCount(d: DType) returns (n: nat)
    ensures n == if HasSlice(d) then 2 else 1
  {
    for i := 0 to |d.decl|
      invariant forall k :: 0 <= k < i ==> d.decl[k].tag != DkSlice
    {
      if d.decl[i].tag == DkSlice {
        return 2;
      }
    }
    return 1;
  }

  /** Size in bytes; undefined without a base type or with a non-positive array length. */
  function Size(d: DType): int
    requires d.base.Some?
    decreases |d.decl|
  {
    if d.decl == [] then d.base.value.size
    else match d.decl[0].tag
      case DkAddr => 8
      case DkArray => d.base.value.size * d.decl[0].amount
      case DkCheck => Size(UnwrapSpec(d))
      case DkSlice => 16
  }

  /** What a value occupies: a slice is two words, its address and its count, as many as RegCount
      gives it registers; an address is one; an array is that many times the base type; a check
      adds nothing to what it checks. */
  lemma SizeCovers(d: DType, n: int)
    requires d.base.Some? && |d.decl| < DECLARATOR_MAX
    ensures Size(WrapSpec(d, Declarator(DkSlice, n))) == 8 * 2 && HasSlice(WrapSpec(d, Declarator(DkSlice, n)))
    ensures Size(WrapSpec(d, Declarator(DkAddr, n))) == 8
    ensures Size(WrapSpec(d, Declarator(DkArray, n))) == n * Size(DType(d.base, []))
    ensures Size(WrapSpec(d, Declarator(DkCheck, n))) == Size(d)
    ensures d.decl == [] ==> Size(d) == d.base.value.size
  {
    assert WrapSpec(d, Declarator(DkSlice, n)).decl[0].tag == DkSlice;
    assert UnwrapSpec(WrapSpec(d, Declarator(DkCheck, n))) == d;
    assert WrapSpec(d, Declarator(DkArray, n)).decl[0].amount == n;
  }

  /** A type counts as an address when its outermost declarator is one, or the declarator under a
      single check; nothing else does. */
  lemma AddressUnderOneCheck(d: DType, n: int, m: int)
    requires |d.decl| < DECLARATOR_MAX - 1
    ensures TryGetAddr(WrapSpec(d, Declarator(DkAddr, n))) == n
    ensures TryGetAddr(WrapSpec(WrapSpec(d, Declarator(DkAddr, n)), Declarator(DkCheck, m))) == n
    ensures TryGetAddr(WrapSpec(d, Declarator(DkSlice, n))) == TryGetAddr(WrapSpec(d, Declarator(DkArray, n))) == 0
    ensures d.decl == [] || d.decl[0].tag != DkAddr ==> TryGetAddr(WrapSpec(d, Declarator(DkCheck, n))) == 0
    ensures d.decl == [] ==> TryGetAddr(d) == 0
  {
    var c := WrapSpec(WrapSpec(d, Declarator(DkAddr, n)), Declarator(DkCheck, m));
    assert c.decl[0].tag == DkCheck && c.decl[1] == Declarator(DkAddr, n);
    assert WrapSpec(d, Declarator(DkCheck, n)).decl[0].tag == DkCheck;
    assert WrapSpec(d, Declarator(DkAddr, n)).decl[0] == Declarator(DkAddr, n);
    assert WrapSpec(d, Declarator(DkSlice, n)).decl[0].tag == DkSlice;
    assert WrapSpec(d, Declarator(DkArray, n)).decl[0].tag == DkArray;
  }
}
