// Open-addressing tables with linear probing, and the stack of scopes built from them.
module HashTables {
  import opened Bits
  import opened TypeSys

  type Key = string

  datatype Entry<V> = Free | Used(key: Key, value: V)

  /** Steps of a cyclic probe from `start` to i. */
  function Steps(start: nat, i: nat, n: nat): int { if i >= start then i - start else i + n - start }

  /** Every slot that a probe for k passes before slot i is taken by another key. */
  predicate Passed<V>(s: seq<Entry<V>>, hash: Key -> nat, k: Key, i: int)
    requires |s| > 0
  {
    forall j :: 0 <= j < |s| && Steps(hash(k) % |s|, j, |s|) < i ==> s[j].Used? && s[j].key != k
  }

  /** Each entry can be reached from its hash without meeting a free slot. */
  predicate Probable<V>(s: seq<Entry<V>>, hash: Key -> nat) {
    |s| > 0 && forall i :: 0 <= i < |s| && s[i].Used? ==> Passed(s, hash, s[i].key, Steps(hash(s[i].key) % |s|, i, |s|))
  }

  /** The entries are the bindings of m. */
  ghost predicate Binds<V>(s: seq<Entry<V>>, m: map<Key, V>) {
    && (forall i :: 0 <= i < |s| && s[i].Used? ==> s[i].key in m && m[s[i].key] == s[i].value)
    && (forall k :: k in m ==> exists i :: 0 <= i < |s| && s[i].Used? && s[i].key == k)
  }

  predicate Full<V>(s: seq<Entry<V>>) { forall i :: 0 <= i < |s| ==> s[i].Used? }

  /** Where a probe for k stops: at k's entry or at the first free slot. */
  predicate StopsAt<V>(s: seq<Entry<V>>, hash: Key -> nat, k: Key, i: nat)
    requires |s| > 0
  {
    i < |s| && Passed(s, hash, k, Steps(hash(k) % |s|, i, |s|)) && (s[i].Used? ==> s[i].key == k)
  }

  lemma StepsNext(start: nat, i: nat, n: nat)
    requires start < n && i < n
    ensures (i + 1) % n == (if i + 1 == n then 0 else i + 1)
    ensures (i + 1) % n != start ==> Steps(start, (i + 1) % n, n) == Steps(start, i, n) + 1
    ensures (i + 1) % n == start ==> Steps(start, i, n) == n - 1
  {
  }

  lemma StepsInjective(start: nat, i: nat, j: nat, n: nat)
    requires start < n && i < n && j < n
    ensures 0 <= Steps(start, i, n) < n
    ensures Steps(start, i, n) == Steps(start, j, n) <==> i == j
  {
  }

  /** A key that is bound is found before a free slot: the stop is its entry. */
  lemma StopFindsBinding<V>(s: seq<Entry<V>>, hash: Key -> nat, m: map<Key, V>, k: Key, i: nat)
    requires Probable(s, hash) && Binds(s, m) && StopsAt(s, hash, k, i)
    ensures s[i].Used? <==> k in m
    ensures k in m ==> m[k] == s[i].value
  {
    if k in m {
      var j :| 0 <= j < |s| && s[j].Used? && s[j].key == k;
      SameSlot(s, hash, k, i, j);
    }
  }

  /** Writing the entry where the probe for it stopped keeps the table. */
  lemma UpdateKeeps<V>(s: seq<Entry<V>>, hash: Key -> nat, m: map<Key, V>, k: Key, v: V, i: nat)
    requires Probable(s, hash) && Binds(s, m) && StopsAt(s, hash, k, i)
    ensures Probable(s[i := Used(k, v)], hash) && Binds(s[i := Used(k, v)], m[k := v])
  {
    var t := s[i := Used(k, v)];
    forall a | 0 <= a < |t| && t[a].Used? ensures Passed(t, hash, t[a].key, Steps(hash(t[a].key) % |t|, a, |t|)) {
      var (h, ka) := (hash(t[a].key) % |t|, t[a].key);
      assert Passed(s, hash, ka, Steps(h, a, |s|));
      forall j | 0 <= j < |t| && Steps(h, j, |t|) < Steps(h, a, |t|) ensures t[j].Used? && t[j].key != ka {
        assert s[j].Used? && s[j].key != ka;
      }
    }
    UpdateBinds(s, hash, m, k, v, i);
  }

  lemma UpdateBinds<V>(s: seq<Entry<V>>, hash: Key -> nat, m: map<Key, V>, k: Key, v: V, i: nat)
    requires Probable(s, hash) && Binds(s, m) && StopsAt(s, hash, k, i)
    ensures Binds(s[i := Used(k, v)], m[k := v])
  {
    var (t, m') := (s[i := Used(k, v)], m[k := v]);
    forall a | 0 <= a < |t| && t[a].Used? ensures t[a].key in m' && m'[t[a].key] == t[a].value {
      if a != i && s[a].key == k {
        SameSlot(s, hash, k, i, a);
      }
    }
    forall x | x in m' ensures exists a :: 0 <= a < |t| && t[a].Used? && t[a].key == x {
      if x == k {
        assert t[i].key == x;
      } else {
        var a :| 0 <= a < |s| && s[a].Used? && s[a].key == x;
        assert a != i;
        assert t[a].key == x;
      }
    }
  }

  /** A key is in one slot only, the one where its probe stops. */
  lemma SameSlot<V>(s: seq<Entry<V>>, hash: Key -> nat, k: Key, i: nat, a: nat)
    requires Probable(s, hash) && StopsAt(s, hash, k, i) && a < |s| && s[a].Used? && s[a].key == k
    ensures a == i
  {
    var h := hash(k) % |s|;
    StepsInjective(h, i, a, |s|);
    assert Passed(s, hash, k, Steps(h, a, |s|));
  }

  class Table<V(0)> {
    const size: nat
    const hash: Key -> nat
    const entries: array<Entry<V>>
    ghost var m: map<Key, V>

    ghost predicate Valid()
      reads this, entries
    {
      entries.Length == size > 0 && Probable(entries[..], hash) && Binds(entries[..], m)
    }

    constructor (size: nat, hash: Key -> nat)
      requires size > 0
      ensures Valid() && m == map[] && fresh(entries) && this.size == size && this.hash == hash
    {
      this.size, this.hash := size, hash;
      entries := new Entry<V>[size](_ => Free);
      m := map[];
    }

    method Clear()
      requires Valid()
      modifies this, entries
      ensures Valid() && m == map[]
    {
      for i := 0 to size
        invariant entries.Length == size && forall j :: 0 <= j < i ==> entries[j].Free?
      {
        entries[i] := Free;
      }
      m := map[];
    }

    /** The probe loop; it gives up when it is back where it started, which happens exactly
        when the table is full and the key is absent. */
    method FindEntry(id: Key) returns (r: Option<nat>)
      requires Valid()
      ensures r.Some? ==> StopsAt(entries[..], hash, id, r.value)
      ensures r.None? <==> Full(entries[..]) && id !in m
    {
      hide Probable, Binds;
      assert size == |entries[..]| > 0;
      var start: nat := hash(id) % size;
      var index: nat := start;
      while entries[index].Used?
        invariant index < size && Passed(entries[..], hash, id, Steps(start, index, size))
        decreases size - Steps(start, index, size)
      {
        if entries[index].key == id {
          break;
        }
        ProbeStep(entries[..], hash, id, index);
        StepsNext(start, index, size);
        index := (index + 1) % size;
        if index == start {
          AllOthers(id);
          return None;
        }
      }
      FoundSlot(id, index);
      return Some(index);
    }

    lemma FoundSlot(id: Key, i: nat)
      requires Valid() && StopsAt(entries[..], hash, id, i)
      ensures Full(entries[..]) ==> id in m
    {
      StopFindsBinding(entries[..], hash, m, id, i);
    }

    lemma AllOthers(id: Key)
      requires Valid() && forall j :: 0 <= j < size ==> entries[j].Used? && entries[j].key != id
      ensures Full(entries[..]) && id !in m
    {
    }

    method TryFind(id: Key) returns (ok: bool, r: Option<V>)
      requires Valid()
      ensures ok <==> !(Full(entries[..]) && id !in m)
      ensures ok ==> r == if id in m then Some(m[id]) else None
    {
      var e := FindEntry(id);
      if e.None? {
        return false, None;
      }
      StopFindsBinding(entries[..], hash, m, id, e.value);
      return true, if entries[e.value].Used? then Some(entries[e.value].value) else None;
    }

    method Overwrite(id: Key, v: V) returns (ok: bool)
      requires Valid()
      modifies this, entries
      ensures Valid()
      ensures ok <==> !(old(Full(entries[..])) && id !in old(m))
      ensures m == if ok then old(m)[id := v] else old(m)
    {
      hide Probable, Binds, StopsAt, Full;
      var e := FindEntry(id);
      if e.None? {
        return false;
      }
      UpdateKeeps(entries[..], hash, m, id, v, e.value);
      SlotInRange(id, e.value);
      ghost var before := entries[..];
      entries[e.value] := Used(id, v);
      assert entries[..] == before[e.value := Used(id, v)];
      m := m[id := v];
      return true;
    }

    lemma SlotInRange(id: Key, i: nat)
      requires Valid() && StopsAt(entries[..], hash, id, i)
      ensures i < entries.Length
    {
    }

    /** Adding never replaces a binding. */
    method Add(id: Key, v: V) returns (ok: bool, added: bool)
      requires Valid()
      modifies this, entries
      ensures Valid()
      ensures ok <==> !(old(Full(entries[..])) && id !in old(m))
      ensures ok ==> (added <==> id !in old(m))
      ensures m == if ok && added then old(m)[id := v] else old(m)
    {
      hide Probable, Binds, StopsAt, Full;
      added := false;
      var e := FindEntry(id);
      if e.None? {
        return false, false;
      }
      SlotInRange(id, e.value);
      StopFindsBinding(entries[..], hash, m, id, e.value);
      if entries[e.value].Used? {
        return true, false;
      }
      UpdateKeeps(entries[..], hash, m, id, v, e.value);
      ghost var before := entries[..];
      entries[e.value] := Used(id, v);
      assert entries[..] == before[e.value := Used(id, v)];
      m := m[id := v];
      return true, true;
    }
  }

  lemma ProbeStep<V>(s: seq<Entry<V>>, hash: Key -> nat, k: Key, i: nat)
    requires |s| > 0 && i < |s| && Passed(s, hash, k, Steps(hash(k) % |s|, i, |s|)) && s[i].Used? && s[i].key != k
    ensures Passed(s, hash, k, Steps(hash(k) % |s|, i, |s|) + 1)
    ensures Steps(hash(k) % |s|, i, |s|) == |s| - 1 ==> forall j :: 0 <= j < |s| ==> s[j].Used? && s[j].key != k
  {
    var h := hash(k) % |s|;
    forall j | 0 <= j < |s| && Steps(h, j, |s|) < Steps(h, i, |s|) + 1 ensures s[j].Used? && s[j].key != k {
      StepsInjective(h, i, j, |s|);
    }
    if Steps(h, i, |s|) == |s| - 1 {
      forall j | 0 <= j < |s| ensures s[j].Used? && s[j].key != k {
        StepsInjective(h, j, j, |s|);
      }
    }
  }

  /** Masking with a power of two less one is the cyclic step of the other tables. */
  lemma MaskIsMod(x: nat, k: nat)
    ensures BitOp(AndOp, x, Pow2(k) - 1) == x % Pow2(k)
  {
    hide BitOp, Pow2;
    var (q, r) := (x / Pow2(k), x % Pow2(k));
    OpSplit(AndOp, k, r, q, Pow2(k) - 1, 0);
    AndZero(q);
    AndOnes(k, r);
    assert x == r + Pow2(k) * q;
  }

  lemma {:induction false} AndZero(a: nat)
    ensures BitOp(AndOp, a, 0) == 0
  {
    if a > 0 {
      AndZero(a / 2);
    }
  }

  // ---- The stack of scopes ----

  const MAX_DEPTH := 7
  const SCOPE_SIZE := 26   // one slot for each letter

  datatype Found<V> = Hit(depth: nat, value: V) | Miss | Stuck

  /** Lookup through a stack of maps, innermost (last) first; a full scope without the name
      ends the search with an abort. */
  function InnermostFirst<V>(scopes: seq<map<Key, V>>, full: seq<bool>, id: Key): Found<V>
    requires |full| == |scopes|
  {
    if scopes == [] then Miss
    else
      var top := |scopes| - 1;
      if id in scopes[top] then Hit(top, scopes[top][id])
      else if full[top] then Stuck
      else InnermostFirst(scopes[..top], full[..top], id)
  }

  /** What the search returns: the binding of the innermost scope that has one, unless a full
      scope further in does not. */
  lemma {:induction false} InnermostIs<V>(scopes: seq<map<Key, V>>, full: seq<bool>, id: Key, d: nat)
    requires |full| == |scopes| && d < |scopes| && id in scopes[d]
    requires forall e :: d < e < |scopes| ==> id !in scopes[e] && !full[e]
    ensures InnermostFirst(scopes, full, id) == Hit(d, scopes[d][id])
    decreases |scopes|
  {
    var top := |scopes| - 1;
    if d < top {
      InnermostIs(scopes[..top], full[..top], id, d);
    }
  }

  lemma {:induction false} NoneIs<V>(scopes: seq<map<Key, V>>, full: seq<bool>, id: Key)
    requires |full| == |scopes| && forall e :: 0 <= e < |scopes| ==> id !in scopes[e] && !full[e]
    ensures InnermostFirst(scopes, full, id) == Miss
    decreases |scopes|
  {
    if scopes != [] {
      var top := |scopes| - 1;
      NoneIs(scopes[..top], full[..top], id);
    }
  }

  lemma OneScope<V>(scopes: seq<map<Key, V>>, full: seq<bool>, id: Key, k: nat)
    requires |full| == |scopes| && k < |scopes|
    ensures InnermostFirst(scopes[..k + 1], full[..k + 1], id) ==
      if id in scopes[k] then Hit(k, scopes[k][id]) else if full[k] then Stuck
      else if k == 0 then Miss else InnermostFirst(scopes[..k], full[..k], id)
  {
    assert scopes[..k + 1][..k] == scopes[..k] && full[..k + 1][..k] == full[..k];
  }

  class Scopes<V(0)> {
    const data: seq<Table<V>>
    var cur: nat

    ghost predicate Valid()
      reads this, set i | 0 <= i < |data| :: data[i], set i | 0 <= i < |data| :: data[i].entries
    {
      && |data| == MAX_DEPTH && cur < MAX_DEPTH
      && (forall i :: 0 <= i < MAX_DEPTH ==> data[i].Valid() && data[i].size == SCOPE_SIZE)
      && (forall i, j :: 0 <= i < j < MAX_DEPTH ==> data[i] != data[j] && data[i].entries != data[j].entries)
    }

    /** One empty scope. */
    constructor (data: seq<Table<V>>)
      requires |data| == MAX_DEPTH && forall i :: 0 <= i < MAX_DEPTH ==> data[i].Valid() && data[i].size == SCOPE_SIZE
      requires forall i, j :: 0 <= i < j < MAX_DEPTH ==> data[i] != data[j] && data[i].entries != data[j].entries
      modifies data[0], data[0].entries
      ensures Valid() && Stack() == [map[]]
    {
      this.data := data;
      cur := 0;
      new;
      data[0].Clear();
    }

    /** The open scopes, outermost first. */
    ghost function Stack(): (r: seq<map<Key, V>>)
      requires Valid()
      reads this, set i | 0 <= i < |data| :: data[i], set i | 0 <= i < |data| :: data[i].entries
      ensures |r| == cur + 1 && forall i :: 0 <= i <= cur ==> r[i] == data[i].m
    {
      seq(cur + 1, i requires 0 <= i <= cur && i < |data| reads this, set i | 0 <= i < |data| :: data[i] => data[i].m)
    }

    ghost function Fullness(): (r: seq<bool>)
      requires Valid()
      reads this, set i | 0 <= i < |data| :: data[i], set i | 0 <= i < |data| :: data[i].entries
      ensures |r| == cur + 1 && forall i :: 0 <= i <= cur ==> r[i] == Full(data[i].entries[..])
    {
      seq(cur + 1, i requires 0 <= i <= cur && i < |data|
        reads this, set i | 0 <= i < |data| :: data[i], set i | 0 <= i < |data| :: data[i].entries => Full(data[i].entries[..]))
    }

    /** Open a scope; refused when the seven scopes are in use. */
    method Push() returns (ok: bool)
      requires Valid()
      modifies this, data[..], set i | 0 <= i < |data| :: data[i].entries
      ensures Valid() && ok == (old(cur) + 1 < MAX_DEPTH)
      ensures Stack() == if ok then old(Stack()) + [map[]] else old(Stack())
    {
      if cur + 1 == MAX_DEPTH {
        return false;
      }
      hide Table.Valid, Full, Fullness, Stack;
      ghost var was := Stack();
      StackIs();
      cur := cur + 1;
      data[cur].Clear();
      StackIs();
      assert Stack() == was + [map[]];
      return true;
    }

    method Pop()
      requires Valid()
      modifies this
      ensures Valid() && Stack() == if old(cur) == 0 then old(Stack()) else old(Stack())[..old(cur)]
    {
      if cur == 0 {
        return;
      }
      cur := cur - 1;
    }

    method AddId(id: Key, v: V) returns (ok: bool, added: bool)
      requires Valid()
      modifies data[cur], data[cur].entries
      ensures Valid()
      ensures ok <==> !(old(Fullness()[cur]) && id !in old(Stack()[cur]))
      ensures ok ==> (added <==> id !in old(Stack()[cur]))
      ensures Stack() == if ok && added then old(Stack())[cur := old(Stack()[cur])[id := v]] else old(Stack())
    {
      hide Table.Valid, Full, Fullness, Stack;
      ghost var (was, k) := (Stack(), cur);
      FullnessIs();
      ok, added := data[cur].Add(id, v);
      StackIs();
      assert Stack() == was[k := data[k].m];
    }

    /** Bind a name in the innermost scope, over any binding it has there. */
    method OverwriteId(id: Key, v: V) returns (ok: bool)
      requires Valid()
      modifies data[cur], data[cur].entries
      ensures Valid()
      ensures ok <==> !(old(Fullness()[cur]) && id !in old(Stack()[cur]))
      ensures Stack() == if ok then old(Stack())[cur := old(Stack()[cur])[id := v]] else old(Stack())
    {
      hide Table.Valid, Full, Fullness, Stack;
      ghost var (was, k) := (Stack(), cur);
      FullnessIs();
      ok := data[cur].Overwrite(id, v);
      StackIs();
      assert Stack() == was[k := data[k].m];
    }

    lemma StackIs()
      requires Valid()
      ensures |Stack()| == cur + 1 && forall i :: 0 <= i <= cur ==> Stack()[i] == data[i].m
    {
    }

    lemma FullnessIs()
      requires Valid()
      ensures |Fullness()| == cur + 1 && Fullness()[cur] == Full(data[cur].entries[..])
    {
    }

    /** The innermost binding of a name. */
    method FindId(id: Key) returns (r: Found<V>)
      requires Valid()
      ensures r == InnermostFirst(Stack(), Fullness(), id)
    {
      hide InnermostFirst;
      var scope: nat := cur;
      ghost var (stack, full) := (Stack(), Fullness());
      assert stack[..cur + 1] == stack && full[..cur + 1] == full;
      while true
        invariant scope <= cur
        invariant InnermostFirst(stack, full, id) == InnermostFirst(stack[..scope + 1], full[..scope + 1], id)
        decreases scope
      {
        OneScope(stack, full, id, scope);
        var ok, v := data[scope].TryFind(id);
        if !ok {
          return Stuck;
        }
        if v.Some? {
          return Hit(scope, v.value);
        }
        if scope == 0 {
          return Miss;
        }
        scope := scope - 1;
      }
    }
  }
}
