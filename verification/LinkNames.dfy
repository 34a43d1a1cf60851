// Labels by function, name and index: which table entry a branch to one of them finds.
module LinkNames {
  import opened TypeSys
  import opened LinkKeys
  import opened LinkLayout

  datatype Id = Id(fn: string, name: string, index: int)

  function KeyOf(id: Id): string { MakeKey(id.fn, id.name, id.index) }

  predicate Uncut(id: Id) { |FullKey(id.fn, id.name, id.index)| < KEY_CAP }

  /** Two labels share a key: they read the same, or their keys are cut to the same characters. */
  predicate SameKey(a: Id, b: Id) {
    || (a.index == b.index && a.fn + "." + a.name == b.fn + "." + b.name)
    || CutAlike(a.fn, a.name, a.index, b.fn, b.name, b.index)
  }

  /** The table holds the keys of these labels. */
  predicate Names(tab: seq<LabelDef>, ids: seq<Id>) {
    |tab| == |ids| && forall k :: 0 <= k < |tab| ==> tab[k].key == KeyOf(ids[k])
  }

  /** Distinct labels with uncut keys, of functions whose names are not related by a dot. */
  predicate ApartNames(ids: seq<Id>) {
    && (forall k :: 0 <= k < |ids| ==> Uncut(ids[k]))
    && forall p, q :: 0 <= p < q < |ids| ==> ids[p] != ids[q] && (ids[p].fn == ids[q].fn || !Related(ids[p].fn, ids[q].fn))
  }

  lemma KeysSame(a: Id, b: Id)
    ensures KeyOf(a) == KeyOf(b) <==> SameKey(a, b)
  {
    KeysEqual(a.fn, a.name, a.index, b.fn, b.name, b.index);
  }

  /** Table keys are distinct exactly when no two labels share a key. */
  lemma DistinctExactly(tab: seq<LabelDef>, ids: seq<Id>)
    requires Names(tab, ids)
    ensures DistinctKeys(tab) <==> forall p, q :: 0 <= p < q < |ids| ==> !SameKey(ids[p], ids[q])
  {
    forall p, q | 0 <= p < q < |ids| ensures tab[p].key == tab[q].key <==> SameKey(ids[p], ids[q]) {
      KeysSame(ids[p], ids[q]);
    }
  }

  lemma UncutReads(a: Id, b: Id)
    requires Uncut(a) && Uncut(b) && SameKey(a, b)
    ensures a.index == b.index && a.fn + "." + a.name == b.fn + "." + b.name
  {
    KeysSame(a, b);
    FullKeysEqual(a.fn, a.name, a.index, b.fn, b.name, b.index);
  }

  lemma ApartDistinct(tab: seq<LabelDef>, ids: seq<Id>)
    requires Names(tab, ids) && ApartNames(ids)
    ensures DistinctKeys(tab)
  {
    forall p, q | 0 <= p < q < |ids| ensures !SameKey(ids[p], ids[q]) {
      var (a, b) := (ids[p], ids[q]);
      if SameKey(a, b) {
        UncutReads(a, b);
        SplitAtDot(a.fn, a.name, b.fn, b.name);
      }
    }
    DistinctExactly(tab, ids);
  }

  /** The first label that shares its key with label n. */
  function First(ids: seq<Id>, n: nat): (q: nat)
    requires n < |ids|
    ensures q <= n && SameKey(ids[q], ids[n]) && forall p :: 0 <= p < q ==> !SameKey(ids[p], ids[n])
  {
    FirstFrom(ids, n, 0)
  }

  function FirstFrom(ids: seq<Id>, n: nat, p: nat): (q: nat)
    requires p <= n < |ids| && forall k :: 0 <= k < p ==> !SameKey(ids[k], ids[n])
    ensures q <= n && SameKey(ids[q], ids[n]) && forall k :: 0 <= k < q ==> !SameKey(ids[k], ids[n])
    decreases n - p
  {
    if p == n || SameKey(ids[p], ids[n]) then p else FirstFrom(ids, n, p + 1)
  }

  /** A lookup of label n finds the first label with that key: its own entry exactly when no
      earlier label shares the key. */
  lemma LookupFinds(tab: seq<LabelDef>, ids: seq<Id>, n: nat)
    requires Names(tab, ids) && n < |ids|
    ensures Find(tab, KeyOf(ids[n])) == Some(tab[First(ids, n)].at)
    ensures First(ids, n) == n <==> forall p :: 0 <= p < n ==> !SameKey(ids[p], ids[n])
    ensures ApartNames(ids) ==> First(ids, n) == n
  {
    var (key, q) := (KeyOf(ids[n]), First(ids, n));
    FindIsFirst(tab, key);
    KeysSame(ids[q], ids[n]);
    assert tab[q].key == key;
    var i :| 0 <= i < |tab| && tab[i] == LabelDef(key, Find(tab, key).value) && forall j :: 0 <= j < i ==> tab[j].key != key;
    KeysSame(ids[i], ids[n]);
    assert i == q;
    if ApartNames(ids) {
      ApartDistinct(tab, ids);
    }
  }
}
