// Label keys: "function.label.index", cut to what the table entry holds.
module LinkKeys {
  const KEY_CAP: nat := 96

  /** A key keeps one byte of its KEY_CAP for the terminator. */
  function Truncated(s: string): string {
    if |s| < KEY_CAP then s else s[..KEY_CAP - 1]
  }

  function Digit(d: nat): char
    requires d < 10
  {
    '0' + d as char
  }

  function Digits(n: nat): (s: string)
    ensures s != []
  {
    if n < 10 then [Digit(n)] else Digits(n / 10) + [Digit(n % 10)]
  }

  function Decimal(n: int): string { if n < 0 then "-" + Digits(-n) else Digits(n) }

  function FullKey(fn: string, name: string, index: int): string {
    fn + "." + name + "." + Decimal(index)
  }

  function MakeKey(fn: string, name: string, index: int): string {
    Truncated(FullKey(fn, name, index))
  }

  // ---- Keys determine what they were made from ----

  lemma {:induction false} DigitsInjective(m: nat, n: nat)
    requires Digits(m) == Digits(n)
    ensures m == n
  {
    var s, t := Digits(m), Digits(n);
    if m < 10 || n < 10 {
      assert |s| == 1 && |t| == 1 && s[0] == t[0];
    } else {
      assert s[..|s| - 1] == Digits(m / 10) && t[..|t| - 1] == Digits(n / 10);
      DigitsInjective(m / 10, n / 10);
      assert s[|s| - 1] == t[|t| - 1];
    }
  }

  lemma {:induction false} DigitsPlain(n: nat)
    ensures forall c :: c in Digits(n) ==> '0' <= c <= '9'
  {
    if n >= 10 {
      DigitsPlain(n / 10);
    }
  }

  lemma DecimalInjective(m: int, n: int)
    requires Decimal(m) == Decimal(n)
    ensures m == n
  {
    DigitsPlain(if m < 0 then -m else m);
    DigitsPlain(if n < 0 then -n else n);
    if m < 0 && n < 0 {
      assert Decimal(m)[1..] == Digits(-m) && Decimal(n)[1..] == Digits(-n);
      DigitsInjective(-m, -n);
    } else {
      assert Decimal(m)[0] == Decimal(n)[0];
      assert m >= 0 ==> Decimal(m)[0] in Digits(m);
      assert n >= 0 ==> Decimal(n)[0] in Digits(n);
      DigitsInjective(m, n);
    }
  }

  lemma DecimalNoDot(n: int)
    ensures '.' !in Decimal(n)
  {
    DigitsPlain(if n < 0 then -n else n);
  }

  lemma LastDot(s: string, a: string, t: string, b: string)
    requires '.' !in a && '.' !in b && s + "." + a == t + "." + b
    ensures s == t && a == b
  {
    DotNotLater(s, a, t, b);
    DotNotLater(t, b, s, a);
    var u := s + "." + a;
    assert u[..|s|] == s && u[..|t|] == t;
    assert u[|s| + 1..] == a && u[|t| + 1..] == b;
  }

  lemma DotNotLater(s: string, a: string, t: string, b: string)
    requires '.' !in a && s + "." + a == t + "." + b
    ensures |t| <= |s|
  {
    var u := s + "." + a;
    assert forall k :: |s| < k < |u| ==> u[k] == a[k - |s| - 1];
    assert u[|t|] == '.';
  }

  /** The exact condition under which two full keys coincide: one index, and the same text
      before it. */
  lemma FullKeysEqual(f: string, l: string, i: int, g: string, m: string, j: int)
    ensures FullKey(f, l, i) == FullKey(g, m, j) <==> i == j && f + "." + l == g + "." + m
  {
    if FullKey(f, l, i) == FullKey(g, m, j) {
      DecimalNoDot(i);
      DecimalNoDot(j);
      LastDot(f + "." + l, Decimal(i), g + "." + m, Decimal(j));
      DecimalInjective(i, j);
    }
  }

  /** One name continues the other after a dot. */
  predicate DotPrefix(f: string, g: string) { f + "." <= g }

  predicate Related(f: string, g: string) { DotPrefix(f, g) || DotPrefix(g, f) }

  lemma SplitAtDot(f: string, l: string, g: string, m: string)
    requires f + "." + l == g + "." + m
    ensures f == g ==> l == m
    ensures f == g || Related(f, g)
  {
    var u := f + "." + l;
    assert u[|f| + 1..] == l && u[..|f|] == f && u[..|f| + 1] == f + ".";
    assert u[|g| + 1..] == m && u[..|g|] == g && u[..|g| + 1] == g + ".";
    if |f| < |g| {
      assert u[..|g|][..|f| + 1] == u[..|f| + 1];
    } else if |g| < |f| {
      assert u[..|f|][..|g| + 1] == u[..|g| + 1];
    }
  }

  /** Keys that were not cut: within one function they are equal only for the same label and
      index, dots or not; across functions only when one name continues the other after a dot. */
  lemma MakeKeyInjective(f: string, l: string, i: int, g: string, m: string, j: int)
    requires |FullKey(f, l, i)| < KEY_CAP && |FullKey(g, m, j)| < KEY_CAP
    ensures f == g || !Related(f, g) ==> (MakeKey(f, l, i) == MakeKey(g, m, j) <==> f == g && l == m && i == j)
  {
    FullKeysEqual(f, l, i, g, m, j);
    if MakeKey(f, l, i) == MakeKey(g, m, j) {
      SplitAtDot(f, l, g, m);
    }
  }

  /** Some uncut key of f is also one of g. */
  ghost predicate Collide(f: string, g: string) {
    exists l: string, i: int, m: string, j: int ::
      FullKey(f, l, i) == FullKey(g, m, j) && |FullKey(g, m, j)| < KEY_CAP
  }

  function Longer(f: string, g: string): nat { if |f| > |g| then |f| else |g| }

  lemma {:induction false} FullKeyLength(f: string, l: string, i: int)
    ensures |FullKey(f, l, i)| >= |f| + |l| + 3
  {
  }

  /** Different functions share an uncut key exactly when one name continues the other after a
      dot and the longer one leaves room for a label and an index. */
  lemma CollideExactly(f: string, g: string)
    requires f != g
    ensures Collide(f, g) <==> Related(f, g) && Longer(f, g) + 3 < KEY_CAP
  {
    if Collide(f, g) {
      var l: string, i: int, m: string, j: int :| FullKey(f, l, i) == FullKey(g, m, j) && |FullKey(g, m, j)| < KEY_CAP;
      FullKeysEqual(f, l, i, g, m, j);
      SplitAtDot(f, l, g, m);
      FullKeyLength(f, l, i);
      FullKeyLength(g, m, j);
    }
    if DotPrefix(f, g) && Longer(f, g) + 3 < KEY_CAP {
      SharedKey(f, g);
    }
    if DotPrefix(g, f) && Longer(f, g) + 3 < KEY_CAP {
      SharedKey(g, f);
    }
  }

  lemma SharedKey(f: string, g: string)
    requires DotPrefix(f, g) && |g| + 3 < KEY_CAP
    ensures Collide(f, g) && Collide(g, f)
  {
    var r := g[|f| + 1..];
    assert g == f + "." + r;
    assert FullKey(f, r + ".", 0) == FullKey(g, "", 0);
    assert |Decimal(0)| == 1 && |FullKey(g, "", 0)| == |g| + 3;
  }

  /** For one, a dot in a function name makes two different labels share a key. */
  lemma DottedNamesCollide()
    ensures MakeKey("a.b", "c", 0) == MakeKey("a", "b.c", 0)
    ensures DotPrefix("a", "a.b")
  {
    assert "a.b" + "." + "c" == "a" + "." + "b.c";
  }

  /** A key keeps the first KEY_CAP - 1 characters of the text, cut or not. */
  function Kept(s: string, n: nat): string { if |s| <= n then s else s[..n] }

  /** Both texts fill the key, with the same characters. */
  predicate CutAlike(f: string, l: string, i: int, g: string, m: string, j: int) {
    var (a, b) := (FullKey(f, l, i), FullKey(g, m, j));
    |a| >= KEY_CAP - 1 && |b| >= KEY_CAP - 1 && a[..KEY_CAP - 1] == b[..KEY_CAP - 1]
  }

  /** Two labels share a key exactly when they have one index and the same text before it, or
      when nothing that tells them apart is left of either. */
  lemma KeysEqual(f: string, l: string, i: int, g: string, m: string, j: int)
    ensures MakeKey(f, l, i) == MakeKey(g, m, j)
      <==> (i == j && f + "." + l == g + "." + m) || CutAlike(f, l, i, g, m, j)
  {
    FullKeysEqual(f, l, i, g, m, j);
    var (a, b) := (FullKey(f, l, i), FullKey(g, m, j));
    assert |a| == KEY_CAP - 1 ==> a[..KEY_CAP - 1] == a;
    assert |b| == KEY_CAP - 1 ==> b[..KEY_CAP - 1] == b;
  }

  /** What is left of the key for label and index after the function name. */
  lemma SameFunctionKeys(f: string, l: string, i: int, m: string, j: int)
    requires |f| + 1 < KEY_CAP
    ensures MakeKey(f, l, i) == MakeKey(f, m, j)
      <==> Kept(l + "." + Decimal(i), KEY_CAP - 2 - |f|) == Kept(m + "." + Decimal(j), KEY_CAP - 2 - |f|)
  {
    var (a, b, n) := (l + "." + Decimal(i), m + "." + Decimal(j), KEY_CAP - 2 - |f|);
    assert FullKey(f, l, i) == f + "." + a && FullKey(f, m, j) == f + "." + b;
    KeptAfter(f + ".", a, n);
    KeptAfter(f + ".", b, n);
    if Kept(f + "." + a, KEY_CAP - 1) == Kept(f + "." + b, KEY_CAP - 1) {
      assert (f + "." + Kept(a, n))[|f| + 1..] == Kept(a, n);
      assert (f + "." + Kept(b, n))[|f| + 1..] == Kept(b, n);
    }
  }

  lemma KeptAfter(p: string, a: string, n: nat)
    ensures Kept(p + a, |p| + n) == p + Kept(a, n)
  {
  }

  /** All labels of a function share one key exactly when its name has 94 characters or more. */
  lemma LongNamesShareOneKey(f: string)
    ensures (forall l: string, i: int, m: string, j: int :: MakeKey(f, l, i) == MakeKey(f, m, j)) <==> |f| >= KEY_CAP - 2
  {
    if |f| >= KEY_CAP - 2 {
      forall l: string, i: int, m: string, j: int ensures MakeKey(f, l, i) == MakeKey(f, m, j) {
        LongKey(f, l, i);
        LongKey(f, m, j);
      }
    } else {
      SameFunctionKeys(f, "a", 0, "b", 0);
      assert Kept("a" + "." + Decimal(0), KEY_CAP - 2 - |f|)[0] == 'a' && Kept("b" + "." + Decimal(0), KEY_CAP - 2 - |f|)[0] == 'b';
      assert MakeKey(f, "a", 0) != MakeKey(f, "b", 0);
    }
  }

  lemma LongKey(f: string, l: string, i: int)
    requires |f| >= KEY_CAP - 2
    ensures MakeKey(f, l, i) == (f + ".")[..KEY_CAP - 1]
  {
    var k := FullKey(f, l, i);
    assert k == f + "." + (l + "." + Decimal(i));
    assert k[..KEY_CAP - 1] == (f + ".")[..KEY_CAP - 1];
  }
}
