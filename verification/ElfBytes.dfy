// A byte image written region by region.
module ElfBytes {
  import opened Words

  /** The image with bs written at `at`. */
  function Overlay(b: seq<Byte>, at: nat, bs: seq<Byte>): (r: seq<Byte>)
    requires at + |bs| <= |b|
    ensures |r| == |b|
  {
    b[..at] + bs + b[at + |bs|..]
  }

  lemma OverlayAppend(b: seq<Byte>, at: nat, x: seq<Byte>, y: seq<Byte>)
    requires at + |x| + |y| <= |b|
    ensures Overlay(Overlay(b, at, x), at + |x|, y) == Overlay(b, at, x + y)
  {
  }

  lemma OverlayNothing(b: seq<Byte>, at: nat)
    requires at <= |b|
    ensures Overlay(b, at, []) == b
  {
  }

  /** Writing inside what was written before. */
  lemma OverlayWithin(b: seq<Byte>, at: nat, x: seq<Byte>, s: nat, y: seq<Byte>)
    requires at + |x| <= |b| && s + |y| <= |x|
    ensures Overlay(Overlay(b, at, x), at + s, y) == Overlay(b, at, Overlay(x, s, y))
  {
  }

  lemma OverlayCommute(b: seq<Byte>, a: nat, x: seq<Byte>, c: nat, y: seq<Byte>)
    requires a + |x| <= |b| && c + |y| <= |b| && (a + |x| <= c || c + |y| <= a)
    ensures Overlay(Overlay(b, a, x), c, y) == Overlay(Overlay(b, c, y), a, x)
  {
  }

  // ---- Regions ----

  datatype Chunk = Chunk(at: nat, bytes: seq<Byte>)

  function End(c: Chunk): nat { c.at + |c.bytes| }

  predicate Fit(chunks: seq<Chunk>, size: nat) { forall k :: 0 <= k < |chunks| ==> End(chunks[k]) <= size }

  predicate ApartFrom(a: Chunk, b: Chunk) { End(a) <= b.at || End(b) <= a.at }

  predicate Disjoint(chunks: seq<Chunk>) { forall i, j :: 0 <= i < j < |chunks| ==> ApartFrom(chunks[i], chunks[j]) }

  /** The chunks written in order. */
  function Compose(b: seq<Byte>, chunks: seq<Chunk>): (r: seq<Byte>)
    requires Fit(chunks, |b|)
    ensures |r| == |b|
  {
    if chunks == [] then b
    else Overlay(Compose(b, chunks[..|chunks| - 1]), chunks[|chunks| - 1].at, chunks[|chunks| - 1].bytes)
  }

  lemma ComposeSnoc(b: seq<Byte>, chunks: seq<Chunk>, c: Chunk)
    requires Fit(chunks, |b|) && End(c) <= |b|
    ensures Fit(chunks + [c], |b|) && Compose(b, chunks + [c]) == Overlay(Compose(b, chunks), c.at, c.bytes)
  {
    assert (chunks + [c])[..|chunks|] == chunks;
  }

  lemma OverlayElsewhere(b: seq<Byte>, at: nat, bs: seq<Byte>, lo: nat, hi: nat)
    requires at + |bs| <= |b| && lo <= hi <= |b| && (hi <= at || at + |bs| <= lo)
    ensures Overlay(b, at, bs)[lo..hi] == b[lo..hi]
  {
  }

  lemma OverlayInside(b: seq<Byte>, at: nat, bs: seq<Byte>)
    requires at + |bs| <= |b|
    ensures Overlay(b, at, bs)[at..at + |bs|] == bs
  {
  }

  /** Disjoint regions do not disturb each other: each is read back whole. */
  lemma {:induction false} ChunkKept(b: seq<Byte>, chunks: seq<Chunk>, k: nat)
    requires Fit(chunks, |b|) && Disjoint(chunks) && k < |chunks|
    ensures Compose(b, chunks)[chunks[k].at..End(chunks[k])] == chunks[k].bytes
  {
    hide Overlay;
    var front, c := chunks[..|chunks| - 1], chunks[|chunks| - 1];
    if k < |front| {
      ChunkKept(b, front, k);
      assert ApartFrom(chunks[k], c);
      OverlayElsewhere(Compose(b, front), c.at, c.bytes, chunks[k].at, End(chunks[k]));
    } else {
      OverlayInside(Compose(b, front), c.at, c.bytes);
    }
  }

  function Sub(b: seq<Byte>, at: nat, n: nat): (r: seq<Byte>)
    requires at + n <= |b|
    ensures |r| == n
  {
    b[at..at + n]
  }

  lemma SubOfSlice(b: seq<Byte>, lo: nat, hi: nat, at: nat, n: nat)
    requires lo <= hi <= |b| && at + n <= hi - lo
    ensures Sub(b[lo..hi], at, n) == Sub(b, lo + at, n)
  {
    var p, q := Sub(b[lo..hi], at, n), Sub(b, lo + at, n);
    forall k | 0 <= k < n ensures p[k] == q[k] {
      assert p[k] == b[lo..hi][at + k] == b[lo + (at + k)] == q[k];
    }
  }

  /** A table of equal-sized entries. */
  function Table(entries: seq<seq<Byte>>, n: nat): (bs: seq<Byte>)
    requires forall k :: 0 <= k < |entries| ==> |entries[k]| == n
    ensures |bs| == n * |entries|
  {
    if entries == [] then [] else Table(entries[..|entries| - 1], n) + entries[|entries| - 1]
  }

  lemma {:induction false} TableEntry(entries: seq<seq<Byte>>, n: nat, k: nat)
    requires forall i :: 0 <= i < |entries| ==> |entries[i]| == n
    requires k < |entries|
    ensures n * k + n <= |Table(entries, n)| && Sub(Table(entries, n), n * k, n) == entries[k]
  {
    hide Sub;
    var front, last := entries[..|entries| - 1], entries[|entries| - 1];
    if k < |front| {
      TableEntry(front, n, k);
    }
    SubOfJoined(Table(front, n), last, n * k, n);
  }

  lemma SubOfJoined(a: seq<Byte>, b: seq<Byte>, at: nat, n: nat)
    ensures at + n <= |a| ==> Sub(a + b, at, n) == Sub(a, at, n)
    ensures at == |a| && n == |b| ==> Sub(a + b, at, n) == b
  {
  }

  lemma TableSnoc(entries: seq<seq<Byte>>, n: nat, e: seq<Byte>)
    requires |e| == n && forall i :: 0 <= i < |entries| ==> |entries[i]| == n
    ensures Table(entries + [e], n) == Table(entries, n) + e
  {
    assert (entries + [e])[..|entries|] == entries;
  }
}
