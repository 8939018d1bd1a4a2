/** Byte arithmetic of segment lists: the bytes that a list of segments holds, and the part of
    them that an offset and a size pick out. */
module SegmentBytes {
  import opened Words
  import opened Mempool

  /** All the bytes of a list of segments. */
  function Flat(ds: seq<Data>): (bytes: seq<byte>)
    ensures |bytes| == 64 * |ds|
  {
    if ds == [] then [] else ds[0] + Flat(ds[1..])
  }

  lemma {:induction false} FlatConcat(a: seq<Data>, b: seq<Data>)
    ensures Flat(a + b) == Flat(a) + Flat(b)
    decreases |a|
  {
    if a == [] {
      assert a + b == b;
    } else {
      assert (a + b)[1..] == a[1..] + b;
      FlatConcat(a[1..], b);
    }
  }

  /** The n bytes from a position on. */
  function Sub(s: seq<byte>, from: nat, n: nat): (r: seq<byte>)
    requires from + n <= |s|
    ensures |r| == n
  {
    s[from..from + n]
  }

  /** The bytes from one offset of the list to another. */
  function View(ds: seq<Data>, offset: nat, size: nat): (bytes: seq<byte>)
    requires offset + size <= 64 * |ds|
    ensures |bytes| == size
  {
    Sub(Flat(ds), offset, size)
  }

  lemma ViewOfFirst(a: seq<Data>, b: seq<Data>, offset: nat, size: nat)
    requires offset + size <= 64 * |a|
    ensures View(a + b, offset, size) == View(a, offset, size)
  {
    FlatConcat(a, b);
  }

  lemma ViewOfSecond(a: seq<Data>, b: seq<Data>, offset: nat, size: nat)
    requires offset + size <= 64 * |b|
    ensures View(a + b, 64 * |a| + offset, size) == View(b, offset, size)
  {
    FlatConcat(a, b);
  }

  lemma ViewOfView(ds: seq<Data>, offset: nat, size: nat, from: nat, n: nat)
    requires offset + size <= 64 * |ds| && from + n <= size
    ensures View(ds, offset, size)[from..from + n] == View(ds, offset + from, n)
  {
    var x, y := View(ds, offset, size)[from..from + n], View(ds, offset + from, n);
    assert forall k :: 0 <= k < n ==> x[k] == y[k];
  }

  /** More segments at the end leave the bytes there were. */
  lemma GrownAtEnd(ds: seq<Data>, ds': seq<Data>, offset: nat, size: nat, size': nat)
    requires |ds| <= |ds'| && ds'[..|ds|] == ds
    requires size <= size' && offset + size <= 64 * |ds| && offset + size' <= 64 * |ds'|
    ensures View(ds', offset, size')[..size] == View(ds, offset, size)
  {
    hide Flat, View;
    var es := ds'[|ds|..];
    assert ds' == ds + es;
    ViewOfView(ds', offset, size', 0, size);
    ViewOfFirst(ds, es, offset, size);
  }

  /** More segments at the start shift the bytes there were. */
  lemma GrownAtStart(ds: seq<Data>, ds': seq<Data>, offset: nat, size: nat, offset': nat, size': nat)
    requires |ds| <= |ds'| && ds'[|ds'| - |ds|..] == ds
    requires offset + size <= 64 * |ds| && offset' + size' == 64 * (|ds'| - |ds|) + offset + size && size <= size'
    ensures View(ds', offset', size')[size' - size..] == View(ds, offset, size)
  {
    hide Flat, View;
    var es := ds'[..|ds'| - |ds|];
    assert ds' == es + ds;
    ViewOfView(ds', offset', size', size' - size, size);
    ViewOfSecond(es, ds, offset, size);
  }

  lemma PatchedTwice(s: seq<byte>, at: nat, a: seq<byte>, b: seq<byte>)
    requires at + |a| + |b| <= |s|
    ensures Patched(Patched(s, at, a), at + |a|, b) == Patched(s, at, a + b)
  {
  }

  lemma FlatAround(ds: seq<Data>, k: nat)
    requires k < |ds|
    ensures Flat(ds) == Flat(ds[..k]) + (ds[k] + Flat(ds[k + 1..])) && |Flat(ds[..k])| == 64 * k
  {
    hide Flat;
    var before, one, after := ds[..k], [ds[k]], ds[k + 1..];
    assert ds == before + (one + after);
    FlatConcat(before, one + after);
    FlatConcat(one, after);
    FlatOne(ds[k]);
  }

  /** Overwriting inside one segment overwrites inside the list. */
  lemma FlatPatched(ds: seq<Data>, k: nat, at: nat, data: seq<byte>)
    requires k < |ds| && at + |data| <= 64
    ensures Flat(ds[k := Patched(ds[k], at, data)]) == Patched(Flat(ds), 64 * k + at, data)
  {
    hide Flat, Patched;
    var cell := Patched(ds[k], at, data);
    var ds' := ds[k := cell];
    assert ds'[..k] == ds[..k] && ds'[k + 1..] == ds[k + 1..];
    FlatAround(ds, k);
    FlatAround(ds', k);
    PatchedMiddle(Flat(ds[..k]), ds[k], Flat(ds[k + 1..]), at, data);
  }

  lemma FlatOne(d: Data)
    ensures Flat([d]) == d
  {
    assert [d][1..] == [];
  }

  lemma PatchedMiddle(a: seq<byte>, m: seq<byte>, b: seq<byte>, at: nat, data: seq<byte>)
    requires at + |data| <= |m|
    ensures Patched(a + (m + b), |a| + at, data) == a + (Patched(m, at, data) + b)
  {
  }

  lemma SubOfMiddle(a: seq<byte>, m: seq<byte>, b: seq<byte>, at: nat, n: nat)
    requires at + n <= |m|
    ensures Sub(a + (m + b), |a| + at, n) == Sub(m, at, n)
  {
    assert (a + (m + b))[|a| + at..|a| + at + n] == (m + b)[at..at + n];
  }

  lemma FlatPart(ds: seq<Data>, k: nat, at: nat, n: nat)
    requires k < |ds| && at + n <= 64
    ensures Sub(Flat(ds), 64 * k + at, n) == Sub(ds[k], at, n)
  {
    hide Flat, Sub;
    FlatAround(ds, k);
    SubOfMiddle(Flat(ds[..k]), ds[k], Flat(ds[k + 1..]), at, n);
  }

  /** How many segments hold size bytes after an offset into the first. */
  function SegCount(offset: nat, size: nat): (n: nat)
    ensures offset < 64 ==> offset + size <= 64 * n || size == 0
  {
    if size == 0 then 0 else 1 + (offset + size - 1) / 64
  }

  /** That is the least number of segments that will do. */
  lemma SegCountIsLeast(offset: nat, size: nat, n: nat)
    requires offset < 64
    ensures SegCount(offset, size) <= n <==> size == 0 || offset + size <= 64 * n
  {
  }

  /** Overwriting bytes of a view overwrites bytes of the list. */
  lemma PatchedInside(s: seq<byte>, offset: nat, size: nat, at: nat, data: seq<byte>)
    requires offset + size <= |s| && at + |data| <= size
    ensures Sub(Patched(s, offset + at, data), offset, size) == Patched(Sub(s, offset, size), at, data)
  {
  }

  /** Overwriting all that lies after, or before, what is kept. */
  lemma PatchedEnds(s: seq<byte>, data: seq<byte>)
    requires |data| <= |s|
    ensures Patched(s, |s| - |data|, data) == s[..|s| - |data|] + data
    ensures Patched(s, 0, data) == data + s[|data|..]
  {
  }

  /** Dropping whole segments at the start. */
  lemma ShrunkAtStart(ds: seq<Data>, k: nat, offset: nat, size: nat, size': nat)
    requires size' <= size && offset + size <= 64 * |ds| && k <= |ds| && offset + size - size' >= 64 * k
    ensures View(ds[k..], offset + size - size' - 64 * k, size') == View(ds, offset, size)[size - size'..]
  {
    hide Flat, View;
    assert ds == ds[..k] + ds[k..];
    ViewOfSecond(ds[..k], ds[k..], offset + size - size' - 64 * k, size');
    ViewOfView(ds, offset, size, size - size', size');
  }

  /** How the count of segments grows with the size, and shrinks when segments in front are dropped. */
  lemma SegCountGrows(offset: nat, size: nat, size': nat)
    requires size < size' && offset < 64 && (size == 0 ==> offset == 0)
    ensures SegCount(offset, size') == 1 + (offset + size' - 1) / SEG
    ensures SegCount(offset, size) <= SegCount(offset, size') && offset + size' <= 64 * SegCount(offset, size')
    ensures offset + size <= 64 * SegCount(offset, size)
  {
  }

  lemma SegCountIs(offset: nat, size: nat, n: nat)
    requires size > 0 && 64 * (n - 1) < offset + size <= 64 * n
    ensures SegCount(offset, size) == n
  {
  }

  /** Sizes that end at the same byte of the same segment, k segments more in front of one. */
  lemma SegCountShifts(offset: nat, size: nat, offset': nat, size': nat, k: nat)
    requires offset' + size' == 64 * k + offset + size && 0 < size' && offset < 64
    requires size == 0 ==> offset == 0
    ensures SegCount(offset', size') == k + SegCount(offset, size)
  {
  }

  lemma SegCountCovers(offset: nat, size: nat)
    requires offset < 64 && (size == 0 ==> offset == 0)
    ensures offset + size <= 64 * SegCount(offset, size)
  {
  }
}
