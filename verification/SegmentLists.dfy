/** Growing and cutting segment lists, taking segments from the pool and giving them back. */
module SegmentLists {
  import opened Words
  import opened Mempool

  /** A list apart from the free list of a pool. */
  ghost predicate Linked(pool: Pool, list: Segment?, ss: seq<Segment>)
    reads pool, pool.free, ss
  {
    IsList(list, ss) && Distinct(ss) && pool.Valid() && Disjoint(ss, pool.free)
  }

  /** Follows a list to the segment boundary at or after a number of bytes. */
  method BoundaryAfter(list: Segment?, bytes: nat, ghost ss: seq<Segment>)
    returns (last: Segment?, cursor: Segment?, ghost k: nat)
    requires IsList(list, ss) && bytes <= 64 * |ss|
    ensures k <= |ss| && cursor == At(ss, k) && (k > 0 ==> last == ss[k - 1])
    ensures if bytes == 0 then k == 0 else 64 * (k - 1) < bytes <= 64 * k
  {
    var byteCount := 0;
    last, cursor, k := null, list, 0;
    while byteCount < bytes
      invariant k <= |ss| && byteCount == 64 * k && cursor == At(ss, k)
      invariant k > 0 ==> last == ss[k - 1] && 64 * (k - 1) < bytes
      decreases bytes - byteCount
    {
      byteCount := byteCount + SEG;
      last, cursor, k := cursor, cursor.next, k + 1;
    }
  }

  /** Follows a list to the segment that a byte lies in. */
  method SegmentHolding(list: Segment?, bytes: nat, ghost ss: seq<Segment>)
    returns (last: Segment?, cursor: Segment?, segmentCount: nat)
    requires IsList(list, ss) && bytes < 64 * |ss|
    ensures segmentCount < |ss| && cursor == ss[segmentCount] && (segmentCount > 0 ==> last == ss[segmentCount - 1])
    ensures 64 * segmentCount <= bytes < 64 * (segmentCount + 1)
  {
    last, cursor, segmentCount := null, list, 0;
    while bytes >= (segmentCount + 1) * SEG
      invariant segmentCount < |ss| && cursor == ss[segmentCount]
      invariant segmentCount > 0 ==> last == ss[segmentCount - 1]
      invariant bytes >= segmentCount * SEG
      decreases |ss| - segmentCount
    {
      last, cursor, segmentCount := cursor, cursor.next, segmentCount + 1;
    }
  }

  /** Links segments from the pool to the end of a list, if there are enough. */
  method TakeAtEnd(pool: Pool, list: Segment?, last: Segment?, count: nat, ghost ss: seq<Segment>)
    returns (ok: bool, list': Segment?, ghost ss': seq<Segment>)
    requires Linked(pool, list, ss) && count > 0 && last == if ss == [] then null else ss[|ss| - 1]
    modifies pool, pool.free, ss
    ensures Linked(pool, list', ss') && ok == (count <= |old(pool.free)|)
    ensures !ok ==> ss' == ss && list' == list && pool.free == old(pool.free)
    ensures ok ==> ss' == ss + old(pool.free)[..count] && pool.free == old(pool.free)[count..]
    ensures |ss'| >= |ss| && Datas(ss')[..|ss|] == old(Datas(ss))
  {
    ghost var free := pool.free;
    list', ss' := list, ss;
    var newSegments := pool.AllocSegments(count);
    assert forall s :: s in ss ==> s.next == old(s.next);
    if newSegments == null {
      return false, list, ss;
    }
    ghost var taken := free[..count];
    DisjointCut(ss, free, count);
    if last == null {
      list' := newSegments;
      assert ss + taken == taken;
    } else {
      assert last in ss && forall i :: 0 <= i < |pool.free| ==> pool.free[i] != last;
      LinkAfter(list, ss, last, newSegments, taken);
    }
    DisjointJoin(ss, taken, pool.free);
    ss' := ss + taken;
    ok := true;
  }

  /** Links segments from the pool to the start of a list, if there are enough. */
  method TakeAtStart(pool: Pool, list: Segment?, count: nat, ghost ss: seq<Segment>)
    returns (ok: bool, list': Segment?, ghost ss': seq<Segment>)
    requires Linked(pool, list, ss) && count > 0
    modifies pool, pool.free
    ensures Linked(pool, list', ss') && ok == (count <= |old(pool.free)|)
    ensures !ok ==> ss' == ss && list' == list && pool.free == old(pool.free)
    ensures ok ==> ss' == old(pool.free)[..count] + ss && pool.free == old(pool.free)[count..]
    ensures |ss'| >= |ss| && Datas(ss')[|ss'| - |ss|..] == old(Datas(ss))
  {
    ghost var free := pool.free;
    var newSegments := pool.AllocSegments(count);
    assert forall s :: s in ss ==> s.next == old(s.next);
    if newSegments == null {
      return false, list, ss;
    }
    ghost var taken := free[..count];
    DisjointCut(ss, free, count);
    var taking, last := CountSegments(newSegments, taken);
    assert last in taken && forall i :: 0 <= i < |pool.free| ==> pool.free[i] != last;
    LinkAfter(newSegments, taken, last, list, ss);
    DisjointJoin(taken, ss, pool.free);
    return true, newSegments, taken + ss;
  }

  /** Returns all segments after one to the pool. */
  method DropAfter(pool: Pool, list: Segment?, ghost k: nat, last: Segment, rest: Segment, ghost ss: seq<Segment>)
    requires Linked(pool, list, ss) && 0 < k < |ss| && last == ss[k - 1] && rest == ss[k]
    modifies pool, ss
    ensures Linked(pool, list, ss[..k]) && pool.free == ss[k..] + old(pool.free)
    ensures Datas(ss[..k]) == old(Datas(ss))[..k]
  {
    ghost var kept, cut := ss[..k], ss[k..];
    TailIsList(list, ss, k);
    CutDistinct(ss, k);
    KeepLinks(list, ss, k);
    pool.FreeSegments(rest, cut);
    assert last in kept && last !in cut && last !in old(pool.free);
    assert forall i :: 0 <= i < k ==> kept[i] in kept;
    last.next := null;
    CutList(kept, k);
    assert kept[..k] == kept;
    DisjointJoin(cut, old(pool.free), kept);
  }

  /** Returns all segments before one to the pool. */
  method DropBefore(pool: Pool, list: Segment?, ghost k: nat, last: Segment, rest: Segment, ghost ss: seq<Segment>)
    requires Linked(pool, list, ss) && 0 < k < |ss| && last == ss[k - 1] && rest == ss[k]
    modifies pool, ss
    ensures Linked(pool, rest, ss[k..]) && pool.free == ss[..k] + old(pool.free)
    ensures Datas(ss[k..]) == old(Datas(ss))[k..]
  {
    ghost var cut, kept := ss[..k], ss[k..];
    TailIsList(list, ss, k);
    CutDistinct(ss, k);
    KeepLinks(list, ss, k);
    CutOff(cut, last, rest, kept);
    DisjointCut(pool.free, ss, k);
    assert forall i :: 0 <= i < |pool.free| ==> pool.free[i] !in cut;
    pool.FreeSegments(list, cut);
    assert forall i :: 0 <= i < |kept| ==> kept[i] in kept;
    DisjointJoin(cut, old(pool.free), kept);
  }

  lemma KeepLinks(list: Segment?, ss: seq<Segment>, k: nat)
    requires IsList(list, ss) && 0 < k <= |ss|
    ensures list == ss[..k][0]
    ensures var kept := ss[..k]; forall i {:trigger kept[i].next} :: 0 <= i < k - 1 ==> kept[i].next == kept[i + 1]
  {
    var kept := ss[..k];
    forall i {:trigger kept[i].next} | 0 <= i < k - 1
      ensures kept[i].next == kept[i + 1]
    {
      assert ss[i].next == At(ss, i + 1);
    }
  }

  /** Ends a list with its last segment. */
  method CutOff(ghost cut: seq<Segment>, last: Segment, rest: Segment, ghost kept: seq<Segment>)
    requires cut != [] && last == cut[|cut| - 1] && Distinct(cut) && Disjoint(cut, kept) && IsList(rest, kept)
    requires forall i {:trigger cut[i].next} :: 0 <= i < |cut| - 1 ==> cut[i].next == cut[i + 1]
    modifies last`next
    ensures IsList(cut[0], cut) && IsList(rest, kept)
  {
    assert last in cut && forall i :: 0 <= i < |kept| ==> kept[i] != last;
    last.next := null;
    CutList(cut, |cut|);
    assert cut[..|cut|] == cut;
  }
}
