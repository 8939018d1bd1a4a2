/** Replicating the whole contents of a buffer in another buffer. */
module BufferCopy {
  import opened Words
  import opened Mempool
  import opened SegmentBytes
  import opened SegmentLists
  import opened Buffers
  import opened BufferMoves

  /** Copies whole segments from one list to another of the same length. */
  method CopySegments(source: Segment?, target: Segment?, ghost from: seq<Segment>, ghost to: seq<Segment>)
    requires IsList(source, from) && IsList(target, to) && Distinct(to)
    requires |from| == |to| && Disjoint(to, from)
    modifies Owned(to)`bytes
    ensures Datas(to) == old(Datas(from))
  {
    var sourceSegment, targetSegment := source, target;
    ghost var k := 0;
    while sourceSegment != null && targetSegment != null
      invariant k <= |from| && sourceSegment == At(from, k) && targetSegment == At(to, k)
      invariant forall i :: 0 <= i < |from| ==> from[i].bytes == old(from[i].bytes)
      invariant forall i :: 0 <= i < k ==> to[i].bytes == from[i].bytes
      decreases |from| - k
    {
      assert from[k] !in to;
      targetSegment.bytes := sourceSegment.bytes;
      sourceSegment, targetSegment, k := sourceSegment.next, targetSegment.next, k + 1;
    }
  }

  method FillCopy(pool: Pool, list: Segment?, copy: Segment?, ghost ss: seq<Segment>, ghost cs: seq<Segment>)
    requires Linked(pool, list, ss) && Linked(pool, copy, cs) && Disjoint(cs, ss) && |cs| == |ss|
    modifies Owned(cs)`bytes
    ensures Linked(pool, list, ss) && Linked(pool, copy, cs) && pool.free == old(pool.free)
    ensures Datas(cs) == Datas(ss) == old(Datas(ss))
  {
    CopySegments(list, copy, ss, cs);
    assert forall s :: s in ss ==> s.bytes == old(s.bytes);
  }

  /** A list of free segments filled with copies of the segments of another list. */
  method Replicate(pool: Pool, list: Segment?, count: nat, ghost ss: seq<Segment>)
    returns (copy: Segment?, ghost cs: seq<Segment>)
    requires Linked(pool, list, ss) && |ss| == count > 0
    modifies pool, pool.free
    ensures Linked(pool, list, ss) && Datas(ss) == old(Datas(ss))
    ensures copy == null <==> count > |old(pool.free)|
    ensures copy == null ==> cs == [] && pool.free == old(pool.free)
    ensures copy != null ==> Linked(pool, copy, cs) && Disjoint(cs, ss) && Disjoint(ss, cs) && Datas(cs) == Datas(ss)
    ensures cs + pool.free == old(pool.free)
  {
    hide Distinct;
    ghost var free := pool.free;
    DisjointCut(ss, free, if count <= |free| then count else 0);
    copy := pool.AllocSegments(count);
    cs := [];
    assert forall s :: s in ss ==> s.next == old(s.next) && s.bytes == old(s.bytes);
    if copy != null {
      cs := free[..count];
      FillCopy(pool, list, copy, ss, cs);
      assert free == cs + pool.free;
    }
  }

  /** Replaces the contents of the destination by a copy of the source, if the pool can provide it. */
  method Copy(pool: Pool, source: Buffer, destination: Buffer) returns (ok: bool)
    requires source.With(pool) && destination.With(pool) && Apart(source, destination)
    modifies destination, pool, pool.free, destination.segs
    ensures source.With(pool) && destination.With(pool) && Apart(source, destination)
    ensures ok <==> |source.segs| <= old(destination.Count(pool))
    ensures destination.Contents() == if ok then source.Contents() else []
    ensures destination.bufferOffset == if ok then source.bufferOffset else 0
    ensures destination.Count(pool) == old(destination.Count(pool))
    ensures source.Contents() == old(source.Contents())
    ensures Joint(pool, source, destination) == old(Joint(pool, source, destination))
  {
    hide View, Distinct, IsList, Pool.Valid, Disjoint, Owned;
    EmptyList();
    OwnedJoin(old(destination.segs), old(pool.free));
    destination.DiscardBeside(pool, source.segmentList, source.segs);
    if source.bufferSize == 0 {
      return true;
    }
    var segmentCount := 1 + (source.bufferOffset + source.bufferSize - 1) / SEG;
    var copy, cs := Replicate(pool, source.segmentList, segmentCount, source.segs);
    OwnedJoin(cs, pool.free);
    ok := copy != null;
    if ok {
      destination.segmentList, destination.segs := copy, cs;
      destination.bufferSize, destination.bufferOffset := source.bufferSize, source.bufferOffset;
    }
  }
}
