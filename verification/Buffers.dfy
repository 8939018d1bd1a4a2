/** Data buffers: a size, an offset into the first segment, and a list of segments from the pool. */
module Buffers {
  import opened Words
  import opened Mempool
  import opened SegmentBytes
  import opened SegmentCopy
  import opened SegmentLists

  const MAX_SIZE: nat := 0xFFFF

  /** The offset at which a first segment is entered by bytes that go before an offset. */
  function OffsetBefore(offset: nat, extra: nat): (r: nat)
    ensures r < 64 && exists k: int :: r + extra == 64 * k + offset
  {
    DivisionSplits(offset - extra, 64);
    var r := (offset - extra) % 64;
    assert r + extra == 64 * -((offset - extra) / 64) + offset;
    r
  }

  /** Bytes that go before others take up as many more segments as whole ones have to be put in front. */
  lemma SegCountBefore(offset: nat, size: nat, extra: nat, offset': nat, k: nat)
    requires offset < 64 && (size == 0 ==> offset == 0) && extra > 0
    requires offset' < 64 && offset' + extra == 64 * k + offset
    ensures OffsetBefore(offset, extra) == offset' && SegCount(offset', size + extra) == SegCount(offset, size) + k
  {
    var q: int := 0 - k as int;
    RemainderIs(offset - extra, 64, q, offset');
    SegCountShifts(offset, size, offset', size + extra, k);
  }

  class Buffer {
    var segmentList: Segment?
    var bufferSize: nat
    var bufferOffset: nat
    /** The segments of the list, in order. */
    ghost var segs: seq<Segment>

    /** The size and the offset account exactly for the segments. */
    ghost predicate Sized()
      reads this
    {
      && bufferSize <= MAX_SIZE && bufferOffset < SEG && (bufferSize == 0 ==> bufferOffset == 0)
      && |segs| == SegCount(bufferOffset, bufferSize)
    }

    /** A buffer and the pool it draws on, with no segment in both. */
    ghost predicate With(pool: Pool)
      reads this, segs, pool, pool.free
    {
      Sized() && Linked(pool, segmentList, segs)
    }

    /** All the segments of the buffer and of the free list. */
    ghost function Total(pool: Pool): set<Segment>
      reads `segs, pool`free
    {
      Owned(segs) + Owned(pool.free)
    }

    /** Their number. */
    ghost function Count(pool: Pool): nat
      reads `segs, pool`free
    {
      |segs| + |pool.free|
    }

    /** The bytes that the buffer holds. */
    ghost function Contents(): (bytes: seq<byte>)
      reads this, segs
      requires Sized()
      ensures |bytes| == bufferSize
    {
      View(Datas(segs), bufferOffset, bufferSize)
    }

    constructor ()
      ensures Sized() && segs == [] && segmentList == null && bufferSize == 0
    {
      segmentList := null;
      bufferSize := 0;
      bufferOffset := 0;
      segs := [];
    }

    /** Discards the entire contents. */
    method DiscardContents(pool: Pool)
      requires With(pool)
      modifies this, pool, segs
      ensures With(pool) && segs == [] && bufferSize == 0
      ensures pool.free == old(segs) + old(pool.free)
    {
      if segmentList != null {
        pool.FreeSegments(segmentList, segs);
        segmentList := null;
        bufferSize := 0;
        bufferOffset := 0;
        segs := [];
      }
    }

    /** Discards the entire contents, beside another list that is left alone. */
    method DiscardBeside(pool: Pool, ghost list: Segment?, ghost ss: seq<Segment>)
      requires With(pool) && Linked(pool, list, ss) && Disjoint(ss, segs)
      modifies this, pool, segs
      ensures With(pool) && segs == [] && bufferSize == 0
      ensures pool.free == old(segs) + old(pool.free)
      ensures Linked(pool, list, ss) && Datas(ss) == old(Datas(ss))
    {
      hide View;
      DisjointJoin(segs, pool.free, ss);
      DiscardContents(pool);
      assert forall s :: s in ss ==> s.next == old(s.next) && s.bytes == old(s.bytes);
    }

    /** Discards the contents and makes room for size bytes, if the pool can provide it. */
    method Reset(pool: Pool, size: nat) returns (ok: bool)
      requires With(pool) && size <= MAX_SIZE
      modifies this, pool, pool.free, segs
      ensures With(pool) && bufferSize == (if ok then size else 0) && bufferOffset == 0
      ensures ok <==> SegCount(0, size) <= old(Count(pool))
      ensures Total(pool) == old(Total(pool)) && Count(pool) == old(Count(pool))
    {
      DiscardContents(pool);
      EmptyList();
      OwnedJoin(old(segs), old(pool.free));
      ok := true;
      if size > 0 {
        ghost var free := pool.free;
        segmentList := pool.AllocSegments(1 + (size - 1) / SEG);
        if segmentList != null {
          bufferSize := size;
          segs := free[..SegCount(0, size)];
          CutDistinct(free, |segs|);
        } else {
          ok := false;
        }
      }
    }

    /** Links segments from the pool to the end of the list, if there are enough. */
    method AttachAtEnd(pool: Pool, count: nat, last: Segment?) returns (ok: bool)
      requires Linked(pool, segmentList, segs) && last == if segs == [] then null else segs[|segs| - 1]
      modifies `segmentList, `segs, pool, pool.free, segs
      ensures Linked(pool, segmentList, segs) && ok == (count <= |old(pool.free)|)
      ensures |segs| == |old(segs)| + (if ok then count else 0)
      ensures Total(pool) == old(Total(pool)) && Count(pool) == old(Count(pool))
      ensures Datas(segs)[..|old(segs)|] == old(Datas(segs))
    {
      hide Linked, Owned;
      if count == 0 {
        return true;
      }
      TotalAfterTake(segs, pool.free, count);
      ok, segmentList, segs := TakeAtEnd(pool, segmentList, last, count, segs);
    }

    /** Grows the buffer at its end. */
    method IncrSizeEnd(pool: Pool, size: nat) returns (ok: bool)
      requires With(pool) && bufferSize < size <= MAX_SIZE
      modifies this, pool, pool.free, segs
      ensures With(pool) && bufferSize == (if ok then size else old(bufferSize)) && bufferOffset == old(bufferOffset)
      ensures ok <==> SegCount(old(bufferOffset), size) <= old(Count(pool))
      ensures Total(pool) == old(Total(pool)) && Count(pool) == old(Count(pool))
      ensures Contents()[..old(bufferSize)] == old(Contents())
    {
      hide View, SegCount, Linked, IsList, At, Owned, Total, Datas, Contents;
      Listed(pool, segmentList, segs);
      ContentsAre();
      ghost var was := Datas(segs);
      SegCountGrows(bufferOffset, bufferSize, size);
      var segmentCount, last := CountSegments(segmentList, segs);
      var newSegmentCount := 1 - segmentCount + (bufferOffset + size - 1) / SEG;
      ok := AttachAtEnd(pool, newSegmentCount, last);
      if ok {
        bufferSize := size;
      }
      GrownAtEnd(was, Datas(segs), bufferOffset, old(bufferSize), bufferSize);
      ContentsAre();
    }

    /** Gives the segments from a position on back to the pool. */
    method ReleaseAfter(pool: Pool, ghost k: nat, last: Segment?, cursor: Segment?)
      requires Linked(pool, segmentList, segs) && 0 < k <= |segs| && cursor == At(segs, k) && last == segs[k - 1]
      modifies `segs, pool, segs
      ensures Linked(pool, segmentList, segs) && segs == old(segs)[..k]
      ensures Total(pool) == old(Total(pool)) && Count(pool) == old(Count(pool))
      ensures Datas(segs) == old(Datas(segs))[..k]
    {
      hide Linked, Owned;
      AtIs(segs);
      if cursor != null {
        DropAfter(pool, segmentList, k, last, cursor, segs);
        TotalAfterDrop(segs, old(pool.free), k);
        segs := segs[..k];
      }
    }

    /** Shrinks the buffer at its end, to a size above zero. */
    method DecrSizeEnd(pool: Pool, size: nat)
      requires With(pool) && 0 < size < bufferSize
      modifies this, pool, segs
      ensures With(pool) && bufferSize == size && bufferOffset == old(bufferOffset)
      ensures Total(pool) == old(Total(pool)) && Count(pool) == old(Count(pool))
      ensures Contents() == old(Contents())[..size]
    {
      hide View, SegCount, Linked, IsList, At, Owned, Total;
      Listed(pool, segmentList, segs);
      ghost var was := Datas(segs);
      SegCountGrows(bufferOffset, size, bufferSize);
      var last, cursor, k := BoundaryAfter(segmentList, bufferOffset + size, segs);
      ReleaseAfter(pool, k, last, cursor);
      bufferSize := size;
      SegCountIs(bufferOffset, size, k);
      GrownAtEnd(was[..k], was, bufferOffset, size, old(bufferSize));
    }

    /** Grows the buffer at its start. */
    method IncrSizeStart(pool: Pool, size: nat) returns (ok: bool)
      requires With(pool) && bufferSize < size <= MAX_SIZE
      modifies this, pool, pool.free
      ensures With(pool) && bufferSize == if ok then size else old(bufferSize)
      ensures bufferOffset == if ok then OffsetBefore(old(bufferOffset), size - old(bufferSize)) else old(bufferOffset)
      ensures ok <==> SegCount(OffsetBefore(old(bufferOffset), size - old(bufferSize)), size) <= old(Count(pool))
      ensures Total(pool) == old(Total(pool)) && Count(pool) == old(Count(pool))
      ensures Contents()[bufferSize - old(bufferSize)..] == old(Contents())
    {
      hide View, SegCount, OffsetBefore, IsList, Distinct, Disjoint, At, Owned, Pool.Valid;
      ghost var was := Datas(segs);
      var extraByteCount := size - bufferSize;
      if extraByteCount <= bufferOffset {
        bufferSize := size;
        bufferOffset := bufferOffset - extraByteCount;
        SegCountCovers(old(bufferOffset), old(bufferSize));
        SegCountBefore(old(bufferOffset), old(bufferSize), extraByteCount, bufferOffset, 0);
        GrownAtStart(was, was, old(bufferOffset), old(bufferSize), bufferOffset, size);
        return true;
      }
      ok := ExtendStart(pool, size);
    }

    /** Links segments from the pool to the start of the list, if there are enough. */
    method AttachAtStart(pool: Pool, count: nat) returns (ok: bool)
      requires Linked(pool, segmentList, segs) && count > 0
      modifies `segmentList, `segs, pool, pool.free
      ensures Linked(pool, segmentList, segs) && ok == (count <= |old(pool.free)|)
      ensures |segs| == |old(segs)| + (if ok then count else 0)
      ensures Total(pool) == old(Total(pool)) && Count(pool) == old(Count(pool))
      ensures Datas(segs)[|segs| - |old(segs)|..] == old(Datas(segs))
    {
      hide Linked, Owned;
      TotalAfterTake(segs, pool.free, count);
      ok, segmentList, segs := TakeAtStart(pool, segmentList, count, segs);
    }

    /** Grows the buffer at its start by whole segments. */
    method ExtendStart(pool: Pool, size: nat) returns (ok: bool)
      requires With(pool) && bufferSize + bufferOffset < size <= MAX_SIZE
      modifies this, pool, pool.free
      ensures With(pool) && bufferSize == if ok then size else old(bufferSize)
      ensures bufferOffset == if ok then OffsetBefore(old(bufferOffset), size - old(bufferSize)) else old(bufferOffset)
      ensures ok <==> SegCount(OffsetBefore(old(bufferOffset), size - old(bufferSize)), size) <= old(Count(pool))
      ensures Total(pool) == old(Total(pool)) && Count(pool) == old(Count(pool))
      ensures Contents()[bufferSize - old(bufferSize)..] == old(Contents())
    {
      hide View, SegCount, OffsetBefore, Linked, IsList, At, Owned, Total, Datas, Contents;
      Listed(pool, segmentList, segs);
      ContentsAre();
      ghost var was := Datas(segs);
      SegCountGrows(bufferOffset, bufferSize, size);
      var extraByteCount := size - bufferSize;
      var newSegmentCount := 1 + (extraByteCount - bufferOffset - 1) / SEG;
      var newOffset := bufferOffset - extraByteCount + newSegmentCount * SEG;
      SegCountBefore(bufferOffset, bufferSize, extraByteCount, newOffset, newSegmentCount);
      ok := AttachAtStart(pool, newSegmentCount);
      if ok {
        bufferSize, bufferOffset := size, newOffset;
      }
      GrownAtStart(was, Datas(segs), old(bufferOffset), old(bufferSize), bufferOffset, bufferSize);
      ContentsAre();
    }

    lemma ContentsAre()
      requires Sized()
      ensures Contents() == View(Datas(segs), bufferOffset, bufferSize)
    {
    }

    /** Gives the segments before a position back to the pool. */
    method ReleaseBefore(pool: Pool, segmentCount: nat, last: Segment?, cursor: Segment)
      requires Linked(pool, segmentList, segs) && segmentCount < |segs| && cursor == segs[segmentCount]
      requires segmentCount > 0 ==> last == segs[segmentCount - 1]
      modifies `segmentList, `segs, pool, segs
      ensures Linked(pool, segmentList, segs) && segs == old(segs)[segmentCount..]
      ensures Total(pool) == old(Total(pool)) && Count(pool) == old(Count(pool))
      ensures Datas(segs) == old(Datas(segs))[segmentCount..]
    {
      hide IsList, Distinct, Disjoint, Owned, Pool.Valid;
      if segmentCount > 0 {
        DropBefore(pool, segmentList, segmentCount, last, cursor, segs);
        TotalAfterDrop(segs, old(pool.free), segmentCount);
        segmentList, segs := cursor, segs[segmentCount..];
      }
    }

    /** Shrinks the buffer at its start, to a size above zero. */
    method DecrSizeStart(pool: Pool, size: nat)
      requires With(pool) && 0 < size < bufferSize
      modifies this, pool, segs
      ensures With(pool) && bufferSize == size
      ensures 64 * (|old(segs)| - |segs|) + bufferOffset == old(bufferOffset) + old(bufferSize) - size
      ensures Total(pool) == old(Total(pool)) && Count(pool) == old(Count(pool))
      ensures Contents() == old(Contents())[old(bufferSize) - size..]
    {
      hide View, SegCount, Linked, IsList, At, Owned, Total, Count, Datas, Contents;
      Listed(pool, segmentList, segs);
      ContentsAre();
      ghost var was, offset, whole := Datas(segs), bufferOffset, bufferSize;
      SegCountGrows(bufferOffset, size, bufferSize);
      var trimByteCount := bufferSize - size;
      var last, cursor, segmentCount := SegmentHolding(segmentList, bufferOffset + trimByteCount, segs);
      ReleaseBefore(pool, segmentCount, last, cursor);
      bufferSize, bufferOffset := size, bufferOffset + trimByteCount - segmentCount * SEG;
      assert bufferOffset == offset + whole - size - 64 * segmentCount;
      SegCountShifts(bufferOffset, size, offset, whole, segmentCount);
      ShrunkAtStart(was, segmentCount, offset, whole, size);
      ContentsAre();
    }

    /** Extends the buffer by a number of bytes at its end. */
    method Extend(pool: Pool, size: nat) returns (ok: bool)
      requires With(pool) && size <= MAX_SIZE
      modifies this, pool, pool.free, segs
      ensures With(pool) && bufferSize == (if ok then old(bufferSize) + size else old(bufferSize))
      ensures ok <==> size == 0 || (old(bufferSize) + size <= MAX_SIZE
                                    && SegCount(old(bufferOffset), old(bufferSize) + size) <= old(Count(pool)))
      ensures bufferOffset == old(bufferOffset)
      ensures Total(pool) == old(Total(pool)) && Count(pool) == old(Count(pool))
      ensures Contents()[..old(bufferSize)] == old(Contents())
    {
      hide View, SegCount, IsList, Distinct, Disjoint, Owned;
      var newBufferSize := bufferSize + size;
      if size == 0 {
        ok := true;
      } else if newBufferSize > 0xFFFF {
        ok := false;
      } else {
        ok := IncrSizeEnd(pool, newBufferSize);
      }
    }

    /** Resizes the buffer by moving its end. */
    method Resize(pool: Pool, size: nat) returns (ok: bool)
      requires With(pool) && size <= MAX_SIZE
      modifies this, pool, pool.free, segs
      ensures With(pool) && bufferSize == (if ok then size else old(bufferSize))
      ensures ok <==> size <= old(bufferSize) || SegCount(old(bufferOffset), size) <= old(Count(pool))
      ensures bufferOffset == (if size == 0 then 0 else old(bufferOffset))
      ensures Total(pool) == old(Total(pool)) && Count(pool) == old(Count(pool))
      ensures var kept := Min(bufferSize, old(bufferSize)); Contents()[..kept] == old(Contents())[..kept]
    {
      hide View, SegCount, IsList, Distinct, Disjoint, Owned;
      if size == 0 {
        OwnedJoin(segs, pool.free);
        EmptyList();
        DiscardContents(pool);
        ok := true;
      } else if size == bufferSize {
        ok := true;
      } else if size > bufferSize {
        ok := IncrSizeEnd(pool, size);
      } else {
        DecrSizeEnd(pool, size);
        ok := true;
      }
    }

    /** Resizes the buffer by moving its start. */
    method Rebase(pool: Pool, size: nat) returns (ok: bool)
      requires With(pool) && size <= MAX_SIZE
      modifies this, pool, pool.free, segs
      ensures With(pool) && bufferSize == (if ok then size else old(bufferSize))
      ensures ok <==> size <= old(bufferSize)
                      || SegCount(OffsetBefore(old(bufferOffset), size - old(bufferSize)), size) <= old(Count(pool))
      ensures 0 < size <= old(bufferSize) ==>
                64 * (|old(segs)| - |segs|) + bufferOffset == old(bufferOffset) + old(bufferSize) - size
      ensures size > old(bufferSize) ==>
                bufferOffset == if ok then OffsetBefore(old(bufferOffset), size - old(bufferSize)) else old(bufferOffset)
      ensures Total(pool) == old(Total(pool)) && Count(pool) == old(Count(pool))
      ensures var kept := Min(bufferSize, old(bufferSize));
              Contents()[bufferSize - kept..] == old(Contents())[old(bufferSize) - kept..]
    {
      hide View, SegCount, OffsetBefore, IsList, Distinct, Disjoint, Owned;
      if size == 0 {
        OwnedJoin(segs, pool.free);
        EmptyList();
        DiscardContents(pool);
        ok := true;
      } else if size == bufferSize {
        ok := true;
      } else if size > bufferSize {
        ok := IncrSizeStart(pool, size);
      } else {
        DecrSizeStart(pool, size);
        ok := true;
      }
    }

    /** Overwrites bytes of the buffer. */
    method CopyIn(pool: Pool, offset: nat, data: seq<byte>)
      requires With(pool) && offset + |data| <= bufferSize
      modifies Owned(segs)`bytes
      ensures With(pool) && Contents() == Patched(old(Contents()), offset, data)
    {
      hide Flat, Patched, Sub, SegCount, Datas, Owned;
      SegCountCovers(bufferOffset, bufferSize);
      PatchedInside(Flat(Datas(segs)), bufferOffset, bufferSize, offset, data);
      CopyToSegments(segmentList, bufferOffset + offset, data, segs);
    }

    /** Replaces bytes from an offset on, or nothing if they reach beyond the contents. */
    method Write(pool: Pool, offset: nat, data: seq<byte>) returns (ok: bool)
      requires With(pool)
      modifies Owned(segs)`bytes
      ensures With(pool) && ok == (offset + |data| <= bufferSize)
      ensures Contents() == if ok then Patched(old(Contents()), offset, data) else old(Contents())
    {
      if offset + |data| <= bufferSize {
        CopyIn(pool, offset, data);
        ok := true;
      } else {
        ok := false;
      }
    }

    /** Reads data from an offset. */
    method Read(pool: Pool, offset: nat, size: nat) returns (ok: bool, data: seq<byte>)
      requires With(pool)
      ensures ok == (offset + size <= bufferSize)
      ensures data == if ok then Contents()[offset..offset + size] else []
    {
      hide Flat, Sub, SegCount;
      if offset + size <= bufferSize {
        SegCountCovers(bufferOffset, bufferSize);
        data := CopyFromSegments(segmentList, bufferOffset + offset, size, segs);
        ViewOfView(Datas(segs), bufferOffset, bufferSize, offset, size);
        ok := true;
      } else {
        ok, data := false, [];
      }
    }

    lemma InTotal(pool: Pool)
      ensures forall s :: s in Total(pool) <==> s in segs || s in pool.free
      ensures forall s :: s in Owned(segs) <==> s in segs
    {
    }

    /** Overwrites bytes, of segments that may be written to. */
    method Fill(pool: Pool, offset: nat, data: seq<byte>, ghost total: set<Segment>)
      requires With(pool) && offset + |data| <= bufferSize && total == Total(pool)
      modifies total`bytes
      ensures With(pool) && Total(pool) == total && Contents() == Patched(old(Contents()), offset, data)
    {
      hide View, Linked, SegCount, Patched;
      InTotal(pool);
      CopyIn(pool, offset, data);
    }

    /** Appends data, extending the buffer as needed. */
    method Append(pool: Pool, data: seq<byte>) returns (ok: bool)
      requires With(pool) && |data| <= MAX_SIZE
      modifies this, pool, pool.free, segs
      ensures With(pool) && Contents() == if ok then old(Contents()) + data else old(Contents())
      ensures ok <==> data == [] || (old(bufferSize) + |data| <= MAX_SIZE
                                     && SegCount(old(bufferOffset), old(bufferSize) + |data|) <= old(Count(pool)))
      ensures bufferOffset == old(bufferOffset)
      ensures Total(pool) == old(Total(pool)) && Count(pool) == old(Count(pool))
    {
      hide View, SegCount, Linked, Patched, Total, Owned, Contents;
      ghost var was, total := Contents(), Total(pool);
      var offset := bufferSize;
      InTotal(pool);
      ok := Extend(pool, |data|);
      if ok {
        ghost var now := Contents();
        assert now[..offset] == was;
        PatchedEnds(now, data);
        Fill(pool, offset, data, total);
      }
    }

    /** Makes room before the contents.  The new size is narrowed to 16 bits. */
    method RoomBefore(pool: Pool, extra: nat) returns (ok: bool)
      requires With(pool) && bufferSize + extra <= MAX_SIZE
      modifies this, pool, pool.free, segs
      ensures With(pool) && bufferSize == old(bufferSize) + (if ok then extra else 0)
      ensures Contents()[bufferSize - old(bufferSize)..] == old(Contents())
      ensures ok <==> extra == 0 || SegCount(OffsetBefore(old(bufferOffset), extra), old(bufferSize) + extra) <= old(Count(pool))
      ensures bufferOffset == if ok then OffsetBefore(old(bufferOffset), extra) else old(bufferOffset)
      ensures Total(pool) == old(Total(pool)) && Count(pool) == old(Count(pool))
    {
      hide View, SegCount, OffsetBefore, Linked, Total, Count;
      RemainderIs(bufferSize + extra, 0x1_0000, 0, bufferSize + extra);
      ok := Rebase(pool, (bufferSize + extra) % 0x1_0000);
    }

    /** Prepends data, extending the buffer as needed. */
    method Prepend(pool: Pool, data: seq<byte>) returns (ok: bool)
      requires With(pool) && bufferSize + |data| <= MAX_SIZE
      modifies this, pool, pool.free, segs
      ensures With(pool) && Contents() == if ok then data + old(Contents()) else old(Contents())
      ensures ok <==> data == [] || SegCount(OffsetBefore(old(bufferOffset), |data|), old(bufferSize) + |data|) <= old(Count(pool))
      ensures bufferOffset == if ok then OffsetBefore(old(bufferOffset), |data|) else old(bufferOffset)
      ensures Total(pool) == old(Total(pool)) && Count(pool) == old(Count(pool))
    {
      hide View, SegCount, Linked, Patched, OffsetBefore, Total, Owned, Datas, Contents;
      InTotal(pool);
      ghost var was, total := Contents(), Total(pool);
      ok := RoomBefore(pool, |data|);
      if ok {
        PatchedEnds(Contents(), data);
        Fill(pool, 0, data, total);
      }
    }
  }

  lemma Listed(pool: Pool, list: Segment?, ss: seq<Segment>)
    requires Linked(pool, list, ss)
    ensures IsList(list, ss)
  {
  }

  lemma TotalAfterTake(segs: seq<Segment>, free: seq<Segment>, count: nat)
    ensures count <= |free| ==>
              && Owned(free[..count] + segs) + Owned(free[count..]) == Owned(segs) + Owned(free)
              && Owned(segs + free[..count]) + Owned(free[count..]) == Owned(segs) + Owned(free)
  {
    if count <= |free| {
      assert free == free[..count] + free[count..];
    }
  }

  lemma TotalAfterDrop(segs: seq<Segment>, free: seq<Segment>, k: nat)
    requires k <= |segs|
    ensures Owned(segs[..k]) + Owned(segs[k..] + free) == Owned(segs) + Owned(free)
    ensures Owned(segs[k..]) + Owned(segs[..k] + free) == Owned(segs) + Owned(free)
  {
    assert segs == segs[..k] + segs[k..];
  }
}
