/** Byte streams: a queue of bytes in segments from the pool, written at its end, and read and pushed
    back at its head. */
module Streams {
  import opened Words
  import opened Mempool
  import opened SegmentBytes
  import opened SegmentCopy
  import opened SegmentLists

  class Stream {
    var segmentList: Segment?
    var size: nat
    const maxSize: nat
    var readOffset: nat
    var writeOffset: nat
    /** The segments of the list, in order. */
    ghost var segs: seq<Segment>

    /** The offsets account exactly for the bytes; there may be none. */
    ghost predicate Spans()
      reads this
    {
      && segs != [] && readOffset <= SEG && writeOffset <= SEG
      && readOffset + size == 64 * (|segs| - 1) + writeOffset
    }

    /** A stream with a segment list, in the middle of an operation. */
    ghost predicate Open(pool: Pool)
      reads this, segs, pool, pool.free
    {
      Spans() && Linked(pool, segmentList, segs)
    }

    /** Between operations there are segments only if there are bytes, and none without any. */
    ghost predicate With(pool: Pool)
      reads this, segs, pool, pool.free
    {
      && size <= maxSize <= 0xFFFF
      && if segs == [] then size == 0 && segmentList == null && pool.Valid()
         else Open(pool) && size > 0 && readOffset < SEG && writeOffset > 0
    }

    ghost function Total(pool: Pool): set<Segment>
      reads `segs, pool`free
    {
      Owned(segs) + Owned(pool.free)
    }

    ghost function Contents(): (bytes: seq<byte>)
      reads this, segs
      requires Spans() || (segs == [] && size == 0)
      ensures |bytes| == size
    {
      if segs == [] then [] else View(Datas(segs), readOffset, size)
    }

    /** The bytes that can be added without running out of segments. */
    ghost function Space(pool: Pool): int
      reads this, pool
    {
      (if segs == [] then 0 else SEG - writeOffset) + 64 * |pool.free|
    }

    constructor (maxStreamSize: nat)
      requires maxStreamSize <= 0xFFFF
      ensures segs == [] && size == 0 && segmentList == null && maxSize == maxStreamSize
    {
      segmentList, segs, size, maxSize, readOffset, writeOffset := null, [], 0, maxStreamSize, 0, 0;
    }

    /** The number of bytes that can be written. */
    method GetWriteCapacity(pool: Pool) returns (n: nat)
      requires With(pool)
      ensures n == Min(Space(pool), maxSize - size)
      // all the bytes of the segments but for those up to the last byte held
      ensures n == Min(64 * (|segs| + |pool.free|) - (if segs == [] then 0 else readOffset + size), maxSize - size)
    {
      var maxFreeBytes := if segmentList == null then 0 else SEG - writeOffset;
      var segments := pool.SegmentsAvailable();
      maxFreeBytes := maxFreeBytes + SEG * segments;
      var maxStreamBytes := maxSize - size;
      if maxFreeBytes < maxStreamBytes {
        maxStreamBytes := maxFreeBytes;
      }
      n := maxStreamBytes;
    }

    /** Finds the last segment. */
    method ListEnd(pool: Pool) returns (segment: Segment)
      requires Open(pool)
      ensures segment == segs[|segs| - 1]
    {
      segment := segmentList;
      ghost var k := 0;
      while segment.next != null
        invariant 0 <= k < |segs| && segment == segs[k]
        decreases |segs| - k
      {
        segment, k := segment.next, k + 1;
      }
    }

    /** Writes a block into the free part of the last segment. */
    method PutBlock(pool: Pool, segment: Segment, block: seq<byte>)
      requires Open(pool) && segment == segs[|segs| - 1] && writeOffset + |block| <= SEG
      modifies this`size, this`writeOffset, segment`bytes
      ensures Open(pool) && Contents() == old(Contents()) + block
      ensures size == old(size) + |block| && writeOffset == old(writeOffset) + |block|
      ensures Space(pool) == old(Space(pool)) - |block|
    {
      hide Flat, Patched, Sub, Linked, Datas;
      ghost var flat := Flat(Datas(segs));
      WriteInto(pool, segmentList, segs, |segs| - 1, segment, writeOffset, block);
      PatchedExtends(flat, readOffset, size, block);
      size, writeOffset := size + |block|, writeOffset + |block|;
    }

    /** Links a free segment to the end of the list. */
    method AddSegment(pool: Pool, last: Segment) returns (segment: Segment)
      requires Open(pool) && last == segs[|segs| - 1] && writeOffset == SEG && pool.free != []
      modifies this`segs, this`writeOffset, pool, pool.free, last`next
      ensures Open(pool) && Contents() == old(Contents()) && Space(pool) == old(Space(pool)) && Total(pool) == old(Total(pool))
      ensures segment == segs[|segs| - 1] && writeOffset == 0
      ensures |segs| == |old(segs)| + 1 && segs[..|old(segs)|] == old(segs) && segment == old(pool.free)[0]
    {
      hide View, Linked;
      ghost var was := Datas(segs);
      segment := AllocAtEnd(pool, segmentList, last, segs);
      segs := segs + [segment];
      writeOffset := 0;
      GrownAtEnd(was, Datas(segs), readOffset, size, size);
      OwnedJoin([segment], pool.free);
      OwnedJoin(old(segs), [segment]);
    }

    /** Starts the list of an empty stream with one segment. */
    method Start(pool: Pool, offset: nat) returns (segment: Segment)
      requires With(pool) && segs == [] && pool.free != [] && offset <= SEG
      modifies this, pool, pool.free
      ensures Open(pool) && Contents() == [] && segment == segs[|segs| - 1] && |segs| == 1
      ensures size == 0 && readOffset == offset && writeOffset == offset
      ensures Total(pool) == old(Total(pool)) && |pool.free| == |old(pool.free)| - 1
    {
      hide View, Distinct;
      ghost var free := pool.free;
      CutOne(free);
      segment := pool.Alloc();
      OneList(segment);
      segmentList, segs := segment, [segment];
      size, writeOffset, readOffset := 0, offset, offset;
      OwnedJoin([segment], pool.free);
    }

    /** Selects the last segment, allocating the first one if the stream is empty. */
    method LastSegment(pool: Pool) returns (segment: Segment)
      requires With(pool) && Space(pool) > 0
      modifies this, pool, pool.free
      ensures Open(pool) && segment == segs[|segs| - 1] && Contents() == old(Contents())
      ensures Space(pool) == old(Space(pool)) && Total(pool) == old(Total(pool)) && readOffset < SEG && size == old(size)
      ensures old(segs) != [] ==> segs == old(segs) && writeOffset == old(writeOffset) > 0
      ensures old(segs) == [] ==> writeOffset == 0
    {
      hide View, Distinct;
      if segmentList == null {
        segment := Start(pool, 0);
      } else {
        segment := ListEnd(pool);
      }
    }

    /** Writes data that there is room for. */
    method CommonWrite(pool: Pool, writeData: seq<byte>)
      requires With(pool) && writeData != [] && |writeData| <= Min(Space(pool), maxSize - size)
      modifies this, pool, Total(pool)
      ensures With(pool) && Contents() == old(Contents()) + writeData
      ensures Space(pool) == old(Space(pool)) - |writeData| && Total(pool) == old(Total(pool))
    {
      hide View, Linked, Total, Contents;
      InTotal(pool);
      var segment := LastSegment(pool);
      InTotal(pool);
      // the part that needs no new segment
      var copySize := Min(SEG - writeOffset, |writeData|);
      SplitJoin(Contents(), writeData, copySize);
      if copySize > 0 {
        PutBlock(pool, segment, writeData[..copySize]);
      }
      WriteRest(pool, segment, writeData[copySize..]);
    }

    /** Writes data into newly allocated segments. */
    method WriteRest(pool: Pool, last: Segment, writeData: seq<byte>)
      requires Open(pool) && last == segs[|segs| - 1] && (writeData == [] || writeOffset == SEG) && writeOffset > 0
      requires |writeData| <= Space(pool) && readOffset < SEG
      modifies this, pool, Total(pool)
      ensures Open(pool) && Contents() == old(Contents()) + writeData && readOffset == old(readOffset) && writeOffset > 0
      ensures Space(pool) == old(Space(pool)) - |writeData| && Total(pool) == old(Total(pool))
    {
      hide View, Linked, Total, Contents;
      ghost var was := Contents();
      InTotal(pool);
      var done, segment := 0, last;
      PartsJoin(was, writeData, 0, 0);
      while done < |writeData|
        invariant 0 <= done <= |writeData| && (done == |writeData| || writeOffset == SEG) && writeOffset > 0
        invariant Open(pool) && segment == segs[|segs| - 1] && readOffset == old(readOffset)
        invariant Contents() == was + writeData[..done]
        invariant Space(pool) == old(Space(pool)) - done && Total(pool) == old(Total(pool))
      {
        InTotal(pool);
        var copySize := Min(SEG, |writeData| - done);
        PartsJoin(was, writeData, done, copySize);
        segment := WriteNext(pool, segment, writeData[done..done + copySize]);
        done := done + copySize;
      }
      PartsJoin(was, writeData, done, 0);
    }

    /** Writes a block into one newly allocated segment. */
    method WriteNext(pool: Pool, last: Segment, block: seq<byte>) returns (segment: Segment)
      requires Open(pool) && last == segs[|segs| - 1] && writeOffset == SEG && pool.free != [] && 0 < |block| <= SEG
      modifies this, pool, pool.free, last`next
      ensures Open(pool) && segment == segs[|segs| - 1] && readOffset == old(readOffset) && writeOffset == |block|
      ensures Contents() == old(Contents()) + block
      ensures Space(pool) == old(Space(pool)) - |block| && Total(pool) == old(Total(pool))
    {
      hide View, Linked;
      segment := AddSegment(pool, last);
      PutBlock(pool, segment, block);
    }

    lemma InTotal(pool: Pool)
      ensures forall s :: s in segs || s in pool.free <==> s in Total(pool)
    {
    }

    /** Writes as much as there is room for. */
    method Write(pool: Pool, writeData: seq<byte>) returns (transferSize: nat)
      requires With(pool)
      modifies this, pool, Total(pool)
      ensures With(pool) && transferSize == Min(|writeData|, old(Min(Space(pool), maxSize - size)))
      ensures Contents() == old(Contents()) + writeData[..transferSize]
      ensures Space(pool) == old(Space(pool)) - transferSize && Total(pool) == old(Total(pool))
    {
      hide View, Linked;
      transferSize := GetWriteCapacity(pool);
      if transferSize > |writeData| {
        transferSize := |writeData|;
      }
      if transferSize > 0 {
        CommonWrite(pool, writeData[..transferSize]);
      }
    }

    /** Writes everything, or nothing. */
    method WriteAll(pool: Pool, writeData: seq<byte>) returns (ok: bool)
      requires With(pool)
      modifies this, pool, Total(pool)
      ensures With(pool) && ok == (|writeData| <= old(Min(Space(pool), maxSize - size)))
      ensures Contents() == if ok then old(Contents()) + writeData else old(Contents())
      ensures Space(pool) == old(Space(pool)) - (if ok then |writeData| else 0) && Total(pool) == old(Total(pool))
    {
      hide View, Linked;
      var capacity := GetWriteCapacity(pool);
      if capacity < |writeData| {
        return false;
      }
      if |writeData| > 0 {
        CommonWrite(pool, writeData);
      }
      ok := true;
    }

    /** Selects the last segment, or a new one if it is full. */
    method SegmentWithRoom(pool: Pool) returns (segment: Segment)
      requires With(pool) && Space(pool) > 0
      modifies this, pool, Total(pool)
      ensures Open(pool) && segment == segs[|segs| - 1] && writeOffset < SEG && Contents() == old(Contents())
      ensures Space(pool) == old(Space(pool)) && Total(pool) == old(Total(pool)) && readOffset < SEG && size == old(size)
    {
      hide View, Linked, Owned;
      InTotal(pool);
      segment := LastSegment(pool);
      if writeOffset == SEG {
        InTotal(pool);
        segment := AddSegment(pool, segment);
      }
    }

    /** Writes one byte. */
    method WriteByte(pool: Pool, writeByte: byte) returns (ok: bool)
      requires With(pool)
      modifies this, pool, Total(pool)
      ensures With(pool) && ok == (old(Min(Space(pool), maxSize - size)) > 0)
      ensures Contents() == if ok then old(Contents()) + [writeByte] else old(Contents())
      ensures Space(pool) == old(Space(pool)) - (if ok then 1 else 0) && Total(pool) == old(Total(pool))
    {
      hide View, Linked, Owned;
      var capacity := GetWriteCapacity(pool);
      if capacity == 0 {
        return false;
      }
      var segment := SegmentWithRoom(pool);
      InTotal(pool);
      PutBlock(pool, segment, [writeByte]);
      ok := true;
    }

    /** Writes a message after its size, or nothing. */
    method WriteMessage(pool: Pool, writeData: seq<byte>) returns (ok: bool)
      requires With(pool) && |writeData| <= 0xFFFF
      modifies this, pool, Total(pool)
      ensures With(pool) && ok == (|writeData| + 2 <= old(Min(Space(pool), maxSize - size)))
      ensures Contents() == if ok && writeData != [] then old(Contents()) + Frame(writeData) else old(Contents())
      ensures Total(pool) == old(Total(pool))
    {
      hide View, Linked;
      var capacity := GetWriteCapacity(pool);
      if capacity < |writeData| + 2 {
        return false;
      }
      if |writeData| > 0 {
        ghost var was := Contents();
        var lowOk := WriteByte(pool, |writeData| % 0x100);
        var highOk := WriteByte(pool, |writeData| / 0x100 % 0x100);
        CommonWrite(pool, writeData);
        FrameJoin(was, writeData);
      }
      ok := true;
    }

    /** Takes bytes from the first segment, and releases the segment when it has nothing more to give. */
    method TakeBlock(pool: Pool, copySize: nat) returns (data: seq<byte>)
      requires With(pool) && 0 < copySize <= Min(size, SEG - readOffset)
      modifies this, pool, Total(pool)
      ensures With(pool) && old(Contents()) == data + Contents() && |data| == copySize
      ensures Total(pool) == old(Total(pool))
    {
      hide View, SegCount;
      var segment := segmentList;
      InTotal(pool);
      data := segment.bytes[readOffset..readOffset + copySize];
      TakenBlock(segs, readOffset, size, copySize);
      readOffset, size := readOffset + copySize, size - copySize;
      if readOffset == SEG || size == 0 {
        Release(pool, segment);
      }
    }

    /** Returns the first segment, of which everything has been read, to the pool. */
    method Release(pool: Pool, segment: Segment)
      requires Open(pool) && segment == segs[0] && (size == 0 || readOffset == SEG) && size <= maxSize <= 0xFFFF
      requires writeOffset > 0
      modifies this, pool, segment
      ensures With(pool) && Contents() == old(Contents()) && Total(pool) == old(Total(pool))
    {
      hide View, Linked, Owned;
      ghost var was, rest := Datas(segs), segs[1..];
      if size > 0 {
        ShrunkAtStart(was, 1, SEG, size, size);
        assert View(was, SEG, size)[0..] == Contents();
      }
      TotalAfterFirst(segs, pool.free);
      ReleasedLink(pool, segmentList, segs);
      segmentList := ReleaseFirst(pool, segment, segmentList, segs);
      readOffset := 0;
      segs := rest;
      ReleasedLink(pool, segmentList, segs);
    }

    /** Reads data that there is. */
    method CommonRead(pool: Pool, readSize: nat) returns (readData: seq<byte>)
      requires With(pool) && readSize <= size
      modifies this, pool, Total(pool)
      ensures With(pool) && old(Contents()) == readData + Contents() && |readData| == readSize
      ensures Total(pool) == old(Total(pool))
    {
      hide View, Linked;
      ghost var was := Contents();
      readData := [];
      assert was == [] + was;
      while |readData| < readSize
        invariant With(pool) && |readData| <= readSize && readSize - |readData| <= size
        invariant was == readData + Contents() && Total(pool) == old(Total(pool))
        decreases readSize - |readData|
      {
        var block := TakeBlock(pool, Min(SEG - readOffset, readSize - |readData|));
        assert readData + (block + Contents()) == (readData + block) + Contents();
        readData := readData + block;
      }
    }

    /** Reads as much as there is. */
    method Read(pool: Pool, readSize: nat) returns (readData: seq<byte>)
      requires With(pool)
      modifies this, pool, Total(pool)
      ensures With(pool) && old(Contents()) == readData + Contents() && |readData| == Min(old(size), readSize)
      ensures Total(pool) == old(Total(pool))
    {
      var transferSize := size;
      if transferSize > readSize {
        transferSize := readSize;
      }
      readData := CommonRead(pool, transferSize);
    }

    /** Reads a number of bytes, or nothing. */
    method ReadAll(pool: Pool, readSize: nat) returns (ok: bool, readData: seq<byte>)
      requires With(pool)
      modifies this, pool, Total(pool)
      ensures With(pool) && ok == (readSize <= old(size)) && |readData| == (if ok then readSize else 0)
      ensures old(Contents()) == readData + Contents() && Total(pool) == old(Total(pool))
    {
      hide View, Linked;
      if size < readSize {
        ok, readData := false, [];
        assert [] + Contents() == Contents();
      } else {
        readData := CommonRead(pool, readSize);
        ok := true;
      }
    }

    /** Reads one byte. */
    method ReadByte(pool: Pool) returns (ok: bool, readByte: byte)
      requires With(pool)
      modifies this, pool, Total(pool)
      ensures With(pool) && ok == (old(size) > 0) && Total(pool) == old(Total(pool))
      ensures old(Contents()) == if ok then [readByte] + Contents() else Contents()
    {
      hide View, Linked;
      if size == 0 {
        return false, 0;
      }
      var data := TakeBlock(pool, 1);
      ok, readByte := true, data[0];
    }

    /** Looks at a byte without taking it. */
    method PeekByte(pool: Pool, offset: nat) returns (ok: bool, peekByte: byte)
      requires With(pool)
      ensures ok == (offset < size) && (ok ==> peekByte == Contents()[offset])
    {
      hide Flat, Sub;
      if size <= offset {
        return false, 0;
      }
      var segment, residualOffset, k := Skip(segmentList, offset + readOffset, segs);
      FlatPart(Datas(segs), k, residualOffset, 1);
      ViewOfView(Datas(segs), readOffset, size, offset, 1);
      assert Contents()[offset..offset + 1][0] == Contents()[offset];
      assert Sub(segment.bytes, residualOffset, 1)[0] == segment.bytes[residualOffset] by { SubOne(segment.bytes, residualOffset); }
      ok, peekByte := true, segment.bytes[residualOffset];
    }

    /** Reads a message after its size, if all of it is there and it fits. */
    method ReadMessage(pool: Pool, readSize: nat) returns (count: nat, readData: seq<byte>)
      requires With(pool) && readSize <= 0xFFFF
      modifies this, pool, Total(pool)
      ensures With(pool) && Total(pool) == old(Total(pool))
      ensures var bytes := old(Contents());
              if !HasMessage(bytes) then count == 0 && readData == [] && Contents() == bytes
              else if MessageSize(bytes) > readSize then count == 0xFFFF && readData == [] && Contents() == bytes
              else count == MessageSize(bytes) == |readData| && bytes == Frame(readData) + Contents()
    {
      hide View, Linked;
      ghost var bytes := Contents();
      readData := [];
      var lowOk, msgSizeLow := PeekByte(pool, 0);
      if !lowOk {
        return 0, [];
      }
      var highOk, msgSizeHigh := PeekByte(pool, 1);
      if !highOk {
        return 0, [];
      }
      var msgSize := Word(msgSizeLow, msgSizeHigh);
      if size < msgSize + 2 {
        return 0, [];
      }
      if msgSize > readSize {
        return 0xFFFF, [];
      }
      lowOk, msgSizeLow := ReadByte(pool);
      highOk, msgSizeHigh := ReadByte(pool);
      if msgSize > 0 {
        readData := CommonRead(pool, msgSize);
      } else {
        assert [] + Contents() == Contents();
      }
      FrameSplit(bytes, readData, Contents());
      count := msgSize;
    }

    // ---- pushing back

    ghost function PushSpace(pool: Pool): int
      reads this, pool
    {
      (if segs == [] then 0 else readOffset) + 64 * |pool.free|
    }

    /** The number of bytes that can be pushed back. */
    method GetPushBackCapacity(pool: Pool) returns (n: nat)
      requires With(pool)
      ensures n == Min(PushSpace(pool), maxSize - size)
      // all the bytes of the segments but for those held and those after the last of them
      ensures n == Min(64 * (|segs| + |pool.free|) - size - (if segs == [] then 0 else SEG - writeOffset), maxSize - size)
    {
      var maxFreeBytes := if segmentList == null then 0 else readOffset;
      var segments := pool.SegmentsAvailable();
      maxFreeBytes := maxFreeBytes + SEG * segments;
      var maxStreamBytes := maxSize - size;
      if maxFreeBytes < maxStreamBytes {
        maxStreamBytes := maxFreeBytes;
      }
      n := maxStreamBytes;
    }

    /** Writes a block into the free part of the first segment. */
    method PutFront(pool: Pool, segment: Segment, block: seq<byte>)
      requires Open(pool) && segment == segs[0] && |block| <= readOffset
      modifies this`size, this`readOffset, segment`bytes
      ensures Open(pool) && Contents() == block + old(Contents())
      ensures size == old(size) + |block| && readOffset == old(readOffset) - |block|
      ensures PushSpace(pool) == old(PushSpace(pool)) - |block|
    {
      hide Flat, Patched, Sub, Linked, Datas;
      ghost var flat := Flat(Datas(segs));
      var copyOffset := readOffset - |block|;
      WriteInto(pool, segmentList, segs, 0, segment, copyOffset, block);
      PatchedPrecedes(flat, readOffset, size, block);
      size, readOffset := size + |block|, copyOffset;
    }

    /** Puts a segment from the pool in front of the others. */
    method LinkFront(pool: Pool) returns (segment: Segment)
      requires Linked(pool, segmentList, segs) && segs != [] && pool.free != []
      modifies `segmentList, `segs, pool, pool.free
      ensures Linked(pool, segmentList, segs) && segs == [segment] + old(segs) && segment in old(pool.free)
      ensures Datas(segs)[1..] == old(Datas(segs))
      ensures Total(pool) == old(Total(pool)) && |pool.free| == |old(pool.free)| - 1
    {
      hide Linked, Owned;
      ghost var so := segs;
      segment := AllocAtStart(pool, segmentList, segs);
      segmentList := segment;
      segs := [segment] + segs;
      OwnedJoin([segment], pool.free);
      OwnedJoin([segment], so);
    }

    /** Makes room for another segment of bytes before those there are. */
    method AddFront(pool: Pool) returns (segment: Segment)
      requires Open(pool) && readOffset == 0 && pool.free != []
      modifies this, pool, pool.free
      ensures Open(pool) && Contents() == old(Contents()) && size == old(size) && writeOffset == old(writeOffset)
      ensures PushSpace(pool) == old(PushSpace(pool)) && Total(pool) == old(Total(pool))
      ensures segment == segs[0] && readOffset == SEG && segment in old(pool.free)
    {
      hide View, Linked, Owned, Total;
      ghost var was := Datas(segs);
      segment := LinkFront(pool);
      readOffset := SEG;
      GrownAtStart(was, Datas(segs), 0, size, SEG, size);
      assert View(Datas(segs), SEG, size)[0..] == View(Datas(segs), SEG, size);
    }

    /** Puts data back before the bytes there are, or does nothing. */
    method PushBack(pool: Pool, pushBackData: seq<byte>) returns (ok: bool)
      requires With(pool) && pushBackData != []
      modifies this, pool, Total(pool)
      ensures With(pool) && Total(pool) == old(Total(pool))
      ensures ok == (|pushBackData| <= old(Min(PushSpace(pool), maxSize - size)))
      ensures Contents() == if ok then pushBackData + old(Contents()) else old(Contents())
    {
      hide View, Linked;
      var capacity := GetPushBackCapacity(pool);
      if capacity < |pushBackData| {
        return false;
      }
      PushData(pool, pushBackData);
      ok := true;
    }

    method PushData(pool: Pool, pushBackData: seq<byte>)
      requires With(pool) && pushBackData != [] && |pushBackData| <= Min(PushSpace(pool), maxSize - size)
      modifies this, pool, Total(pool)
      ensures With(pool) && Total(pool) == old(Total(pool)) && Contents() == pushBackData + old(Contents())
    {
      hide View, Linked;
      ghost var was := Contents();
      InTotal(pool);
      var segment := FirstSegment(pool);
      InTotal(pool);
      // the part that needs no new segment
      var copySize := Min(readOffset, |pushBackData|);
      var remaining := |pushBackData| - copySize;
      SplitJoin(was, pushBackData, remaining);
      if copySize > 0 {
        PutFront(pool, segment, pushBackData[remaining..]);
      }
      PushRest(pool, pushBackData[..remaining]);
    }

    /** Selects the first segment, allocating one if the stream is empty. */
    method FirstSegment(pool: Pool) returns (segment: Segment)
      requires With(pool) && PushSpace(pool) > 0
      modifies this, pool, pool.free
      ensures Open(pool) && segment == segs[0] && Contents() == old(Contents()) && writeOffset > 0
      ensures PushSpace(pool) == old(PushSpace(pool)) && Total(pool) == old(Total(pool)) && size == old(size)
    {
      hide View, Distinct;
      if segmentList == null {
        segment := Start(pool, SEG);
      } else {
        segment := segmentList;
      }
    }

    /** Pushes data back into newly allocated segments, from its end on. */
    method PushRest(pool: Pool, data: seq<byte>)
      requires Open(pool) && (data == [] || readOffset == 0) && |data| <= PushSpace(pool) && writeOffset > 0
      requires data == [] ==> readOffset < SEG
      modifies this, pool, Total(pool)
      ensures Open(pool) && Contents() == data + old(Contents()) && readOffset < SEG && writeOffset > 0
      ensures Total(pool) == old(Total(pool))
    {
      hide View, Linked, Contents;
      ghost var was := Contents();
      var remaining := |data|;
      PartsBefore(was, data, remaining, 0);
      while remaining > 0
        invariant 0 <= remaining <= |data| && (remaining == 0 || readOffset == 0) && readOffset < SEG && writeOffset > 0
        invariant Open(pool) && Contents() == data[remaining..] + was
        invariant remaining <= PushSpace(pool) && Total(pool) == old(Total(pool))
      {
        InTotal(pool);
        var copySize := Min(SEG, remaining);
        PartsBefore(was, data, remaining, copySize);
        PushNext(pool, data[remaining - copySize..remaining]);
        remaining := remaining - copySize;
      }
      PartsBefore(was, data, 0, 0);
    }

    /** Pushes a block back into one newly allocated segment. */
    method PushNext(pool: Pool, block: seq<byte>)
      requires Open(pool) && readOffset == 0 && pool.free != [] && 0 < |block| <= SEG
      modifies this, pool, pool.free
      ensures Open(pool) && Contents() == block + old(Contents()) && readOffset == SEG - |block|
      ensures writeOffset == old(writeOffset)
      ensures PushSpace(pool) == old(PushSpace(pool)) - |block| && Total(pool) == old(Total(pool))
    {
      hide View, Linked;
      var segment := AddFront(pool);
      PutFront(pool, segment, block);
    }
  }

  lemma PatchedPrecedes(flat: seq<byte>, from: nat, size: nat, block: seq<byte>)
    requires |block| <= from && from + size <= |flat|
    ensures Sub(Patched(flat, from - |block|, block), from - |block|, size + |block|) == block + Sub(flat, from, size)
  {
  }

  /** Takes a segment from the pool and links it to the start of a list. */
  method AllocAtStart(pool: Pool, list: Segment?, ghost ss: seq<Segment>) returns (segment: Segment)
    requires Linked(pool, list, ss) && pool.free != []
    modifies pool, pool.free
    ensures Linked(pool, segment, [segment] + ss)
    ensures old(pool.free) == [segment] + pool.free && Datas(ss) == old(Datas(ss))
  {
    hide Distinct;
    ghost var free := pool.free;
    DisjointCut(ss, free, 1);
    segment := pool.Alloc();
    CutOne(free);
    OneList(segment);
    assert forall s :: s in ss ==> s.next == old(s.next) && s.bytes == old(s.bytes);
    assert forall i :: 0 <= i < |pool.free| ==> pool.free[i] != segment;
    segment.next := list;
    JoinLists([segment], ss);
    JoinDistinct([segment], ss);
  }

  function Word(low: nat, high: nat): nat {
    high * 0x100 + low
  }

  /** The size that a message header gives. */
  function MessageSize(bytes: seq<byte>): (n: nat)
    requires |bytes| >= 2
  {
    Word(bytes[0], bytes[1])
  }

  predicate HasMessage(bytes: seq<byte>) {
    |bytes| >= 2 && |bytes| >= MessageSize(bytes) + 2
  }

  lemma FrameSplit(bytes: seq<byte>, message: seq<byte>, rest: seq<byte>)
    requires |bytes| >= 2 && |message| == MessageSize(bytes) && bytes == [bytes[0]] + ([bytes[1]] + (message + rest))
    ensures bytes == Frame(message) + rest
  {
  }

  lemma SubOne(s: seq<byte>, i: nat)
    requires i < |s|
    ensures Sub(s, i, 1)[0] == s[i]
  {
  }

  /** A message after its size, low byte first. */
  function Frame(message: seq<byte>): (bytes: seq<byte>)
    ensures |bytes| == |message| + 2
  {
    [|message| % 0x100, |message| / 0x100 % 0x100] + message
  }

  /** The first two bytes give the size, the less significant one first, and the others are the message. */
  lemma FrameIs(message: seq<byte>)
    requires |message| <= 0xFFFF
    ensures var low: int, high: int := Frame(message)[0], Frame(message)[1];
            |message| == low + 0x100 * high && Frame(message)[2..] == message
  {
    DivisionSplits(|message|, 0x100);
    RemainderIs(|message| / 0x100, 0x100, 0, |message| / 0x100);
  }

  lemma PartsJoin(was: seq<byte>, data: seq<byte>, done: nat, n: nat)
    requires done + n <= |data|
    ensures was + data[..done] + data[done..done + n] == was + data[..done + n]
    ensures was + data[..0] == was && data[..|data|] == data
  {
  }

  lemma SplitJoin(was: seq<byte>, data: seq<byte>, k: nat)
    requires k <= |data|
    ensures was + data[..k] + data[k..] == was + data && (k == 0 ==> was + data[k..] == was + data)
    ensures data[..k] + (data[k..] + was) == data + was && (k == |data| ==> data[..k] + was == data + was)
  {
  }

  lemma PartsBefore(was: seq<byte>, data: seq<byte>, remaining: nat, n: nat)
    requires n <= remaining <= |data|
    ensures data[remaining - n..remaining] + (data[remaining..] + was) == data[remaining - n..] + was
    ensures data[|data|..] + was == was && data[0..] == data
  {
  }

  lemma FrameJoin(was: seq<byte>, message: seq<byte>)
    ensures was + [|message| % 0x100] + [|message| / 0x100 % 0x100] + message == was + Frame(message)
  {
  }

  /** The bytes of the first segment from the read offset on come first. */
  lemma TakenBlock(segs: seq<Segment>, offset: nat, size: nat, n: nat)
    requires segs != [] && n <= size && offset + n <= SEG && offset + size <= 64 * |segs|
    ensures View(Datas(segs), offset, size) == segs[0].bytes[offset..offset + n] + View(Datas(segs), offset + n, size - n)
  {
    hide Flat;
    var ds := Datas(segs);
    FlatPart(ds, 0, offset, n);
    var flat := Flat(ds);
    assert flat[offset..offset + size] == flat[offset..offset + n] + flat[offset + n..offset + size];
  }

  method WriteInto(pool: Pool, ghost list: Segment?, ghost ss: seq<Segment>, ghost k: nat, segment: Segment, at: nat, block: seq<byte>)
    requires Linked(pool, list, ss) && k < |ss| && segment == ss[k] && at + |block| <= 64
    modifies segment`bytes
    ensures Linked(pool, list, ss)
    ensures Flat(Datas(ss)) == Patched(old(Flat(Datas(ss))), 64 * k + at, block)
  {
    hide Flat, Patched, Datas, Distinct, Disjoint;
    WriteBlock(list, ss, k, segment, at, block);
  }

  /** Unlinks the first segment of a list and returns it to the pool. */
  method ReleaseFirst(pool: Pool, segment: Segment, list: Segment?, ghost ss: seq<Segment>) returns (rest: Segment?)
    requires Linked(pool, list, ss) && ss != [] && segment == ss[0]
    modifies pool, segment
    ensures Linked(pool, rest, ss[1..]) && pool.free == [segment] + old(pool.free)
    ensures Datas(ss[1..]) == old(Datas(ss))[1..]
  {
    hide Pool.Valid, Distinct, Disjoint, IsList;
    FirstCut(list, ss, pool.free);
    rest := segment.next;
    pool.Free(segment);
    assert forall i :: 0 <= i < |ss[1..]| ==> ss[1..][i] in ss[1..];
  }

  lemma FirstCut(list: Segment?, ss: seq<Segment>, free: seq<Segment>)
    requires IsList(list, ss) && Distinct(ss) && Disjoint(ss, free) && ss != []
    ensures IsList(ss[0].next, ss[1..]) && Distinct(ss[1..]) && ss[0] !in ss[1..] && ss[0] !in free
    ensures Disjoint(ss[1..], [ss[0]] + free)
  {
    TailIsList(list, ss, 1);
    CutDistinct(ss, 1);
    assert ss[0].next == At(ss, 1);
  }

  lemma ReleasedLink(pool: Pool, list: Segment?, ss: seq<Segment>)
    requires Linked(pool, list, ss)
    ensures pool.Valid() && (ss == [] ==> list == null)
  {
  }

  /** Giving the first segment back changes nothing about who owns what between them. */
  lemma TotalAfterFirst(ss: seq<Segment>, free: seq<Segment>)
    requires ss != []
    ensures Owned(ss[1..]) + Owned([ss[0]] + free) == Owned(ss) + Owned(free)
  {
    assert ss == [ss[0]] + ss[1..];
  }

  /** Takes a segment from the pool and links it to the end of a list. */
  method AllocAtEnd(pool: Pool, list: Segment?, last: Segment, ghost ss: seq<Segment>) returns (segment: Segment)
    requires Linked(pool, list, ss) && ss != [] && last == ss[|ss| - 1] && pool.free != []
    modifies pool, pool.free, last`next
    ensures Linked(pool, list, ss + [segment])
    ensures old(pool.free) == [segment] + pool.free && Datas(ss) == old(Datas(ss))
  {
    hide Distinct;
    ghost var free := pool.free;
    DisjointCut(ss, free, 1);
    segment := pool.Alloc();
    assert forall s :: s in ss ==> s.next == old(s.next) && s.bytes == old(s.bytes);
    CutOne(free);
    LinkNew(pool, list, ss, last, segment);
  }

  lemma CutOne(free: seq<Segment>)
    requires free != [] && Distinct(free)
    ensures free == [free[0]] + free[1..] && free[0] !in free[1..] && free[0] in free
  {
  }

  lemma PatchedExtends(flat: seq<byte>, from: nat, size: nat, block: seq<byte>)
    requires from + size + |block| <= |flat|
    ensures Sub(Patched(flat, from + size, block), from, size + |block|) == Sub(flat, from, size) + block
  {
  }

  /** Links one new segment to the end of a list. */
  method LinkNew(pool: Pool, list: Segment?, ghost ss: seq<Segment>, last: Segment, segment: Segment)
    requires Linked(pool, list, ss) && ss != [] && last == ss[|ss| - 1]
    requires segment !in ss && segment !in pool.free && segment.next == null
    modifies last`next
    ensures Linked(pool, list, ss + [segment])
  {
    hide Pool.Valid;
    OneList(segment);
    assert forall i :: 0 <= i < |pool.free| ==> pool.free[i] != last by { assert last in ss; }
    LinkAfter(list, ss, last, segment, [segment]);
  }

  lemma OneList(segment: Segment)
    requires segment.next == null
    ensures IsList(segment, [segment]) && Distinct([segment])
  {
  }
}
