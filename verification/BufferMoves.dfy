/** Operations on several buffers: moving, copying and concatenating their contents. */
module BufferMoves {
  import opened Words
  import opened Mempool
  import opened SegmentBytes
  import opened SegmentCopy
  import opened SegmentLists
  import opened Buffers

  /** Two buffers that share nothing. */
  ghost predicate Apart(a: Buffer, b: Buffer)
    reads a, b
  {
    a != b && Disjoint(a.segs, b.segs) && Disjoint(b.segs, a.segs)
  }

  /** Transfers the contents of one buffer into another without copying. */
  method Move(pool: Pool, source: Buffer, destination: Buffer)
    requires source.With(pool) && destination.With(pool) && Apart(source, destination)
    modifies source, destination, pool, destination.segs
    ensures source.With(pool) && destination.With(pool) && Apart(source, destination)
    ensures destination.Contents() == old(source.Contents()) && source.Contents() == []
    ensures destination.segs == old(source.segs) && source.segs == []
    ensures destination.bufferOffset == old(source.bufferOffset) && pool.free == old(destination.segs) + old(pool.free)
  {
    hide View, IsList, Distinct, Pool.Valid;
    EmptyList();
    destination.DiscardBeside(pool, source.segmentList, source.segs);
    destination.segmentList, destination.segs := source.segmentList, source.segs;
    destination.bufferSize, destination.bufferOffset := source.bufferSize, source.bufferOffset;
    source.segmentList, source.segs := null, [];
    source.bufferSize, source.bufferOffset := 0, 0;
  }

  /** What is apart from all that a buffer and the pool own stays so while they exchange segments. */
  lemma StillApart(pool: Pool, x: Buffer, y: Buffer, total: set<Segment>)
    requires x.With(pool) && x.Total(pool) == total && x != y
    requires y.Sized() && IsList(y.segmentList, y.segs) && Distinct(y.segs)
    requires forall s :: s in y.segs ==> s !in total
    ensures y.With(pool) && Apart(x, y) && Apart(y, x)
  {
    assert forall s :: s in x.segs || s in pool.free ==> s in x.Total(pool);
  }

  lemma ApartFromTotal(pool: Pool, x: Buffer, y: Buffer)
    requires x.With(pool) && y.With(pool) && Apart(x, y)
    ensures forall s :: s in y.segs ==> s !in x.Total(pool)
  {
  }

  const CHUNK: nat := 2 * SEG

  /** What two buffers and the free list own between them. */
  ghost function Joint(pool: Pool, a: Buffer, b: Buffer): set<Segment>
    reads pool, a, b
  {
    Owned(a.segs) + Owned(b.segs) + Owned(pool.free)
  }

  /** A chunk taken from the start of one buffer frees as many segments as it takes to append it to another. */
  lemma ChunkFits(offset: nat, size: nat, offset': nat, n: nat, offsetA: nat, sizeA: nat)
    requires 0 < n <= size && n == Min(CHUNK, size) && offset < 64 && offset' < 64
    requires n < size ==> 64 * (SegCount(offset, size) - SegCount(offset', size - n)) + offset' == offset + n
    requires sizeA > 0 && offsetA < 64
    ensures SegCount(offsetA, sizeA + n) - SegCount(offsetA, sizeA)
         <= SegCount(offset, size) - SegCount(offset', size - n)
  {
  }

  lemma JointParts(segs: seq<Segment>, free: seq<Segment>, segs': seq<Segment>, free': seq<Segment>, other: seq<Segment>)
    requires Owned(segs') + Owned(free') == Owned(segs) + Owned(free)
    ensures Owned(other) + Owned(segs') + Owned(free') == Owned(other) + Owned(segs) + Owned(free)
    ensures Owned(segs') + Owned(other) + Owned(free') == Owned(segs) + Owned(other) + Owned(free)
    ensures forall s :: s in segs' || s in free' ==> s in Owned(segs) + Owned(free)
  {
    forall s | s in segs' || s in free'
      ensures s in Owned(segs) + Owned(free)
    {
      assert s in Owned(segs') + Owned(free');
    }
  }

  /** Takes bytes from the start of one buffer, beside another. */
  method TakeFront(pool: Pool, x: Buffer, size: nat, ghost y: Buffer) returns (data: seq<byte>)
    requires x.With(pool) && y.With(pool) && Apart(y, x) && 0 < size <= x.bufferSize
    modifies x, pool, pool.free, x.segs
    ensures x.With(pool) && y.With(pool) && Apart(y, x) && y.Contents() == old(y.Contents())
    ensures old(x.Contents()) == data + x.Contents() && |data| == size
    ensures x.bufferSize > 0 ==> 64 * (|old(x.segs)| - |x.segs|) + x.bufferOffset == old(x.bufferOffset) + size
    ensures x.Count(pool) == old(x.Count(pool)) && Joint(pool, y, x) == old(Joint(pool, y, x))
    ensures forall s :: s in x.segs || s in pool.free ==> s in old(Joint(pool, y, x))
  {
    hide View, SegCount, Distinct, Pool.Valid;
    ApartFromTotal(pool, x, y);
    var readOk, read := x.Read(pool, 0, size);
    data := read;
    ghost var was := x.Contents();
    assert was == data + was[size..];
    var rebaseOk := x.Rebase(pool, x.bufferSize - size);
    assert x.Contents() == was[size..];
    assert forall s :: s in y.segs ==> s.next == old(s.next) && s.bytes == old(s.bytes);
    StillApart(pool, x, y, old(x.Total(pool)));
    JointParts(old(x.segs), old(pool.free), x.segs, pool.free, y.segs);
  }

  /** Takes bytes from the end of one buffer, beside another. */
  method TakeBack(pool: Pool, x: Buffer, size: nat, ghost y: Buffer) returns (data: seq<byte>)
    requires x.With(pool) && y.With(pool) && Apart(x, y) && 0 < size <= x.bufferSize
    modifies x, pool, pool.free, x.segs
    ensures x.With(pool) && y.With(pool) && Apart(x, y) && y.Contents() == old(y.Contents())
    ensures old(x.Contents()) == x.Contents() + data && |data| == size
    ensures x.bufferSize > 0 ==> x.bufferOffset == old(x.bufferOffset)
    ensures |pool.free| >= SegCount(old(x.bufferOffset), old(x.bufferSize)) - SegCount(old(x.bufferOffset), x.bufferSize)
    ensures x.Count(pool) == old(x.Count(pool)) && Joint(pool, x, y) == old(Joint(pool, x, y))
    ensures forall s :: s in x.segs || s in pool.free ==> s in old(Joint(pool, x, y))
  {
    hide View, SegCount, Distinct, Pool.Valid;
    ApartFromTotal(pool, x, y);
    var readOk, read := x.Read(pool, x.bufferSize - size, size);
    data := read;
    ghost var was := x.Contents();
    assert was == was[..|was| - size] + data;
    var resizeOk := x.Resize(pool, x.bufferSize - size);
    assert x.Contents() == was[..|was| - size];
    SizeZero(x.bufferOffset, old(x.bufferOffset));
    assert forall s :: s in y.segs ==> s.next == old(s.next) && s.bytes == old(s.bytes);
    StillApart(pool, x, y, old(x.Total(pool)));
    JointParts(old(x.segs), old(pool.free), x.segs, pool.free, y.segs);
  }

  /** Appends to one buffer, beside another. */
  method AppendBeside(pool: Pool, x: Buffer, data: seq<byte>, ghost y: Buffer) returns (ok: bool)
    requires x.With(pool) && y.With(pool) && Apart(x, y) && |data| <= MAX_SIZE
    modifies x, pool, pool.free, x.segs
    ensures x.With(pool) && y.With(pool) && Apart(x, y) && y.Contents() == old(y.Contents())
    ensures ok <==> data == [] || (old(x.bufferSize) + |data| <= MAX_SIZE
                                   && SegCount(old(x.bufferOffset), old(x.bufferSize) + |data|) <= old(x.Count(pool)))
    ensures x.Contents() == if ok then old(x.Contents()) + data else old(x.Contents())
    ensures Joint(pool, x, y) == old(Joint(pool, x, y))
  {
    hide View, SegCount, Distinct, Pool.Valid, Datas;
    ApartFromTotal(pool, x, y);
    ok := x.Append(pool, data);
    assert forall s :: s in y.segs ==> s.next == old(s.next) && s.bytes == old(s.bytes);
    StillApart(pool, x, y, old(x.Total(pool)));
    JointParts(old(x.segs), old(pool.free), x.segs, pool.free, y.segs);
  }

  /** Prepends to one buffer, beside another. */
  method PrependBeside(pool: Pool, x: Buffer, data: seq<byte>, ghost y: Buffer) returns (ok: bool)
    requires x.With(pool) && y.With(pool) && Apart(y, x) && x.bufferSize + |data| <= MAX_SIZE
    modifies x, pool, pool.free, x.segs
    ensures x.With(pool) && y.With(pool) && Apart(y, x) && y.Contents() == old(y.Contents())
    ensures ok <==> data == [] || SegCount(OffsetBefore(old(x.bufferOffset), |data|), old(x.bufferSize) + |data|) <= old(x.Count(pool))
    ensures x.Contents() == if ok then data + old(x.Contents()) else old(x.Contents())
    ensures Joint(pool, y, x) == old(Joint(pool, y, x))
  {
    hide View, SegCount, Distinct, Pool.Valid;
    ApartFromTotal(pool, x, y);
    ok := x.Prepend(pool, data);
    assert forall s :: s in y.segs ==> s.next == old(s.next) && s.bytes == old(s.bytes);
    StillApart(pool, x, y, old(x.Total(pool)));
    JointParts(old(x.segs), old(pool.free), x.segs, pool.free, y.segs);
  }

  /** Moves one chunk from the start of b to the end of a.  It always fits. */
  method StepIntoA(pool: Pool, a: Buffer, b: Buffer)
    requires a.With(pool) && b.With(pool) && Apart(a, b)
    requires a.bufferSize > 0 && b.bufferSize > 0 && a.bufferSize + b.bufferSize <= MAX_SIZE
    modifies a, b, pool, Joint(pool, a, b)
    ensures a.With(pool) && b.With(pool) && Apart(a, b)
    ensures b.bufferSize < old(b.bufferSize)
    ensures a.Contents() + b.Contents() == old(a.Contents() + b.Contents())
    ensures Joint(pool, a, b) == old(Joint(pool, a, b))
  {
    hide View, SegCount, Linked, Apart, Pool.Valid;
    ghost var wasA := a.Contents();
    var copySize := Min(CHUNK, b.bufferSize);
    var copyData := TakeFront(pool, b, copySize, a);
    ChunkFits(old(b.bufferOffset), old(b.bufferSize), b.bufferOffset, copySize, a.bufferOffset, a.bufferSize);
    assert forall s :: s in a.segs ==> s in old(Joint(pool, a, b));
    ghost var rest := b.Contents();
    var appendOk := AppendBeside(pool, a, copyData, b);
    Associates(wasA, copyData, rest);
  }

  /** Appends the contents of b to a, a chunk at a time. */
  method ConcatenateIntoA(pool: Pool, a: Buffer, b: Buffer)
    requires a.With(pool) && b.With(pool) && Apart(a, b)
    requires a.bufferSize > 0 && a.bufferSize + b.bufferSize <= MAX_SIZE
    modifies a, b, pool, Joint(pool, a, b)
    ensures a.With(pool) && b.With(pool) && Apart(a, b) && b.bufferSize == 0
    ensures a.Contents() == old(a.Contents() + b.Contents())
    ensures Joint(pool, a, b) == old(Joint(pool, a, b))
  {
    hide View, SegCount, Linked, Apart, Pool.Valid;
    while b.bufferSize > 0
      invariant a.With(pool) && b.With(pool) && Apart(a, b)
      invariant a.bufferSize > 0 && a.bufferSize + b.bufferSize <= MAX_SIZE
      invariant a.Contents() + b.Contents() == old(a.Contents() + b.Contents())
      invariant Joint(pool, a, b) == old(Joint(pool, a, b))
      decreases b.bufferSize
    {
      ghost var both := a.Contents() + b.Contents();
      StepIntoA(pool, a, b);
      assert |a.Contents() + b.Contents()| == |both|;
    }
    assert a.Contents() + b.Contents() == a.Contents();
  }

  /** A chunk taken from the end of one buffer frees as many segments as it takes to prepend it to another. */
  lemma ChunkFitsBefore(offset: nat, size: nat, n: nat, offsetB: nat, sizeB: nat)
    requires 0 < n <= size && n == Min(CHUNK, size) && offset < 64 && offsetB < 64 && (sizeB == 0 ==> offsetB == 0)
    ensures SegCount(OffsetBefore(offsetB, n), sizeB + n) - SegCount(offsetB, sizeB)
         <= SegCount(offset, size) - SegCount(offset, size - n)
  {
    hide OffsetBefore;
    var k := if n <= offsetB then 0 else 1 + (n - offsetB - 1) / 64;
    SegCountBefore(offsetB, sizeB, n, 64 * k + offsetB - n, k);
  }

  /** Moves one chunk from the end of a to the start of b.  It always fits. */
  method StepIntoB(pool: Pool, a: Buffer, b: Buffer)
    requires a.With(pool) && b.With(pool) && Apart(a, b)
    requires a.bufferSize > 0 && a.bufferSize + b.bufferSize <= MAX_SIZE
    modifies a, b, pool, Joint(pool, a, b)
    ensures a.With(pool) && b.With(pool) && Apart(a, b)
    ensures a.bufferSize < old(a.bufferSize)
    ensures a.Contents() + b.Contents() == old(a.Contents() + b.Contents())
    ensures Joint(pool, a, b) == old(Joint(pool, a, b))
  {
    hide View, SegCount, Linked, Apart, OffsetBefore, Pool.Valid, Datas, Buffer.Contents;
    ghost var wasB := b.Contents();
    var copySize := Min(CHUNK, a.bufferSize);
    var copyData := TakeBack(pool, a, copySize, b);
    ChunkFitsBefore(old(a.bufferOffset), old(a.bufferSize), copySize, b.bufferOffset, b.bufferSize);
    assert forall s :: s in b.segs ==> s in old(Joint(pool, a, b));
    ghost var rest := a.Contents();
    var prependOk := PrependBeside(pool, b, copyData, a);
    Associates(rest, copyData, wasB);
  }

  lemma SizeZero(offset: nat, offset': nat)
    ensures SegCount(offset, 0) == SegCount(offset', 0)
  {
  }

  /** Prepends the contents of a to b, a chunk at a time from its end. */
  method ConcatenateIntoB(pool: Pool, a: Buffer, b: Buffer)
    requires a.With(pool) && b.With(pool) && Apart(a, b) && a.bufferSize + b.bufferSize <= MAX_SIZE
    modifies a, b, pool, Joint(pool, a, b)
    ensures a.With(pool) && b.With(pool) && Apart(a, b) && a.bufferSize == 0
    ensures b.Contents() == old(a.Contents() + b.Contents())
    ensures Joint(pool, a, b) == old(Joint(pool, a, b))
  {
    hide View, SegCount, Linked, Apart, Pool.Valid;
    while a.bufferSize > 0
      invariant a.With(pool) && b.With(pool) && Apart(a, b) && a.bufferSize + b.bufferSize <= MAX_SIZE
      invariant a.Contents() + b.Contents() == old(a.Contents() + b.Contents())
      invariant Joint(pool, a, b) == old(Joint(pool, a, b))
      decreases a.bufferSize
    {
      ghost var both := a.Contents() + b.Contents();
      StepIntoB(pool, a, b);
      assert |a.Contents() + b.Contents()| == |both|;
    }
    assert a.Contents() + b.Contents() == b.Contents();
  }

  // ---- three buffers, where the destination may be one of the sources

  ghost predicate Placed(pool: Pool, a: Buffer, b: Buffer, destination: Buffer)
    reads a, b, destination, pool, a.segs, b.segs, destination.segs, pool.free
  {
    && a.With(pool) && b.With(pool) && destination.With(pool) && Apart(a, b)
    && (destination != a ==> Apart(a, destination))
    && (destination != b ==> Apart(b, destination))
  }

  ghost function All(pool: Pool, a: Buffer, b: Buffer, destination: Buffer): set<Segment>
    reads pool, a, b, destination
  {
    Joint(pool, a, b) + Owned(destination.segs)
  }

  /** A third buffer stays well formed while two others exchange segments with the pool. */
  lemma ThirdStays(pool: Pool, a: Buffer, b: Buffer, c: Buffer, joint: set<Segment>)
    requires a.With(pool) && b.With(pool) && Joint(pool, a, b) == joint && c != a && c != b
    requires c.Sized() && IsList(c.segmentList, c.segs) && Distinct(c.segs)
    requires forall s :: s in c.segs ==> s !in joint
    ensures c.With(pool) && Apart(a, c) && Apart(b, c)
  {
    assert forall s :: s in a.segs || s in b.segs || s in pool.free ==> s in Joint(pool, a, b);
  }

  lemma ThirdOutside(pool: Pool, a: Buffer, b: Buffer, c: Buffer)
    requires Placed(pool, a, b, c) && c != a && c != b
    ensures forall s :: s in c.segs ==> s !in Joint(pool, a, b)
  {
  }

  /** Moves a buffer to a destination that may be the buffer itself, beside an empty one. */
  method MoveTo(pool: Pool, source: Buffer, empty: Buffer, destination: Buffer)
    requires Placed(pool, source, empty, destination) && empty.bufferSize == 0
    modifies source, destination, pool, destination.segs
    ensures Placed(pool, source, empty, destination)
    ensures destination.Contents() == old(source.Contents())
    ensures destination != source ==> source.Contents() == []
    ensures destination != empty ==> empty.Contents() == []
    ensures All(pool, source, empty, destination) == old(All(pool, source, empty, destination))
    ensures All(pool, empty, source, destination) == old(All(pool, empty, source, destination))
    ensures Placed(pool, empty, source, destination)
  {
    hide View, Distinct, Pool.Valid, SegCount;
    SizeZero(0, 0);
    EmptyList();
    assert empty.segs == [] by { NoSegments(empty.bufferOffset); }
    if destination != source {
      OwnedJoin(destination.segs, pool.free);
      Move(pool, source, destination);
    }
  }

  lemma NoSegments(offset: nat)
    ensures SegCount(offset, 0) == 0
  {
  }

  /** Empties the destination, beside empty sources. */
  method ResetTo(pool: Pool, a: Buffer, b: Buffer, destination: Buffer)
    requires Placed(pool, a, b, destination) && a.bufferSize == 0 && b.bufferSize == 0
    modifies destination, pool, pool.free, destination.segs
    ensures Placed(pool, a, b, destination)
    ensures a.Contents() == [] && b.Contents() == [] && destination.Contents() == []
    ensures All(pool, a, b, destination) == old(All(pool, a, b, destination))
  {
    hide View, Distinct, SegCount;
    EmptyList();
    NoSegments(a.bufferOffset);
    NoSegments(b.bufferOffset);
    assert a.segs == [] && b.segs == [];
    var ok := destination.Reset(pool, 0);
    NoSegments(destination.bufferOffset);
    assert destination.segs == [];
  }

  /** Gathers both contents in the larger source, beside the destination. */
  method Gather(pool: Pool, a: Buffer, b: Buffer, destination: Buffer, intoA: bool)
    requires Placed(pool, a, b, destination) && a.bufferSize + b.bufferSize <= MAX_SIZE
    requires intoA ==> a.bufferSize > 0
    modifies a, b, pool, Joint(pool, a, b)
    ensures Placed(pool, a, b, destination)
    ensures if intoA then b.bufferSize == 0 && a.Contents() == old(a.Contents() + b.Contents())
            else a.bufferSize == 0 && b.Contents() == old(a.Contents() + b.Contents())
    ensures All(pool, a, b, destination) == old(All(pool, a, b, destination))
    ensures forall s :: s in a.segs || s in b.segs || s in pool.free ==> s in old(Joint(pool, a, b))
  {
    hide View, Distinct, Pool.Valid, SegCount, Disjoint;
    ghost var joint := Joint(pool, a, b);
    if destination != a && destination != b {
      ThirdOutside(pool, a, b, destination);
    }
    if intoA {
      ConcatenateIntoA(pool, a, b);
    } else {
      ConcatenateIntoB(pool, a, b);
    }
    assert forall s :: s in a.segs || s in b.segs || s in pool.free ==> s in Joint(pool, a, b);
    if destination != a && destination != b {
      assert forall s :: s in destination.segs ==> s.next == old(s.next);
      ThirdStays(pool, a, b, destination, joint);
    }
  }

  /** Concatenates two buffers into a destination, which may be either of them.  Once the sizes
      together are representable this never fails, however few segments are free. */
  method Concatenate(pool: Pool, a: Buffer, b: Buffer, destination: Buffer) returns (ok: bool)
    requires Placed(pool, a, b, destination) && a.bufferSize + b.bufferSize <= MAX_SIZE
    modifies a, b, destination, pool, All(pool, a, b, destination)
    ensures Placed(pool, a, b, destination)
    ensures destination.Contents() == old(a.Contents() + b.Contents())
    ensures destination != a ==> a.Contents() == []
    ensures destination != b ==> b.Contents() == []
    ensures ok && All(pool, a, b, destination) == old(All(pool, a, b, destination))
  {
    hide View, SegCount, Linked, Disjoint;
    if a.bufferSize == 0 && b.bufferSize == 0 {
      NoContents(a, b);
      ResetTo(pool, a, b, destination);
    } else if a.bufferSize == 0 {
      NoContents(a, b);
      MoveTo(pool, b, a, destination);
    } else if b.bufferSize == 0 {
      NoContents(a, b);
      MoveTo(pool, a, b, destination);
    } else if a.bufferSize >= b.bufferSize {
      Gather(pool, a, b, destination, true);
      MoveTo(pool, a, b, destination);
    } else {
      Gather(pool, a, b, destination, false);
      MoveTo(pool, b, a, destination);
    }
    ok := true;
  }

  /** If the sizes together are not representable, no buffer whatever holds the two contents. */
  lemma NothingHoldsMore(a: Buffer, b: Buffer, d: Buffer)
    requires a.Sized() && b.Sized() && d.Sized()
    ensures d.Contents() == a.Contents() + b.Contents() ==> a.bufferSize + b.bufferSize <= MAX_SIZE
  {
    assert |a.Contents() + b.Contents()| == a.bufferSize + b.bufferSize;
  }

  lemma NoContents(a: Buffer, b: Buffer)
    requires a.Sized() && b.Sized()
    ensures a.bufferSize == 0 ==> a.Contents() + b.Contents() == b.Contents() && a.Contents() == []
    ensures b.bufferSize == 0 ==> a.Contents() + b.Contents() == a.Contents() && b.Contents() == []
  {
  }
}
