/** Copying bytes in and out of linked segments. */
module SegmentCopy {
  import opened Words
  import opened Mempool
  import opened SegmentBytes

  /** Skips to the segment that an offset lies in. */
  method Skip(list: Segment?, offset: nat, ghost ss: seq<Segment>)
    returns (segment: Segment?, segmentOffset: nat, ghost k: nat)
    requires IsList(list, ss) && offset <= 64 * |ss|
    ensures k <= |ss| && segment == At(ss, k) && offset == 64 * k + segmentOffset && 0 <= segmentOffset < SEG
  {
    segment, segmentOffset, k := list, offset, 0;
    while segmentOffset >= SEG
      invariant 0 <= k <= |ss| && segment == At(ss, k) && segmentOffset + 64 * k == offset
      decreases segmentOffset
    {
      segment := segment.next;
      segmentOffset := segmentOffset - SEG;
      k := k + 1;
    }
  }

  /** Copies data into the segments of a list, from an offset on. */
  method CopyToSegments(list: Segment?, offset: nat, data: seq<byte>, ghost ss: seq<Segment>)
    requires IsList(list, ss) && Distinct(ss) && offset + |data| <= 64 * |ss|
    modifies Owned(ss)`bytes
    ensures Flat(Datas(ss)) == Patched(old(Flat(Datas(ss))), offset, data)
  {
    hide Flat, Patched, Datas;
    ghost var before := Flat(Datas(ss));
    var segment, segmentOffset, k := Skip(list, offset, ss);
    var done := 0;
    assert Flat(Datas(ss)) == Patched(before, offset, data[..done]) by { PatchedNothing(before, offset, data); }
    while true
      invariant 0 <= k <= |ss| && segment == At(ss, k) && 0 <= segmentOffset < SEG
      invariant done <= |data| && offset + done == 64 * k + segmentOffset
      invariant IsList(list, ss)
      invariant Flat(Datas(ss)) == Patched(before, offset, data[..done])
      decreases |data| - done, 64 - segmentOffset
    {
      var blockSize := Min(SEG - segmentOffset, |data| - done);
      if blockSize > 0 {
        WriteBlock(list, ss, k, segment, segmentOffset, data[done..done + blockSize]);
        PatchedMore(before, offset, data, done, blockSize);
      }
      done := done + blockSize;
      if done == |data| {
        assert data[..done] == data;
        return;
      }
      segment := segment.next;
      segmentOffset := 0;
      k := k + 1;
    }
  }

  /** Overwrites part of one segment of a list. */
  method WriteBlock(ghost list: Segment?, ghost ss: seq<Segment>, ghost k: nat, segment: Segment, at: nat, block: seq<byte>)
    requires IsList(list, ss) && k < |ss| && segment == ss[k] && Distinct(ss) && at + |block| <= 64
    modifies segment`bytes
    ensures IsList(list, ss)
    ensures Flat(Datas(ss)) == Patched(old(Flat(Datas(ss))), 64 * k + at, block)
  {
    hide Flat;
    ghost var ds := Datas(ss);
    FlatPatched(ds, k, at, block);
    segment.bytes := Patched(segment.bytes, at, block);
    assert Datas(ss) == ds[k := Patched(ds[k], at, block)];
  }

  lemma PatchedNothing(s: seq<byte>, at: nat, data: seq<byte>)
    requires at <= |s|
    ensures Patched(s, at, data[..0]) == s
  {
  }

  lemma PatchedMore(s: seq<byte>, at: nat, data: seq<byte>, done: nat, n: nat)
    requires done + n <= |data| && at + |data| <= |s|
    ensures Patched(Patched(s, at, data[..done]), at + done, data[done..done + n]) == Patched(s, at, data[..done + n])
  {
    PatchedTwice(s, at, data[..done], data[done..done + n]);
    assert data[..done] + data[done..done + n] == data[..done + n];
  }

  lemma BlockInFlat(ss: seq<Segment>, k: nat, at: nat, n: nat)
    requires k < |ss| && at + n <= 64
    ensures Sub(Flat(Datas(ss)), 64 * k + at, n) == ss[k].bytes[at..at + n]
  {
    FlatPart(Datas(ss), k, at, n);
  }

  lemma SliceMore(s: seq<byte>, at: nat, done: nat, n: nat)
    requires at + done + n <= |s|
    ensures Sub(s, at, done) + Sub(s, at + done, n) == Sub(s, at, done + n)
  {
  }

  /** Copies bytes out of the segments of a list, from an offset on. */
  method CopyFromSegments(list: Segment?, offset: nat, copySize: nat, ghost ss: seq<Segment>) returns (data: seq<byte>)
    requires IsList(list, ss) && offset + copySize <= 64 * |ss|
    ensures data == Sub(Flat(Datas(ss)), offset, copySize)
  {
    hide Flat, Datas, Sub;
    ghost var flat := Flat(Datas(ss));
    var segment, segmentOffset, k := Skip(list, offset, ss);
    data := [];
    assert Sub(flat, offset, 0) == [];
    while true
      invariant 0 <= k <= |ss| && segment == At(ss, k) && 0 <= segmentOffset < SEG
      invariant |data| <= copySize && offset + |data| == 64 * k + segmentOffset
      invariant data == Sub(flat, offset, |data|)
      decreases copySize - |data|, 64 - segmentOffset
    {
      var blockSize := Min(SEG - segmentOffset, copySize - |data|);
      if blockSize > 0 {
        BlockInFlat(ss, k, segmentOffset, blockSize);
        SliceMore(flat, offset, |data|, blockSize);
        data := data + segment.bytes[segmentOffset..segmentOffset + blockSize];
      }
      if |data| == copySize {
        return;
      }
      segment := segment.next;
      segmentOffset := 0;
      k := k + 1;
    }
  }
}
