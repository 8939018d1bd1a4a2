/** Reading through the caches: bytes waiting to be programmed come first, then bytes read before,
    and only then does the device get asked. */
module LfsRead {
  import opened Words

  datatype Config = Config(readSize: nat, cacheSize: nat, blockSize: nat, blockCount: nat) {
    predicate Valid() {
      && readSize > 0 && cacheSize > 0
      && cacheSize % readSize == 0 && blockSize % readSize == 0
    }
  }

  const BLOCK_NULL: int := 0xFFFF_FFFF

  class Cache {
    var block: int
    var off: nat
    var size: nat
    var buffer: seq<byte>

    constructor ()
      ensures block == BLOCK_NULL
    {
      block, off, size, buffer := BLOCK_NULL, 0, 0, [];
    }

    /** Bytes of a block on a read boundary. */
    ghost predicate Aligned(cfg: Config)
      reads this
      requires cfg.Valid()
    {
      block != BLOCK_NULL ==> off % cfg.readSize == 0 && size <= |buffer| && off + size <= cfg.blockSize
    }

    /** The bytes are those of the device. */
    ghost predicate Coherent(cfg: Config, disk: seq<seq<byte>>)
      reads this
      requires cfg.Valid()
    {
      && Aligned(cfg)
      && (0 <= block < |disk| && block != BLOCK_NULL ==>
            |disk[block]| == cfg.blockSize && buffer[..size] == disk[block][off..off + size])
    }
  }

  function AlignDown(a: nat, alignment: nat): (r: nat)
    requires alignment > 0
    ensures r <= a < r + alignment && r % alignment == 0
  {
    DivisionSplits(a, alignment);
    RemainderIs(a / alignment * alignment, alignment, a / alignment, 0);
    a - a % alignment
  }

  function AlignUp(a: nat, alignment: nat): (r: nat)
    requires alignment > 0
    ensures a <= r < a + alignment && r % alignment == 0
  {
    AlignDown(a + alignment - 1, alignment)
  }

  /** Whole units stay whole, and what is at least a unit leaves at least one. */
  lemma AlignKeeps(a: nat, alignment: nat)
    requires alignment > 0
    ensures a % alignment == 0 ==> AlignDown(a, alignment) == a
    ensures a >= alignment ==> AlignDown(a, alignment) > 0
  {
  }

  lemma DifferenceAligned(a: nat, b: nat, alignment: nat)
    requires alignment > 0 && a <= b && a % alignment == 0 && b % alignment == 0
    ensures (b - a) % alignment == 0
  {
    DivisionSplits(a, alignment);
    DivisionSplits(b, alignment);
    var x, y := a / alignment, b / alignment;
    assert (y - x) * alignment == y * alignment - x * alignment;
    RemainderIs(b - a, alignment, y - x, 0);
  }

  /** The bytes of a block, with those that are waiting to be programmed in place. */
  ghost function Overlay(device: seq<byte>, block: int, pcache: Cache?): (bytes: seq<byte>)
    reads pcache
    ensures |bytes| == |device|
  {
    if pcache != null && pcache.block == block && pcache.size <= |pcache.buffer| && pcache.off + pcache.size <= |device|
    then device[..pcache.off] + pcache.buffer[..pcache.size] + device[pcache.off + pcache.size..]
    else device
  }

  /** Byte by byte: what waits in the cache of pending bytes, and what the device holds elsewhere. */
  lemma OverlayAt(device: seq<byte>, block: int, pcache: Cache?, at: nat)
    requires at < |device|
    requires pcache != null && pcache.block == block ==>
               pcache.size <= |pcache.buffer| && pcache.off + pcache.size <= |device|
    ensures Overlay(device, block, pcache)[at]
         == if pcache != null && pcache.block == block && pcache.off <= at < pcache.off + pcache.size
            then pcache.buffer[at - pcache.off] else device[at]
  {
  }

  /** Reads from the device. */
  method Device(disk: seq<seq<byte>>, block: nat, off: nat, size: nat) returns (data: seq<byte>)
    requires block < |disk| && off + size <= |disk[block]|
    ensures data == disk[block][off..off + size]
  {
    data := disk[block][off..off + size];
  }

  /** The part of a range that lies outside the pending bytes, or inside. */
  lemma OutsidePending(device: seq<byte>, block: int, pcache: Cache?, from: nat, n: nat)
    requires from + n <= |device|
    requires pcache != null && pcache.block == block ==>
               pcache.size <= |pcache.buffer| && pcache.off + pcache.size <= |device|
               && (from + n <= pcache.off || pcache.off + pcache.size <= from)
    ensures Overlay(device, block, pcache)[from..from + n] == device[from..from + n]
  {
  }

  lemma InsidePending(device: seq<byte>, block: int, pcache: Cache, from: nat, n: nat)
    requires pcache.block == block && pcache.size <= |pcache.buffer| && pcache.off + pcache.size <= |device|
    requires pcache.off <= from && from + n <= pcache.off + pcache.size
    ensures Overlay(device, block, pcache)[from..from + n] == pcache.buffer[from - pcache.off..from - pcache.off + n]
  {
  }

  lemma InsideRead(cfg: Config, disk: seq<seq<byte>>, rcache: Cache, from: nat, n: nat)
    requires cfg.Valid() && rcache.Coherent(cfg, disk) && 0 <= rcache.block < |disk| && rcache.block != BLOCK_NULL
    requires rcache.off <= from && from + n <= rcache.off + rcache.size
    ensures rcache.buffer[from - rcache.off..from - rcache.off + n] == disk[rcache.block][from..from + n]
  {
    var device := disk[rcache.block];
    PartOfSlice(rcache.buffer, 0, rcache.size, from - rcache.off, n);
    PartOfSlice(device, rcache.off, rcache.size, from - rcache.off, n);
  }

  lemma ReadMore(bytes: seq<byte>, start: nat, done: nat, n: nat)
    requires start + done + n <= |bytes|
    ensures bytes[start..start + done] + bytes[start + done..start + done + n] == bytes[start..start + done + n]
  {
  }

  /** How far a read can go at once: up to the end, or to where pending or cached bytes take over. */
  method NextPart(cfg: Config, pcache: Cache?, rcache: Cache, block: nat, off: nat, size: nat)
    returns (diff: nat, source: int)
    requires cfg.Valid() && size > 0 && (pcache != null ==> pcache.Aligned(cfg)) && rcache.Aligned(cfg)
    requires block != BLOCK_NULL
    ensures 0 < diff <= size
    ensures source == 0 ==>
              pcache != null && pcache.block == block && pcache.off <= off && off + diff <= pcache.off + pcache.size
    ensures source != 0 ==>
              (pcache != null && pcache.block == block ==> off + diff <= pcache.off || pcache.off + pcache.size <= off)
    ensures source == 1 ==> rcache.block == block && rcache.off <= off && off + diff <= rcache.off + rcache.size
    ensures source == 2 ==> !(rcache.block == block && rcache.off <= off < rcache.off + rcache.size)
    ensures source in {0, 1, 2}
    ensures source == 2 && off % cfg.readSize == 0 ==> diff == size || diff % cfg.readSize == 0
  {
    diff, source := size, 2;
    if pcache != null && block == pcache.block && off < pcache.off + pcache.size {
      if off >= pcache.off {
        return Min(diff, pcache.size - (off - pcache.off)), 0;
      }
      if off % cfg.readSize == 0 {
        DifferenceAligned(off, pcache.off, cfg.readSize);
      }
      diff := Min(diff, pcache.off - off);
    }
    if block == rcache.block && off < rcache.off + rcache.size {
      if off >= rcache.off {
        return Min(diff, rcache.size - (off - rcache.off)), 1;
      }
      if off % cfg.readSize == 0 {
        DifferenceAligned(off, rcache.off, cfg.readSize);
      }
      diff := Min(diff, rcache.off - off);
    }
  }

  ghost predicate InCache(rcache: Cache, block: nat, off: nat)
    reads rcache
  {
    rcache.block == block && rcache.off <= off < rcache.off + rcache.size
  }

  /** One round of a read: it yields some bytes, or fills the read cache for the next round. */
  method ReadPart(cfg: Config, disk: seq<seq<byte>>, pcache: Cache?, rcache: Cache, hint: nat, block: nat, off: nat, size: nat)
    returns (data: seq<byte>)
    requires cfg.Valid() && hint >= 1 && pcache != rcache && size > 0 && off + size <= cfg.blockSize
    requires (forall b :: b in disk ==> |b| == cfg.blockSize) && block < |disk| <= BLOCK_NULL
    requires (pcache != null ==> pcache.Aligned(cfg)) && rcache.Coherent(cfg, disk)
    modifies rcache
    ensures rcache.Coherent(cfg, disk) && |data| <= size
    ensures off + |data| <= |disk[block]| && data == Overlay(disk[block], block, pcache)[off..off + |data|]
    ensures data == [] ==> InCache(rcache, block, off) && !old(InCache(rcache, block, off))
  {
    hide AlignDown, AlignUp, Overlay;
    assert disk[block] in disk;
    var diff, source := NextPart(cfg, pcache, rcache, block, off, size);
    if source == 0 {
      // pending bytes come first
      InsidePending(disk[block], block, pcache, off, diff);
      data := pcache.buffer[off - pcache.off..off - pcache.off + diff];
    } else if source == 1 {
      // bytes that were read before
      OutsidePending(disk[block], block, pcache, off, diff);
      InsideRead(cfg, disk, rcache, off, diff);
      data := rcache.buffer[off - rcache.off..off - rcache.off + diff];
    } else if size >= hint && off % cfg.readSize == 0 && size >= cfg.readSize {
      // a long aligned stretch leaves the cache as it is
      AlignKeeps(diff, cfg.readSize);
      diff := AlignDown(diff, cfg.readSize);
      OutsidePending(disk[block], block, pcache, off, diff);
      data := Device(disk, block, off, diff);
    } else {
      // the cache gets the stretch around the offset
      data := [];
      Load(cfg, disk, rcache, hint, block, off);
    }
  }

  /** Reads bytes of a block. */
  method Read(cfg: Config, disk: seq<seq<byte>>, pcache: Cache?, rcache: Cache, hint: nat, block: nat, offset: nat, count: nat)
    returns (ok: bool, data: seq<byte>)
    requires cfg.Valid() && hint >= 1 && pcache != rcache
    requires forall b :: b in disk ==> |b| == cfg.blockSize
    requires |disk| <= BLOCK_NULL && if cfg.blockCount == 0 then block < |disk| else cfg.blockCount <= |disk|
    requires (pcache != null ==> pcache.Aligned(cfg)) && rcache.Coherent(cfg, disk)
    modifies rcache
    ensures ok <==> offset + count <= cfg.blockSize && (cfg.blockCount != 0 ==> block < cfg.blockCount)
    ensures ok ==> block < |disk| && offset + count <= |disk[block]|
                   && data == Overlay(disk[block], block, pcache)[offset..offset + count]
    ensures rcache.Coherent(cfg, disk)
  {
    data := [];
    if offset + count > cfg.blockSize || (cfg.blockCount != 0 && block >= cfg.blockCount) {
      return false, [];
    }
    ok := true;
    ghost var view := Overlay(disk[block], block, pcache);
    assert disk[block] in disk && |view| == cfg.blockSize;
    var off: nat, size: nat := offset, count;
    while size > 0
      invariant offset <= off && off + size == offset + count
      invariant rcache.Coherent(cfg, disk)
      invariant view == Overlay(disk[block], block, pcache) && data == view[offset..off]
      decreases size, if InCache(rcache, block, off) then 0 else 1
    {
      var part := ReadPart(cfg, disk, pcache, rcache, hint, block, off, size);
      ReadMore(view, offset, off - offset, |part|);
      data := data + part;
      off, size := off + |part|, size - |part|;
    }
  }

  /** Fills the read cache with the bytes around an offset. */
  method Load(cfg: Config, disk: seq<seq<byte>>, rcache: Cache, hint: nat, block: nat, off: nat)
    requires cfg.Valid() && hint >= 1 && block < |disk| && block != BLOCK_NULL && off < cfg.blockSize
    requires forall b :: b in disk ==> |b| == cfg.blockSize
    modifies rcache
    ensures rcache.Coherent(cfg, disk) && rcache.block == block && rcache.off <= off < rcache.off + rcache.size
    ensures rcache.size <= cfg.cacheSize
  {
    rcache.block := block;
    rcache.off := AlignDown(off, cfg.readSize);
    var end := Min(AlignUp(off + hint, cfg.readSize), cfg.blockSize);
    CacheSpan(cfg);
    rcache.size := Min(end - rcache.off, cfg.cacheSize);
    rcache.buffer := Device(disk, block, rcache.off, rcache.size);
  }

  lemma CacheSpan(cfg: Config)
    requires cfg.Valid()
    ensures cfg.cacheSize >= cfg.readSize
  {
  }
}
