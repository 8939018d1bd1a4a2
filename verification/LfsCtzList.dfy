/** The CTZ skip-lists of littlefs: block n of a file points 2^k blocks back, for every k up to
    ctz(n).  The file is named by its last block. */
module LfsCtzList {
  import opened Words
  import opened LfsCtzIndex

  datatype CtzBlock = CtzBlock(ptrs: seq<nat>, data: seq<byte>)

  type Device = map<nat, CtzBlock>

  function Get(dev: Device, b: nat): CtzBlock {
    if b in dev then dev[b] else CtzBlock([], [])
  }

  function DataOf(dev: Device, b: nat): seq<byte> {
    Get(dev, b).data
  }

  const BLOCK_NULL: nat := 0xFFFF_FFFF

  /** Block n of the chain starts with the pointers that it should have. */
  ghost predicate Linked(dev: Device, chain: seq<nat>, n: nat)
    requires n < |chain|
  {
    && chain[n] in dev
    && |dev[chain[n]].ptrs| == Pointers(n)
    && forall k :: 0 <= k < Pointers(n) ==> Pow2(k) <= n && dev[chain[n]].ptrs[k] == chain[n - Pow2(k)]
  }

  /** The chain, oldest block first, is a skip-list of size bytes: full blocks, then the last one. */
  ghost predicate IsFile(dev: Device, chain: seq<nat>, blockSize: nat, size: nat) {
    && (forall n: nat :: n < |chain| ==> Linked(dev, chain, n))
    && (forall i, j :: 0 <= i < j < |chain| ==> chain[i] != chain[j])
    && (chain == [] ==> size == 0)
    && (chain != [] ==> DataStart(|chain| - 1, blockSize) <= size <= DataStart(|chain|, blockSize))
    && (forall n: nat :: n < |chain| ==>
          |DataOf(dev, chain[n])| == Min(size, DataStart(n + 1, blockSize)) - DataStart(n, blockSize))
  }

  /** The contents of the file. */
  function Bytes(dev: Device, chain: seq<nat>): seq<byte> {
    if chain == [] then [] else Bytes(dev, chain[..|chain| - 1]) + DataOf(dev, chain[|chain| - 1])
  }

  // ---- arithmetic of the links

  /** Pointer k of block n leads to a block with the pointer k that leads as far again. */
  lemma {:induction false} PointerLeadsOn(n: nat, k: nat)
    requires n > 0 && k < Ctz(n)
    ensures Pow2(k + 1) <= n && Ctz(n - Pow2(k)) == k
    decreases k
  {
    CtzBound(n);
    Pow2Monotone(k + 1, Ctz(n));
    if k > 0 {
      PointerLeadsOn(n / 2, k - 1);
      var m := n - Pow2(k);
      assert m == 2 * (n / 2 - Pow2(k - 1));
      assert Ctz(m) == 1 + Ctz(m / 2);
    } else {
      assert n % 2 == 0 && (n - 1) % 2 == 1;
    }
  }

  lemma PointerExists(n: nat, k: nat)
    requires n > 0 && k <= Ctz(n)
    ensures Pow2(k) <= n && k < Pointers(n)
  {
    CtzBound(n);
    Pow2Monotone(k, Ctz(n));
  }

  /** The skip that the search takes stays within the distance to go. */
  lemma SkipFits(distance: nat)
    requires distance > 0
    ensures Npw2(distance + 1) > 0
    ensures forall k: nat :: k <= Npw2(distance + 1) - 1 ==> Pow2(k) <= distance
  {
    Npw2IsLeast(distance + 1);
    forall k: nat | k <= Npw2(distance + 1) - 1
      ensures Pow2(k) <= distance
    {
      Pow2Monotone(k, Npw2(distance + 1) - 1);
    }
  }

  // ---- finding a position

  /** Walks from the last block of a file to the block that holds a position, with the longest
      pointer that does not overshoot, and gives the offset of the position in that block.  An empty
      file has no block to find. */
  method Find(dev: Device, blockSize: uint32, head: nat, size: uint32, pos: uint32, ghost chain: seq<nat>)
    returns (block: nat, off: nat)
    requires blockSize >= 128 && (size == 0 || pos < size) && IsFile(dev, chain, blockSize, size)
    requires size > 0 ==> chain != [] && chain[|chain| - 1] == head && Covers(|chain| - 1, size - 1, blockSize)
    ensures size == 0 ==> block == BLOCK_NULL && off == 0
    ensures size > 0 ==> |Bytes(dev, chain)| == size && exists n: nat :: n < |chain| && Covers(n, pos, blockSize)
    ensures size > 0 ==> forall n: nat :: Covers(n, pos, blockSize) ==>
              && n < |chain| && block == chain[n]
              && 4 * Pointers(n) <= off < 4 * Pointers(n) + |DataOf(dev, block)|
              && DataOf(dev, block)[off - 4 * Pointers(n)] == Bytes(dev, chain)[pos]
  {
    hide Pow2, Ctz, Npw2, Pointers, DataStart, IsFile;
    if size == 0 {
      return BLOCK_NULL, 0;
    }
    var current, unused := Index(blockSize, size - 1);
    OnlyBlockOf(current, |chain| - 1, size - 1, blockSize);
    var goal, offset := Index(blockSize, pos);
    GoalInChain(goal, |chain| - 1, pos, size, blockSize);
    block := head;
    while current > goal
      invariant goal <= current < |chain| && block == chain[current]
      decreases current
    {
      SkipFits(current - goal);
      var skip := Min(Npw2(current - goal + 1) - 1, Ctz(current));
      PointerExists(current, skip);
      BlockOfFile(dev, chain, blockSize, size, current);
      block := dev[block].ptrs[skip];
      current := current - Pow2(skip);
    }
    off := offset;
    ByteAt(dev, chain, blockSize, size, goal, pos);
    forall n: nat | Covers(n, pos, blockSize)
      ensures n == goal
    {
      OnlyBlockOf(n, goal, pos, blockSize);
    }
  }

  lemma GoalInChain(goal: nat, last: nat, pos: nat, size: nat, blockSize: nat)
    requires blockSize >= 128 && pos < size < 0x1_0000_0000 + 1
    requires Covers(goal, pos, blockSize) && Covers(last, size - 1, blockSize)
    ensures goal <= last
  {
    StartsFarEnough(goal, blockSize, pos);
    StartsFarEnough(last, blockSize, size - 1);
    if last < goal {
      StartsInOrder(last + 1, goal, blockSize);
    }
  }

  /** What being a file says about one of its blocks. */
  lemma BlockOfFile(dev: Device, chain: seq<nat>, blockSize: nat, size: uint32, n: nat)
    requires blockSize >= 128 && IsFile(dev, chain, blockSize, size) && n < |chain|
    ensures Linked(dev, chain, n) && chain[n] in dev
    ensures |DataOf(dev, chain[n])| == Min(size, DataStart(n + 1, blockSize)) - DataStart(n, blockSize)
    ensures DataStart(n, blockSize) <= size <= DataStart(|chain|, blockSize)
  {
    hide DataStart, DataOf;
    StartsFarEnough(|chain| - 1, blockSize, size);
    StartsInOrder(n, |chain| - 1, blockSize);
  }

  /** The contents, cut at the start of a block. */
  lemma {:induction false} BytesUpTo(dev: Device, chain: seq<nat>, blockSize: nat, size: uint32, n: nat)
    requires blockSize >= 128 && IsFile(dev, chain, blockSize, size) && n <= |chain|
    ensures |Bytes(dev, chain[..n])| == Min(size, DataStart(n, blockSize))
  {
    hide IsFile, DataStart, Linked, DataOf;
    if n == 0 {
      FirstStart(blockSize);
    } else {
      BytesUpTo(dev, chain, blockSize, size, n - 1);
      assert chain[..n][..n - 1] == chain[..n - 1];
      BlockOfFile(dev, chain, blockSize, size, n - 1);
    }
  }

  lemma {:induction false} BytesPrefix(dev: Device, chain: seq<nat>, n: nat)
    requires n <= |chain|
    ensures |Bytes(dev, chain[..n])| <= |Bytes(dev, chain)|
    ensures Bytes(dev, chain)[..|Bytes(dev, chain[..n])|] == Bytes(dev, chain[..n])
    decreases |chain|
  {
    if n < |chain| {
      var shorter := chain[..|chain| - 1];
      assert shorter[..n] == chain[..n];
      BytesPrefix(dev, shorter, n);
    } else {
      assert chain[..n] == chain;
    }
  }

  /** Byte pos of the contents lies in the block that covers pos. */
  lemma ByteAt(dev: Device, chain: seq<nat>, blockSize: nat, size: uint32, n: nat, pos: nat)
    requires blockSize >= 128 && IsFile(dev, chain, blockSize, size)
    requires n < |chain| && pos < size && Covers(n, pos, blockSize)
    ensures pos - DataStart(n, blockSize) < |DataOf(dev, chain[n])|
    ensures |Bytes(dev, chain)| == size
    ensures DataOf(dev, chain[n])[pos - DataStart(n, blockSize)] == Bytes(dev, chain)[pos]
  {
    hide DataStart, Linked, Get, IsFile;
    BlockOfFile(dev, chain, blockSize, size, n);
    BytesUpTo(dev, chain, blockSize, size, n);
    BytesUpTo(dev, chain, blockSize, size, |chain|);
    assert chain[..|chain|] == chain && chain[..n + 1][..n] == chain[..n];
    BytesPrefix(dev, chain, n + 1);
    var upTo := Bytes(dev, chain[..n + 1]);
    assert upTo == Bytes(dev, chain[..n]) + DataOf(dev, chain[n]);
    assert upTo[pos] == Bytes(dev, chain)[pos];
  }

  // ---- extending a file

  /** The pointers that block n of a chain starts with. */
  ghost predicate PointsBack(ptrs: seq<nat>, chain: seq<nat>, n: nat)
    requires n <= |chain|
  {
    |ptrs| <= Pointers(n) && forall k :: 0 <= k < |ptrs| ==> Pow2(k) <= n && ptrs[k] == chain[n - Pow2(k)]
  }

  /** Extends a file by one block.  A file whose last block is full gets a new last block, with its
      pointers collected by following the pointers there are; a file whose last block has room
      gets a copy of that block to write to, and keeps the old one.  Either way the contents are
      the same, and the new block has room at the offset returned. */
  method Extend(dev: Device, blockSize: uint32, head: nat, size: uint32, nblock: nat, ghost chain: seq<nat>)
    returns (dev': Device, block: nat, off: nat, ghost chain': seq<nat>)
    requires blockSize >= 128 && IsFile(dev, chain, blockSize, size) && nblock !in chain
    requires size > 0 ==> chain != [] && chain[|chain| - 1] == head && Covers(|chain| - 1, size - 1, blockSize)
    requires size == 0 ==> chain == []
    ensures block == nblock && chain' != [] && chain'[|chain'| - 1] == block
    ensures IsFile(dev', chain', blockSize, size) && Bytes(dev', chain') == Bytes(dev, chain)
    ensures chain' == (if size == 0 then [block]
                       else if size == DataStart(|chain|, blockSize) then chain + [block]
                       else chain[..|chain| - 1] + [block])
    ensures off == size - DataStart(|chain'| - 1, blockSize) + 4 * Pointers(|chain'| - 1) < blockSize
    ensures dev' == dev[block := Get(dev', block)]
  {
    hide Pow2, Pointers, DataStart, IsFile, Linked, Covers, Bytes, PointsBack;
    block := nblock;
    if size == 0 {
      dev', off, chain' := dev[block := CtzBlock([], [])], 0, [block];
      FirstBlock(dev, blockSize, block);
      return;
    }
    LastBlockFull(|chain| - 1, blockSize, size);
    var index, noff := Index(blockSize, size - 1);
    OnlyBlockOf(index, |chain| - 1, size - 1, blockSize);
    noff := noff + 1;
    if noff != blockSize {
      // a last block with room is copied, pointers and all, and replaced in the chain
      dev', off, chain' := dev[block := Get(dev, head)], noff, chain[..|chain| - 1] + [block];
      CopiedLast(dev, chain, blockSize, size, block);
      return;
    }
    // the last block is full: a new one joins the chain
    StartsFarEnough(|chain|, blockSize, size);
    DataStartGrows(|chain|, blockSize);
    index := index + 1;
    AllLinked(dev, chain, blockSize, size);
    var ptrs := CollectPointers(dev, head, index, chain);
    dev', off, chain' := dev[block := CtzBlock(ptrs, [])], 4 * |ptrs|, chain + [block];
    AppendedBlock(dev, chain, blockSize, size, block, ptrs);
  }

  lemma AllLinked(dev: Device, chain: seq<nat>, blockSize: nat, size: nat)
    requires IsFile(dev, chain, blockSize, size)
    ensures forall n: nat :: n < |chain| ==> Linked(dev, chain, n)
  {
  }

  lemma FirstBlock(dev: Device, blockSize: nat, block: nat)
    requires blockSize >= 128
    ensures var dev', chain' := dev[block := CtzBlock([], [])], [block];
            && IsFile(dev', chain', blockSize, 0) && Bytes(dev', chain') == Bytes(dev, [])
            && DataStart(0, blockSize) == 0 && Pointers(0) == 0 && dev' == dev[block := Get(dev', block)]
  {
    assert DataStart(1, blockSize) == blockSize;
  }

  /** The last block is full when the offset after the last byte is the block size. */
  lemma LastBlockFull(last: nat, blockSize: nat, size: nat)
    requires Covers(last, size - 1, blockSize)
    ensures size - DataStart(last, blockSize) + 4 * Pointers(last) == blockSize
            <==> size == DataStart(last + 1, blockSize)
    ensures Pointers(last + 1) == Ctz(last + 1) + 1
  {
  }

  /** Collects the pointers of a new block: pointer i + 1 is where pointer i of the block that
      pointer i leads to points. */
  method CollectPointers(dev: Device, head: nat, index: nat, ghost chain: seq<nat>) returns (ptrs: seq<nat>)
    requires index == |chain| > 0 && head == chain[index - 1]
    requires forall n: nat :: n < |chain| ==> Linked(dev, chain, n)
    ensures |ptrs| == Pointers(index) && PointsBack(ptrs, chain, index)
  {
    hide Ctz;
    var skips := Ctz(index) + 1;
    var nhead := head;
    ptrs := [];
    PointerExists(index, 0);
    for i := 0 to skips
      invariant |ptrs| == i && PointsBack(ptrs, chain, index)
      invariant i < skips ==> Pow2(i) <= index && nhead == chain[index - Pow2(i)]
    {
      ptrs := ptrs + [nhead];
      if i != skips - 1 {
        PointerLeadsOn(index, i);
        assert Linked(dev, chain, index - Pow2(i));
        nhead := dev[nhead].ptrs[i];
      }
    }
  }

  lemma {:induction false} BytesUnchanged(dev: Device, dev': Device, chain: seq<nat>)
    requires forall b :: b in chain ==> DataOf(dev, b) == DataOf(dev', b)
    ensures Bytes(dev, chain) == Bytes(dev', chain)
    decreases |chain|
  {
    if chain != [] {
      BytesUnchanged(dev, dev', chain[..|chain| - 1]);
    }
  }

  lemma CopiedLast(dev: Device, chain: seq<nat>, blockSize: nat, size: uint32, block: nat)
    requires blockSize >= 128 && IsFile(dev, chain, blockSize, size) && block !in chain && chain != []
    ensures var last := |chain| - 1;
            var dev', chain' := dev[block := Get(dev, chain[last])], chain[..last] + [block];
            IsFile(dev', chain', blockSize, size) && Bytes(dev', chain') == Bytes(dev, chain)
  {
    hide Pow2, Pointers, DataStart;
    var last := |chain| - 1;
    var dev', chain' := dev[block := Get(dev, chain[last])], chain[..last] + [block];
    forall n: nat | n < |chain'|
      ensures Linked(dev', chain', n)
    {
      assert Linked(dev, chain, n);
    }
    BytesUnchanged(dev, dev', chain[..last]);
    assert chain'[..last] == chain[..last];
  }

  lemma AppendedBlock(dev: Device, chain: seq<nat>, blockSize: nat, size: uint32, block: nat, ptrs: seq<nat>)
    requires blockSize >= 128 && IsFile(dev, chain, blockSize, size) && block !in chain && chain != []
    requires size == DataStart(|chain|, blockSize) && |ptrs| == Pointers(|chain|) && PointsBack(ptrs, chain, |chain|)
    ensures var dev', chain' := dev[block := CtzBlock(ptrs, [])], chain + [block];
            IsFile(dev', chain', blockSize, size) && Bytes(dev', chain') == Bytes(dev, chain)
  {
    hide Pow2, Pointers, DataStart;
    StartsFarEnough(|chain|, blockSize, size);
    DataStartGrows(|chain|, blockSize);
    var dev', chain' := dev[block := CtzBlock(ptrs, [])], chain + [block];
    forall n: nat | n < |chain'|
      ensures Linked(dev', chain', n)
    {
      if n < |chain| {
        assert Linked(dev, chain, n);
      }
    }
    BytesUnchanged(dev, dev', chain);
    assert chain'[..|chain|] == chain;
  }

  // ---- writing a file

  /** Programming bytes after the last one of the last block. */
  lemma Programmed(dev: Device, chain: seq<nat>, blockSize: nat, size: uint32, bytes: seq<byte>)
    requires blockSize >= 128 && IsFile(dev, chain, blockSize, size) && chain != []
    requires size + |bytes| <= DataStart(|chain|, blockSize) && size + |bytes| < 0x1_0000_0000
    ensures var last := chain[|chain| - 1];
            var dev' := dev[last := CtzBlock(Get(dev, last).ptrs, DataOf(dev, last) + bytes)];
            IsFile(dev', chain, blockSize, size + |bytes|) && Bytes(dev', chain) == Bytes(dev, chain) + bytes
  {
    hide Pow2, Pointers, DataStart;
    var n := |chain| - 1;
    var dev' := dev[chain[n] := CtzBlock(Get(dev, chain[n]).ptrs, DataOf(dev, chain[n]) + bytes)];
    forall i: nat | i < |chain|
      ensures Linked(dev', chain, i)
      ensures |DataOf(dev', chain[i])| == Min(size + |bytes|, DataStart(i + 1, blockSize)) - DataStart(i, blockSize)
    {
      BlockOfFile(dev, chain, blockSize, size, i);
      if i < n {
        StartsFarEnough(n, blockSize, size);
        StartsInOrder(i + 1, n, blockSize);
      }
    }
    BytesUnchanged(dev, dev', chain[..n]);
  }

  /** Programs as many of the bytes as fit into the last block. */
  method Program(dev: Device, blockSize: uint32, block: nat, pos: uint32, off: nat, bytes: seq<byte>, ghost chain: seq<nat>)
    returns (dev': Device, diff: nat)
    requires blockSize >= 128 && IsFile(dev, chain, blockSize, pos) && chain != [] && chain[|chain| - 1] == block
    requires off == pos - DataStart(|chain| - 1, blockSize) + 4 * Pointers(|chain| - 1) < blockSize
    requires bytes != [] && pos + |bytes| < 0x1_0000_0000
    ensures 0 < diff <= |bytes| && off + diff <= blockSize
    ensures IsFile(dev', chain, blockSize, pos + diff) && Bytes(dev', chain) == Bytes(dev, chain) + bytes[..diff]
    ensures Covers(|chain| - 1, pos + diff - 1, blockSize) && dev' == dev[block := Get(dev', block)]
  {
    hide Pow2, Pointers, DataStart, IsFile, Bytes, Covers;
    diff := Min(|bytes|, blockSize - off);
    BlockOfFile(dev, chain, blockSize, pos, |chain| - 1);
    RoomLeft(|chain| - 1, blockSize, pos, diff);
    Programmed(dev, chain, blockSize, pos, bytes[..diff]);
    dev' := dev[block := CtzBlock(Get(dev, block).ptrs, DataOf(dev, block) + bytes[..diff])];
  }

  /** A file of a size is named by its last block, which holds its last byte. */
  ghost predicate Stands(dev: Device, chain: seq<nat>, head: nat, blockSize: nat, size: nat) {
    && IsFile(dev, chain, blockSize, size)
    && if size > 0 then chain != [] && chain[|chain| - 1] == head && Covers(|chain| - 1, size - 1, blockSize) else chain == []
  }

  /** Extends a file by a block if it should, and programs as many of the bytes as fit into its last block. */
  method WriteBlock(dev: Device, blockSize: uint32, head: nat, pos: uint32, off: nat, extend: bool, nblock: nat, bytes: seq<byte>,
                    ghost chain: seq<nat>)
    returns (dev': Device, head': nat, off': nat, diff: nat, ghost chain': seq<nat>)
    requires blockSize >= 128 && Stands(dev, chain, head, blockSize, pos) && bytes != [] && pos + |bytes| < 0x1_0000_0000
    requires if extend then nblock !in chain
             else nblock == head && chain != [] && off == pos - DataStart(|chain| - 1, blockSize) + 4 * Pointers(|chain| - 1) < blockSize
    ensures chain' != [] && 0 < diff <= |bytes| && head' == nblock && dev' == dev[head' := Get(dev', head')]
    ensures Stands(dev', chain', head', blockSize, pos + diff) && Bytes(dev', chain') == Bytes(dev, chain) + bytes[..diff]
    ensures off' == pos - DataStart(|chain'| - 1, blockSize) + 4 * Pointers(|chain'| - 1) && off' + diff <= blockSize
    ensures if extend then forall b :: b in chain' ==> b in chain || b == nblock else chain' == chain && off' == off
  {
    hide Pow2, Pointers, DataStart, IsFile, Bytes, Covers;
    dev', head', off', chain' := dev, head, off, chain;
    if extend {
      dev', head', off', chain' := Extend(dev, blockSize, head, pos, nblock, chain);
    }
    dev', diff := Program(dev', blockSize, head', pos, off', bytes, chain');
  }

  /** Appends bytes to a file, block by block, as long as the allocator hands out new blocks.  The
      chain grows into a skip-list that holds the old contents followed by the bytes. */
  method Append(dev: Device, blockSize: uint32, head: nat, size: uint32, bytes: seq<byte>, supply: seq<nat>, ghost chain: seq<nat>)
    returns (ok: bool, dev': Device, head': nat, ghost chain': seq<nat>)
    requires blockSize >= 128 && Stands(dev, chain, head, blockSize, size) && size + |bytes| < 0x1_0000_0000
    requires forall i :: 0 <= i < |supply| ==> supply[i] !in chain && supply[i] !in supply[..i]
    ensures ok ==> Stands(dev', chain', head', blockSize, size + |bytes|) && Bytes(dev', chain') == Bytes(dev, chain) + bytes
    ensures |supply| > |bytes| ==> ok
    // the file as it was is still there
    ensures Stands(dev', chain, head, blockSize, size) && Bytes(dev', chain) == Bytes(dev, chain)
  {
    hide Pow2, Pointers, DataStart, Stands, IsFile, Bytes, Covers, Intact;
    IntactStart(dev, supply);
    dev', head', chain' := dev, head, chain;
    var pos, off: nat, writing, used, done := size, 0, false, 0, 0;
    assert bytes[..done] == [];
    while done < |bytes|
      invariant done <= |bytes| && pos == size + done && used <= done && used <= |supply|
      invariant Stands(dev', chain', head', blockSize, pos) && Bytes(dev', chain') == Bytes(dev, chain) + bytes[..done]
      invariant writing ==> chain' != [] && off == pos - DataStart(|chain'| - 1, blockSize) + 4 * Pointers(|chain'| - 1) <= blockSize
      invariant forall i :: used <= i < |supply| ==> supply[i] !in chain'
      invariant (writing ==> head' in supply) && Intact(dev, dev', supply)
      decreases |bytes| - done
    {
      if (!writing || off == blockSize) && used == |supply| {
        ok := false;
        OldFileIntact(dev, dev', supply, chain, head, blockSize, size);
        return;
      }
      ghost var before, chain0 := dev', chain';
      var diff, extend := 0, !writing || off == blockSize;
      dev', head', off, diff, chain' :=
        WriteBlock(dev', blockSize, head', pos, off, extend, if extend then supply[used] else head', bytes[done..], chain');
      IntactStill(dev, before, dev', supply, head');
      if extend {
        SupplyLeft(supply, used, chain0, chain');
        used, writing := used + 1, true;
      }
      assert bytes[..done + diff] == bytes[..done] + bytes[done..][..diff];
      done, pos, off := done + diff, pos + diff, off + diff;
    }
    assert bytes[..done] == bytes;
    OldFileIntact(dev, dev', supply, chain, head, blockSize, size);
    ok := true;
  }

  /** Only blocks from the supply have been written to. */
  ghost predicate Intact(dev: Device, dev': Device, supply: seq<nat>) {
    forall b :: b !in supply ==> (b in dev <==> b in dev') && (b in dev ==> dev'[b] == dev[b])
  }

  lemma IntactStart(dev: Device, supply: seq<nat>)
    ensures Intact(dev, dev, supply)
  {
  }

  lemma IntactStill(dev: Device, before: Device, after: Device, supply: seq<nat>, block: nat)
    requires Intact(dev, before, supply) && after == before[block := Get(after, block)] && block in supply
    ensures Intact(dev, after, supply)
  {
  }

  lemma OldFileIntact(dev: Device, dev': Device, supply: seq<nat>, chain: seq<nat>, head: nat, blockSize: nat, size: nat)
    requires Intact(dev, dev', supply) && Stands(dev, chain, head, blockSize, size)
    requires forall i :: 0 <= i < |supply| ==> supply[i] !in chain
    ensures Stands(dev', chain, head, blockSize, size) && Bytes(dev', chain) == Bytes(dev, chain)
  {
    hide Pow2, Pointers, DataStart, Covers;
    assert forall b :: b in chain ==> b !in supply;
    forall n: nat | n < |chain|
      ensures Linked(dev', chain, n)
    {
      assert chain[n] in chain && Linked(dev, chain, n);
    }
    BytesUnchanged(dev, dev', chain);
  }

  lemma SupplyLeft(supply: seq<nat>, used: nat, chain: seq<nat>, longer: seq<nat>)
    requires used < |supply| && forall b :: b in longer ==> b in chain || b == supply[used]
    requires forall i :: 0 <= i < |supply| ==> supply[i] !in supply[..i]
    requires forall i :: used <= i < |supply| ==> supply[i] !in chain
    ensures forall i :: used + 1 <= i < |supply| ==> supply[i] !in longer
  {
    forall i | used + 1 <= i < |supply|
      ensures supply[i] !in longer
    {
      assert supply[..i][used] == supply[used];
    }
  }

  lemma RoomLeft(last: nat, blockSize: nat, pos: nat, diff: nat)
    requires DataStart(last, blockSize) <= pos && diff > 0
    requires diff <= blockSize - (pos - DataStart(last, blockSize) + 4 * Pointers(last))
    ensures pos + diff <= DataStart(last + 1, blockSize) && Covers(last, pos + diff - 1, blockSize)
  {
  }

  // ---- visiting every block

  function Reversed(s: seq<nat>): seq<nat> {
    if s == [] then [] else [s[|s| - 1]] + Reversed(s[..|s| - 1])
  }

  /** Visits every block of a file once, newest first, two pointers to a read where there are two. */
  method Traverse(dev: Device, blockSize: uint32, head: nat, size: uint32, ghost chain: seq<nat>)
    returns (visited: seq<nat>)
    requires blockSize >= 128 && IsFile(dev, chain, blockSize, size)
    requires size > 0 ==> chain != [] && chain[|chain| - 1] == head && Covers(|chain| - 1, size - 1, blockSize)
    ensures visited == if size == 0 then [] else Reversed(chain)
  {
    hide Pow2, Pointers, DataStart, VisitedDownTo, Reversed, IsFile, Covers;
    visited := [];
    if size == 0 {
      return;
    }
    var index, unused := Index(blockSize, size - 1);
    OnlyBlockOf(index, |chain| - 1, size - 1, blockSize);
    var at := head;
    NoneVisited(chain);
    while true
      invariant 0 <= index < |chain| && at == chain[index] && VisitedDownTo(visited, chain, index + 1)
      decreases index
    {
      OneMoreVisited(visited, chain, index);
      visited := visited + [at];
      if index == 0 {
        AllVisited(visited, chain);
        return;
      }
      var count := 2 - index % 2;
      var heads := ReadHeads(dev, blockSize, at, count, size, index, chain);
      if count == 2 {
        OneMoreVisited(visited, chain, index - 1);
        visited := visited + [heads[0]];
      }
      at := heads[count - 1];
      index := index - count;
    }
  }

  /** Reads the first pointers of a block. */
  method ReadHeads(dev: Device, blockSize: uint32, at: nat, count: nat, ghost size: uint32, ghost index: nat, ghost chain: seq<nat>)
    returns (heads: seq<nat>)
    requires blockSize >= 128 && IsFile(dev, chain, blockSize, size) && 0 < index < |chain| && at == chain[index]
    requires count == 2 - index % 2
    ensures |heads| == count && forall k :: 0 <= k < count ==> heads[k] == chain[index - 1 - k]
  {
    hide Pow2, Pointers, DataStart, IsFile;
    FirstPointers(dev, chain, blockSize, size, index);
    heads := dev[at].ptrs[..count];
  }

  /** What remains to be visited are the first n blocks. */
  ghost predicate VisitedDownTo(visited: seq<nat>, chain: seq<nat>, n: nat) {
    n <= |chain| && visited + Reversed(chain[..n]) == Reversed(chain)
  }

  lemma NoneVisited(chain: seq<nat>)
    ensures VisitedDownTo([], chain, |chain|)
  {
    assert chain[..|chain|] == chain;
  }

  lemma OneMoreVisited(visited: seq<nat>, chain: seq<nat>, n: nat)
    requires n < |chain| && VisitedDownTo(visited, chain, n + 1)
    ensures VisitedDownTo(visited + [chain[n]], chain, n)
  {
    assert chain[..n + 1][..n] == chain[..n];
    assert (visited + [chain[n]]) + Reversed(chain[..n]) == visited + Reversed(chain[..n + 1]);
  }

  lemma AllVisited(visited: seq<nat>, chain: seq<nat>)
    requires VisitedDownTo(visited, chain, 0)
    ensures visited == Reversed(chain)
  {
    assert chain[..0] == [];
  }

  lemma FirstPointers(dev: Device, chain: seq<nat>, blockSize: nat, size: uint32, index: nat)
    requires blockSize >= 128 && IsFile(dev, chain, blockSize, size) && 0 < index < |chain|
    ensures chain[index] in dev && |dev[chain[index]].ptrs| >= 2 - index % 2
    ensures dev[chain[index]].ptrs[0] == chain[index - 1]
    ensures index % 2 == 0 ==> dev[chain[index]].ptrs[1] == chain[index - 2]
  {
    BlockOfFile(dev, chain, blockSize, size, index);
    assert Pow2(0) == 1 && Pow2(1) == 2;
    assert Pointers(index) >= 2 - index % 2;
  }
}
