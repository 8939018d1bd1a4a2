/** The block allocator of littlefs: a circular window of blocks, filled by scanning the tree.

    Positions are counted without wrapping round: block p % blockCount lies at position p.  The
    allocator moves forward through positions; the checkpoint counter says how many more it may
    pass before blocks that were handed out but are not yet in the tree could come round again. */
module LfsAlloc {
  import opened Words

  datatype Result = Block(block: nat) | NoSpace | Error

  /** The bit of block off in its byte of the window. */
  function Mask(k: nat): bv8 {
    if k == 0 then 1 else if k == 1 then 2 else if k == 2 then 4 else if k == 3 then 8
    else if k == 4 then 16 else if k == 5 then 32 else if k == 6 then 64 else 128
  }

  predicate Bit(b: bv8, k: nat) {
    b & Mask(k) != 0
  }

  lemma NoBits()
    ensures forall k: nat :: !Bit(0, k)
  {
  }

  lemma SetBit(b: bv8, k: nat, j: nat)
    requires k < 8 && j < 8
    ensures Bit(b | Mask(k), j) <==> j == k || Bit(b, j)
  {
  }

  // ---- circular positions

  /** The block at a position. */
  function Turn(p: int, n: nat): (b: nat)
    requires n > 0
    ensures b < n
  {
    p % n
  }

  /** Positions less than a turn apart that hold the same block are the same position. */
  lemma SameBlockSamePosition(p: int, q: int, n: nat)
    requires n > 0 && Turn(p, n) == Turn(q, n) && p - q < n && q - p < n
    ensures p == q
  {
    DivisionSplits(p, n);
    DivisionSplits(q, n);
    var d := p / n - q / n;
    assert p - q == d * n;
    if d > 0 {
      MulMonotone(1, d, n);
    } else if d < 0 {
      MulMonotone(d, -1, n);
    }
  }

  /** A full turn of positions holds every block. */
  lemma FullTurn(lo: int, b: nat, n: nat) returns (p: int)
    requires b < n
    ensures lo <= p < lo + n && Turn(p, n) == b
  {
    p := lo + (b - lo) % n;
    DivisionSplits(b - lo, n);
    assert p == -((b - lo) / n) * n + b;
    RemainderIs(p, n, -((b - lo) / n), b);
  }

  lemma TurnOfSum(a: int, b: int, n: nat)
    requires n > 0
    ensures Turn(Turn(a, n) + b, n) == Turn(a + b, n)
  {
    DivisionSplits(a, n);
    DivisionSplits(a % n + b, n);
    var q := a / n + (a % n + b) / n;
    assert a + b == q * n + (a % n + b) % n;
    RemainderIs(a + b, n, q, (a % n + b) % n);
  }

  /** The offset of a block from the start of the window, as the C code computes it. */
  lemma OffsetOf(base: int, start: nat, block: nat, p: nat, n: nat)
    requires n > 0 && start == Turn(base, n) && block < n && p < n
    ensures Turn(base + p, n) == block <==> p == ((block - start) + n) % n
  {
    TurnOfSum(base, p, n);
    if start + p < n {
      RemainderIs(start + p, n, 0, start + p);
    } else {
      RemainderIs(start + p, n, 1, start + p - n);
    }
    if block >= start {
      RemainderIs(block - start + n, n, 1, block - start);
    } else {
      RemainderIs(block - start + n, n, 0, block - start + n);
    }
  }

  function Elements(s: seq<nat>): (r: set<nat>)
    ensures forall x: nat :: x in r <==> x in s
  {
    set x | x in s
  }

  class Allocator {
    const blockCount: nat
    const buffer: array<bv8>
    var start: nat
    var size: nat
    var next: nat
    var ckpoint: nat

    /** The blocks that a traversal of the file system visits, in the order it visits them. */
    var tree: seq<nat>

    /** The position of the window, and of every block handed out since the last checkpoint. */
    ghost var base: int
    ghost var handed: map<nat, int>
    /** Blocks that a scan has found in the tree, of those that may be passed before the next checkpoint
        or have been passed since the last one. */
    ghost var scanned: set<nat>

    predicate Used(off: nat)
      reads buffer
    {
      off < 8 * buffer.Length && Bit(buffer[off / 8], off % 8)
    }

    /** The block at a position of the window. */
    ghost function BlockAt(p: int): (b: nat)
      requires blockCount > 0
      reads this`base
      ensures b < blockCount
    {
      Turn(base + p, blockCount)
    }

    /** The blocks that the rest of the window marks as used. */
    ghost function Marked(): set<nat>
      requires blockCount > 0
      reads this`base, this`next, this`size, buffer
    {
      set p | next <= p < size && Used(p) :: BlockAt(p)
    }

    ghost predicate Window()
      requires blockCount > 0
      reads this, buffer
    {
      forall p :: next <= p < size ==>
        if Used(p) then BlockAt(p) in scanned else BlockAt(p) !in tree && BlockAt(p) !in handed
    }

    ghost predicate Behind()
      reads this
      requires blockCount > 0
    {
      && (forall b :: b in handed ==> b < blockCount && Turn(handed[b], blockCount) == b
                                      && base + next - (blockCount - ckpoint) <= handed[b] < base + next)
      && (forall p :: base + next - (blockCount - ckpoint) <= p < base + next ==>
            Turn(p, blockCount) in handed || Turn(p, blockCount) in scanned)
    }

    ghost predicate Valid()
      reads this, buffer
    {
      && blockCount > 0 && buffer.Length > 0
      && start == Turn(base, blockCount)
      && next <= size <= 8 * buffer.Length && size <= blockCount
      && size - next <= ckpoint <= blockCount
      && (forall b :: b in tree ==> b < blockCount)
      && Window() && Behind()
    }

    /** The allocator as a mount leaves it: nothing scanned, at a start that varies from boot to boot. */
    constructor (blockCount: nat, lookaheadSize: nat, seed: nat, tree: seq<nat>)
      requires blockCount > 0 && lookaheadSize > 0 && forall b :: b in tree ==> b < blockCount
      ensures Valid() && fresh(buffer)
      ensures this.tree == tree && handed == map[] && scanned == {} && this.blockCount == blockCount
    {
      hide Turn, Bit, Mask;
      this.blockCount := blockCount;
      buffer := new bv8[lookaheadSize];
      start, base := Turn(seed, blockCount), seed;
      size, next, ckpoint := 0, 0, blockCount;
      this.tree := tree;
      handed, scanned := map[], {};
    }

    /** After a checkpoint every block handed out counts as committed. */
    method Checkpoint()
      requires Valid()
      modifies this`ckpoint, this`handed, this`scanned
      ensures Valid() && handed == map[] && ckpoint == blockCount
      ensures scanned == Marked() && scanned <= old(scanned)
    {
      hide Turn, Bit, Mask;
      scanned := Marked();
      ckpoint := blockCount;
      handed := map[];
    }

    /** Drops the window.  This is also a checkpoint. */
    method Drop()
      requires blockCount > 0 && buffer.Length > 0 && start == Turn(base, blockCount)
      requires forall b :: b in tree ==> b < blockCount
      modifies this`size, this`next, this`ckpoint, this`handed, this`scanned
      ensures Valid() && handed == map[] && scanned == {} && size == 0 && ckpoint == blockCount
    {
      size, next := 0, 0;
      ckpoint := blockCount;
      handed, scanned := map[], {};
    }

    /** Marks a block that the traversal visits, if it lies in the window. */
    method Lookahead(block: nat)
      requires blockCount > 0 && block < blockCount && start == Turn(base, blockCount)
      requires size <= blockCount && size <= 8 * buffer.Length
      modifies buffer
      ensures forall p :: 0 <= p < size ==> (Used(p) <==> old(Used(p)) || BlockAt(p) == block)
    {
      hide Turn, Bit, Mask;
      var off := ((block - start) + blockCount) % blockCount;
      forall p | 0 <= p < size
        ensures BlockAt(p) == block <==> p == off
      {
        OffsetOf(base, start, block, p, blockCount);
      }
      if off < size {
        buffer[off / 8] := buffer[off / 8] | Mask(off % 8);
        forall p | 0 <= p < size
          ensures Used(p) <==> old(Used(p)) || p == off
        {
          SetBit(old(buffer[off / 8]), off % 8, p % 8);
          assert p == p / 8 * 8 + p % 8 && off == off / 8 * 8 + off % 8;
        }
      }
    }

    /** Clears the window and marks the blocks that the traversal visits, until it is done or the
        device fails after faultAfter of them. */
    method MarkTree(faultAfter: nat) returns (ok: bool)
      requires blockCount > 0 && start == Turn(base, blockCount)
      requires size <= blockCount && size <= 8 * buffer.Length
      requires forall b :: b in tree ==> b < blockCount
      modifies buffer
      ensures ok == (faultAfter >= |tree|)
      ensures ok ==> forall p :: 0 <= p < size ==> (Used(p) <==> BlockAt(p) in tree)
    {
      hide Turn, Bit, Mask;
      forall i | 0 <= i < buffer.Length {
        buffer[i] := 0;
      }
      NoBits();
      var i := 0;
      while i < |tree| && i < faultAfter
        modifies buffer
        invariant i <= |tree| && i <= faultAfter
        invariant forall p :: 0 <= p < size ==> (Used(p) <==> BlockAt(p) in tree[..i])
      {
        assert tree[i] in tree;
        Lookahead(tree[i]);
        assert tree[..i + 1] == tree[..i] + [tree[i]];
        i := i + 1;
      }
      assert i == |tree| ==> tree[..i] == tree;
      ok := i == |tree|;
    }

    /** Moves the window past what has been looked at, and marks what the tree uses.  A failing
        traversal drops the window. */
    method Scan(faultAfter: nat) returns (ok: bool)
      requires Valid()
      modifies this`start, this`size, this`next, this`ckpoint, this`base, this`handed, this`scanned, buffer
      ensures Valid() && ok == (faultAfter >= |tree|)
      ensures ok ==> base == old(base + next) && next == 0 && size == Min(8 * buffer.Length, ckpoint)
      ensures ok ==> ckpoint == old(ckpoint) && handed == old(handed)
      ensures ok ==> scanned == old(scanned) + Elements(tree)
      ensures ok ==> forall p :: 0 <= p < size ==> (Used(p) <==> BlockAt(p) in tree)
      ensures !ok ==> handed == map[] && scanned == {} && size == 0 && ckpoint == blockCount
    {
      hide Turn, Bit, Mask;
      TurnOfSum(base, next, blockCount);
      start := Turn(start + next, blockCount);
      base := base + next;
      next := 0;
      size := Min(8 * buffer.Length, ckpoint);
      ok := MarkTree(faultAfter);
      if !ok {
        Drop();
        return;
      }
      scanned := scanned + Elements(tree);
      forall p | 0 <= p < size
        ensures BlockAt(p) !in handed
      {
        var b := BlockAt(p);
        if b in handed {
          SameBlockSamePosition(base + p, handed[b], blockCount);
        }
      }
      assert Window();
    }

    /** Moves past the first block of the rest of the window, handing it out if it is free. */
    method Advance()
      requires Valid() && next < size
      modifies this`next, this`ckpoint, this`handed
      ensures Valid() && next == old(next) + 1 && ckpoint == old(ckpoint) - 1
      ensures handed == if Used(old(next)) then old(handed) else old(handed)[old(BlockAt(next)) := base + old(next)]
    {
      hide Turn, Bit, Mask;
      ghost var b := BlockAt(next);
      assert Used(next) ==> b in scanned;
      if !Used(next) {
        handed := handed[b := base + next];
      }
      next := next + 1;
      ckpoint := ckpoint - 1;
      forall p | next <= p < size
        ensures BlockAt(p) != b
      {
        if BlockAt(p) == b {
          SameBlockSamePosition(base + p, base + next - 1, blockCount);
        }
      }
      assert forall p :: next <= p < size ==> Used(p) == old(Used(p)) && BlockAt(p) == old(BlockAt(p));
      assert Window();
    }

    /** When a whole turn has been passed, every block was handed out or found in the tree. */
    lemma NothingLeft()
      requires Valid() && ckpoint == 0
      ensures forall b: nat :: b < blockCount ==> b in handed || b in scanned
    {
      forall b: nat | b < blockCount
        ensures b in handed || b in scanned
      {
        var p := FullTurn(base + next - blockCount, b, blockCount);
      }
    }

    /** Allocates a block.  Scan number k of the call fails after faults(k) visited blocks, or not
        at all if that is no fewer than the tree has.

        A block that is returned is not in the tree and was not handed out since the last
        checkpoint.  The file system is reported full only when every block was handed out since
        the last checkpoint or found in the tree by a scan.  A failing scan drops the window, which
        counts as a checkpoint: whatever was handed out before it may be handed out again. */
    method Alloc(faults: nat -> nat) returns (r: Result, ghost rescanned: bool)
      requires Valid()
      modifies this`start, this`size, this`next, this`ckpoint, this`base, this`handed, this`scanned, buffer
      ensures Valid()
      ensures r.Block? ==>
                && r.block < blockCount && r.block !in tree && r.block !in old(handed)
                && handed.Keys == old(handed).Keys + {r.block}
                && ckpoint < old(ckpoint)
                // the window is left at a free block, or used up
                && (next < size ==> !Used(next))
      ensures r == NoSpace ==>
                && handed == old(handed) && ckpoint == 0
                && forall b: nat :: b < blockCount ==> b in handed || b in scanned
      ensures r == Error ==> handed == map[] && scanned == {} && size == 0 && exists k :: faults(k) < |tree|
      // what is known to be in use is what was known before, and the tree if it was scanned
      ensures r != Error ==>
                && scanned == (if rescanned then old(scanned) + Elements(tree) else old(scanned))
                && base + next + ckpoint == old(base + next + ckpoint)
    {
      hide Turn, Bit, Mask, Behind;
      var scans := 0;
      rescanned := false;
      ghost var known := scanned;
      while true
        invariant Valid() && handed == old(handed) && ckpoint <= old(ckpoint)
        invariant known == old(scanned) && scanned == (if rescanned then known + Elements(tree) else known)
        invariant base + next + ckpoint == old(base + next + ckpoint)
        decreases ckpoint, if next < size then 0 else 1
      {
        // either a block of the window is free, or the window has been passed
        ghost var before, from := ckpoint, next;
        while next < size
          invariant Valid() && handed == old(handed)
          invariant ckpoint <= before && (ckpoint == before ==> next == from)
          invariant base + next + ckpoint == old(base + next + ckpoint)
          decreases size - next
          modifies this`next, this`ckpoint, this`handed
        {
          if !Used(next) {
            r := Block(Turn(start + next, blockCount));
            TurnOfSum(base, next, blockCount);
            Advance();
            // used blocks after it are passed as well, which lowers the count
            while next < size && Used(next)
              invariant Valid() && handed.Keys == old(handed).Keys + {r.block} && r.block !in tree
              invariant ckpoint < old(ckpoint)
              invariant base + next + ckpoint == old(base + next + ckpoint)
              decreases size - next
              modifies this`next, this`ckpoint, this`handed
            {
              Advance();
            }
            return;
          }
          Advance();
        }
        if ckpoint == 0 {
          NothingLeft();
          return NoSpace, rescanned;
        }
        var ok := Scan(faults(scans));
        if !ok {
          return Error, rescanned;
        }
        scans := scans + 1;
        rescanned := true;
      }
    }

    /** A block that was handed out becomes part of the tree. */
    method Commit(block: nat)
      requires Valid() && block in handed
      modifies this`tree
      ensures Valid() && tree == old(tree) + [block]
    {
      hide Turn, Bit, Mask;
      tree := tree + [block];
    }

    /** Blocks leave the tree when files shrink or disappear. */
    method Release(remaining: seq<nat>)
      requires Valid() && forall b :: b in remaining ==> b in tree
      modifies this`tree
      ensures Valid() && tree == remaining
    {
      hide Turn, Bit, Mask;
      tree := remaining;
    }
  }

  // ---- every run

  /** What may happen to a mounted file system, as the allocator sees it.  Indices that point at
      nothing make a step that does nothing. */
  datatype Step =
    | Allocate(faults: nat -> nat)
    | MakeCheckpoint
    | CommitOne(index: nat)
    | ReleaseOne(index: nat)
    | Populate(faultAfter: nat)

  /** What a step shows: a block handed out, or no space left, and whether the tree was scanned to find out; a point
      where a new set of allocations begins, and the blocks that the window still marks there; a scan; or nothing. */
  datatype Event =
    | Handed(block: nat, rescanned: bool)
    | Full(rescanned: bool)
    | Epoch(marked: set<nat>)
    | Scanned
    | Quiet

  /** The blocks handed out since the last epoch began, in order. */
  function InFlight(events: seq<Event>): seq<nat> {
    if events == [] then []
    else
      var before := InFlight(events[..|events| - 1]);
      match events[|events| - 1]
      case Epoch(marked) => []
      case Handed(b, rescanned) => before + [b]
      case Full(rescanned) => before
      case Scanned => before
      case Quiet => before
  }

  predicate Scans(e: Event) {
    match e
    case Handed(b, rescanned) => rescanned
    case Full(rescanned) => rescanned
    case Epoch(marked) => false
    case Scanned => true
    case Quiet => false
  }

  /** The blocks known to be in use: those that the window marked when the last epoch began, and those that scans
      have found in the tree since.  Event number i found the tree to be trees[i]. */
  function Known(events: seq<Event>, trees: seq<seq<nat>>): set<nat>
    requires |events| == |trees|
  {
    if events == [] then {}
    else
      var n := |events| - 1;
      if events[n].Epoch? then events[n].marked
      else Known(events[..n], trees[..n]) + if Scans(events[n]) then Elements(trees[n]) else {}
  }

  /** What a step may show, and what becomes of the tree. */
  ghost predicate Explains(step: Step, e: Event, tree: seq<nat>, tree': seq<nat>, inFlight: seq<nat>, known: set<nat>, n: nat) {
    match step
    case Allocate(faults) =>
      tree' == tree
      && (match e
          case Handed(b, rescanned) => b < n && b !in tree && b !in inFlight
          case Full(rescanned) => forall b: nat :: b < n ==> b in inFlight || b in known || (rescanned && b in tree)
          case Epoch(marked) => marked == {} && exists k :: faults(k) < |tree|
          case Scanned => false
          case Quiet => false)
    case MakeCheckpoint => e.Epoch? && e.marked <= known && tree' == tree
    case CommitOne(k) => e == Quiet && tree' == if k < |inFlight| then tree + [inFlight[k]] else tree
    case ReleaseOne(k) => e == Quiet && tree' == if k < |tree| then tree[..k] + tree[k + 1..] else tree
    case Populate(faultAfter) => e == (if faultAfter < |tree| then Epoch({}) else Scanned) && tree' == tree
  }

  ghost predicate IsRun(steps: seq<Step>, events: seq<Event>, trees: seq<seq<nat>>, n: nat) {
    && |events| == |steps| && |trees| == |steps| + 1
    && forall i {:trigger steps[i]} :: 0 <= i < |steps| ==>
         Explains(steps[i], events[i], trees[i], trees[i + 1], InFlight(events[..i]), Known(events[..i], trees[..i]), n)
  }

  /** In every run, a block that is handed out twice has an epoch begin in between. */
  lemma TwiceMeansEpochBetween(steps: seq<Step>, events: seq<Event>, trees: seq<seq<nat>>, n: nat, i: nat, j: nat)
    requires IsRun(steps, events, trees, n) && i < j < |events|
    requires events[i].Handed? && events[j].Handed? && events[i].block == events[j].block
    ensures exists k :: i < k < j && events[k].Epoch?
  {
    hide InFlight, Known;
    assert steps[j].Allocate?;
    InFlightSince(events[..j], i);
    var k :| i < k < j && events[..j][k].Epoch?;
    assert events[k].Epoch?;
  }

  lemma {:induction false} InFlightSince(events: seq<Event>, i: nat)
    requires i < |events| && events[i].Handed? && events[i].block !in InFlight(events)
    ensures exists k :: i < k < |events| && events[k].Epoch?
    decreases |events|
  {
    var n := |events| - 1;
    if events[n].Epoch? {
      assert i < n;
    } else {
      var before := events[..n];
      assert i < n;
      InFlightSince(before, i);
      var k :| i < k < |before| && before[k].Epoch?;
      assert events[k].Epoch?;
    }
  }

  /** No block is ever handed out while the tree has it. */
  lemma HandedIsFree(steps: seq<Step>, events: seq<Event>, trees: seq<seq<nat>>, n: nat, i: nat)
    requires IsRun(steps, events, trees, n) && i < |events| && events[i].Handed?
    ensures events[i].block < n && events[i].block !in trees[i]
  {
    hide InFlight, Known;
    assert steps[i].Allocate?;
  }

  /** A block that is known to be in use was found in the tree by a scan. */
  lemma {:induction false} KnownWasScanned(steps: seq<Step>, events: seq<Event>, trees: seq<seq<nat>>, n: nat, i: nat, b: nat)
    requires IsRun(steps, events, trees, n) && i <= |events| && b in Known(events[..i], trees[..i])
    ensures exists j :: 0 <= j < i && Scans(events[j]) && b in trees[j]
    decreases i
  {
    hide InFlight;
    if i > 0 {
      assert events[..i][..i - 1] == events[..i - 1] && trees[..i][..i - 1] == trees[..i - 1];
      assert Explains(steps[i - 1], events[i - 1], trees[i - 1], trees[i], InFlight(events[..i - 1]),
                      Known(events[..i - 1], trees[..i - 1]), n);
      if b in Known(events[..i - 1], trees[..i - 1]) {
        KnownWasScanned(steps, events, trees, n, i - 1, b);
      }
    }
  }

  /** The device is reported full only if every block was handed out since the last epoch or was found in the tree by
      a scan of this call or an earlier one. */
  lemma FullIsTruthful(steps: seq<Step>, events: seq<Event>, trees: seq<seq<nat>>, n: nat, i: nat, b: nat)
    requires IsRun(steps, events, trees, n) && i < |events| && events[i].Full? && b < n
    ensures b in InFlight(events[..i]) || exists j :: 0 <= j <= i && Scans(events[j]) && b in trees[j]
  {
    hide InFlight, Known;
    assert steps[i].Allocate?;
    if b in Known(events[..i], trees[..i]) {
      KnownWasScanned(steps, events, trees, n, i, b);
    } else if events[i].rescanned && b in trees[i] {
      assert Scans(events[i]);
    }
  }

  lemma LongerRun(steps: seq<Step>, events: seq<Event>, trees: seq<seq<nat>>, n: nat, step: Step, e: Event, tree: seq<nat>)
    requires IsRun(steps, events, trees, n)
    requires Explains(step, e, trees[|steps|], tree, InFlight(events), Known(events, trees[..|events|]), n)
    ensures IsRun(steps + [step], events + [e], trees + [tree], n)
  {
    hide Explains, InFlight, Known;
    var steps', events', trees' := steps + [step], events + [e], trees + [tree];
    forall i {:trigger steps'[i]} | 0 <= i < |steps'|
      ensures Explains(steps'[i], events'[i], trees'[i], trees'[i + 1], InFlight(events'[..i]), Known(events'[..i], trees'[..i]), n)
    {
      assert events'[..i] == events[..i] && trees'[..i] == trees[..i];
      if i == |steps| {
        assert events[..i] == events;
      }
    }
  }

  /** What one more event, which found a tree, does to the blocks in flight and to those known to be in use. */
  lemma OneMore(events: seq<Event>, e: Event, trees: seq<seq<nat>>, tree: seq<nat>)
    requires |events| == |trees|
    ensures InFlight(events + [e]) == AlsoInFlight(InFlight(events), e)
    ensures Known(events + [e], trees + [tree]) == AlsoKnown(Known(events, trees), e, tree)
  {
    assert (events + [e])[..|events|] == events && (trees + [tree])[..|trees|] == trees;
  }

  function AlsoInFlight(inFlight: seq<nat>, e: Event): seq<nat> {
    if e.Epoch? then [] else if e.Handed? then inFlight + [e.block] else inFlight
  }

  function AlsoKnown(known: set<nat>, e: Event, tree: seq<nat>): set<nat> {
    if e.Epoch? then e.marked else known + if Scans(e) then Elements(tree) else {}
  }

  /** The allocator remembers what a run needs: the blocks in flight, and those known to be in use. */
  ghost predicate Remembers(a: Allocator, inFlight: seq<nat>, known: set<nat>)
    reads a
  {
    a.handed.Keys == Elements(inFlight) && a.scanned == known
  }

  /** One step of a run. */
  method Perform(a: Allocator, step: Step, inFlight: seq<nat>, ghost known: set<nat>) returns (ghost e: Event, inFlight': seq<nat>)
    requires a.Valid() && Remembers(a, inFlight, known)
    modifies a, a.buffer
    ensures a.Valid() && Explains(step, e, old(a.tree), a.tree, inFlight, known, a.blockCount)
    ensures inFlight' == AlsoInFlight(inFlight, e) && Remembers(a, inFlight', AlsoKnown(known, e, old(a.tree)))
  {
    hide Allocator.Valid;
    e, inFlight' := Quiet, inFlight;
    match step
    case Allocate(faults) =>
      e, inFlight' := Request(a, faults, inFlight);
    case MakeCheckpoint =>
      e := NewEpoch(a);
      inFlight' := [];
    case CommitOne(k) =>
      if k < |inFlight| {
        assert inFlight[k] in a.handed.Keys;
        a.Commit(inFlight[k]);
      }
    case ReleaseOne(k) =>
      if k < |a.tree| {
        a.Release(a.tree[..k] + a.tree[k + 1..]);
      }
    case Populate(faultAfter) =>
      var ok := a.Scan(faultAfter);
      e := Scanned;
      if !ok {
        e, inFlight' := Epoch({}), [];
      }
  }

  method NewEpoch(a: Allocator) returns (ghost e: Event)
    requires a.Valid()
    modifies a`ckpoint, a`handed, a`scanned
    ensures a.Valid() && a.handed == map[] && e == Epoch(a.scanned) && a.scanned <= old(a.scanned)
  {
    hide Allocator.Valid;
    a.Checkpoint();
    e := Epoch(a.scanned);
  }

  method Request(a: Allocator, faults: nat -> nat, inFlight: seq<nat>) returns (ghost e: Event, inFlight': seq<nat>)
    requires a.Valid() && a.handed.Keys == Elements(inFlight)
    modifies a, a.buffer
    ensures a.Valid() && a.tree == old(a.tree) && !e.Scanned? && !e.Quiet?
    ensures inFlight' == AlsoInFlight(inFlight, e) && a.handed.Keys == Elements(inFlight')
    ensures a.scanned == AlsoKnown(old(a.scanned), e, a.tree)
    ensures e.Epoch? ==> e.marked == {} && exists k :: faults(k) < |a.tree|
    ensures e.Handed? ==> e.block < a.blockCount && e.block !in a.tree && e.block !in inFlight
    ensures e.Full? ==> forall b: nat :: b < a.blockCount ==> b in inFlight || b in old(a.scanned) || (e.rescanned && b in a.tree)
  {
    hide Allocator.Valid;
    var r;
    ghost var rescanned;
    r, rescanned := a.Alloc(faults);
    match r
    case Block(b) => e, inFlight' := Handed(b, rescanned), inFlight + [b];
    case NoSpace => e, inFlight' := Full(rescanned), inFlight;
    case Error => e, inFlight' := Epoch({}), [];
  }

  /** Every run of allocations, scans, commits, releases and checkpoints keeps the allocator valid, and each
      step shows what it should. */
  method Run(a: Allocator, steps: seq<Step>) returns (ghost events: seq<Event>, ghost trees: seq<seq<nat>>)
    requires a.Valid() && a.handed == map[] && a.scanned == {}
    modifies a, a.buffer
    ensures a.Valid() && IsRun(steps, events, trees, a.blockCount)
    ensures trees[0] == old(a.tree) && trees[|steps|] == a.tree && a.handed.Keys == Elements(InFlight(events))
  {
    hide Allocator.Valid, Explains, InFlight, Known;
    events, trees := [], [a.tree];
    var inFlight: seq<nat> := [];
    EmptyRun(a.tree, a.blockCount);
    for i := 0 to |steps|
      invariant a.Valid() && IsRun(steps[..i], events, trees, a.blockCount)
      invariant Remembers(a, inFlight, Known(events, trees[..i])) && inFlight == InFlight(events)
      invariant trees[0] == old(a.tree) && trees[i] == a.tree
    {
      ghost var e, tree, so := Quiet, a.tree, trees;
      assert so == so[..i] + [tree];
      e, inFlight := Perform(a, steps[i], inFlight, Known(events, trees[..i]));
      LongerRun(steps[..i], events, trees, a.blockCount, steps[i], e, a.tree);
      OneMore(events, e, trees[..i], tree);
      assert steps[..i + 1] == steps[..i] + [steps[i]];
      events, trees := events + [e], trees + [a.tree];
      assert trees[..i + 1] == so;
    }
    assert steps[..|steps|] == steps;
  }

  lemma EmptyRun(tree: seq<nat>, n: nat)
    ensures IsRun([], [], [tree], n) && InFlight([]) == [] && Known([], [tree][..0]) == {}
  {
    assert [tree][..0] == [];
  }

  /** A scan that fails forgets what is in flight: block 1 of two, the other being in use, is handed out twice
      without a checkpoint in between. */
  method TwiceAfterFailedScan() returns (first: Result, ok: bool, second: Result)
    ensures first == second == Block(1) && !ok
  {
    hide Allocator.Valid;
    var a := new Allocator(2, 1, 0, [0]);
    first := TheOtherBlock(a);
    ok := a.Scan(0);
    second := TheOtherBlock(a);
  }

  method TheOtherBlock(a: Allocator) returns (r: Result)
    requires a.Valid() && a.blockCount == 2 && a.tree == [0] && a.handed == map[] && a.scanned == {}
    modifies a, a.buffer
    ensures a.Valid() && a.tree == [0] && r == Block(1)
  {
    hide Allocator.Valid;
    ghost var rescanned;
    r, rescanned := a.Alloc(n => 1);
    assert 0 in a.tree && Elements([0]) == {0};
    assert 1 !in a.scanned;
  }
}
