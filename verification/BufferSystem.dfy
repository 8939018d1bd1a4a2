/** Any number of buffers over one pool: whatever sequence of operations is performed, the buffers
    hold the byte sequences that the operations call for, and no segment is lost or shared. */
module BufferSystem {
  import opened Words
  import opened Mempool
  import opened SegmentBytes
  import opened SegmentLists
  import opened Buffers
  import opened BufferMoves
  import opened BufferCopy

  /** Well formed buffers that share no segment, neither with each other nor with the free list. */
  ghost predicate System(pool: Pool, bs: seq<Buffer>)
    reads pool, pool.free, bs, AllOf(pool, bs)
  {
    && pool.Valid()
    && (forall b :: b in bs ==> b.With(pool))
    && (forall a, b :: a in bs && b in bs && a != b ==> Apart(a, b))
  }

  /** Every segment that is free or held by a buffer. */
  ghost function AllOf(pool: Pool, bs: seq<Buffer>): set<Segment>
    reads pool, bs
  {
    Owned(pool.free) + HeldBy(bs)
  }

  ghost function HeldBy(bs: seq<Buffer>): (held: set<Segment>)
    reads bs
    ensures forall b, s :: b in bs && s in b.segs ==> s in held
  {
    set b, s | b in bs && s in b.segs :: s
  }

  /** The bytes that a buffer holds, and where they start in its first segment. */
  datatype Held = Held(bytes: seq<byte>, offset: nat)

  /** What the buffers hold, and how many segments are free. */
  datatype State = State(held: seq<Held>, free: nat)

  ghost function HeldIn(b: Buffer): Held
    requires b.Sized()
    reads b, b.segs
  {
    Held(b.Contents(), b.bufferOffset)
  }

  ghost function StateOf(pool: Pool, bs: seq<Buffer>): (s: State)
    requires forall b :: b in bs ==> b.Sized()
    reads pool`free, bs, HeldBy(bs)
    ensures |s.held| == |bs| && (forall i :: 0 <= i < |bs| ==> s.held[i] == HeldIn(bs[i])) && s.free == |pool.free|
  {
    State(seq(|bs|, i requires 0 <= i < |bs| && bs[i].Sized() reads bs, HeldBy(bs) => HeldIn(bs[i])), |pool.free|)
  }

  ghost predicate NoRepeats(bs: seq<Buffer>) {
    forall i, j :: 0 <= i < j < |bs| ==> bs[i] != bs[j]
  }

  /** A list of segments in good order, whatever the pool holds. */
  ghost predicate Intact(b: Buffer)
    reads b, b.segs
  {
    b.Sized() && IsList(b.segmentList, b.segs) && Distinct(b.segs)
  }

  /** Buffers that exchange segments with the pool leave all the others in order. */
  lemma OthersStay(pool: Pool, bs: seq<Buffer>, xs: seq<Buffer>, joint: set<Segment>, others: set<Segment>)
    requires System(pool, xs) && AllOf(pool, xs) == joint
    requires forall x :: x in xs ==> x in bs
    requires forall b :: b in bs && b !in xs ==> Intact(b)
    requires forall a, b :: a in bs && b in bs && a !in xs && b !in xs && a != b ==> Apart(a, b)
    requires others == HeldByOthers(bs, xs) && others !! joint
    ensures System(pool, bs)
    ensures AllOf(pool, bs) == joint + others
  {
    hide Intact;
    forall b | b in bs
      ensures b.With(pool)
    {
      if b !in xs {
        IntactWith(pool, b, joint, others);
      }
    }
    forall a, b | a in bs && b in bs && a != b
      ensures Apart(a, b)
    {
      OthersApart(pool, bs, xs, joint, others, a, b);
    }
    assert forall s :: s in AllOf(pool, bs) <==> s in joint + others;
  }

  lemma IntactWith(pool: Pool, b: Buffer, joint: set<Segment>, others: set<Segment>)
    requires pool.Valid() && Intact(b) && Owned(pool.free) <= joint && others !! joint
    requires forall s :: s in b.segs ==> s in others
    ensures b.With(pool)
  {
    forall s | s in b.segs
      ensures s !in pool.free
    {
      assert s !in Owned(pool.free);
    }
  }

  lemma OthersApart(pool: Pool, bs: seq<Buffer>, xs: seq<Buffer>, joint: set<Segment>, others: set<Segment>, a: Buffer, b: Buffer)
    requires AllOf(pool, xs) == joint && a in bs && b in bs && a != b
    requires forall a, b :: a in xs && b in xs && a != b ==> Apart(a, b)
    requires forall a, b :: a in bs && b in bs && a !in xs && b !in xs && a != b ==> Apart(a, b)
    requires others == HeldByOthers(bs, xs) && others !! joint
    ensures Apart(a, b)
  {
    assert forall s :: s in a.segs ==> s in if a in xs then joint else others;
    assert forall s :: s in b.segs ==> s in if b in xs then joint else others;
  }

  datatype Op =
    | Reset(b: nat, size: nat)
    | Extend(b: nat, size: nat)
    | Resize(b: nat, size: nat)
    | Rebase(b: nat, size: nat)
    | Write(b: nat, offset: nat, data: seq<byte>)
    | Append(b: nat, data: seq<byte>)
    | Prepend(b: nat, data: seq<byte>)
    | Move(b: nat, to: nat)
    | Copy(b: nat, to: nat)

  /** The parameters that fit their types, with distinct buffers. */
  predicate Legal(op: Op, n: nat) {
    && op.b < n
    && (op.Reset? || op.Extend? || op.Resize? || op.Rebase? ==> op.size <= MAX_SIZE)
    && (op.Append? || op.Prepend? ==> |op.data| <= MAX_SIZE)
    && (op.Move? || op.Copy? ==> op.to < n && op.to != op.b)
  }

  /** The segments that a buffer takes up. */
  function Used(h: Held): nat {
    SegCount(h.offset, |h.bytes|)
  }

  /** Whether an operation on one buffer succeeds: when it does not ask for too much, and there are segments enough. */
  predicate Works(op: Op, h: Held, free: nat) {
    match op
    case Reset(_, size) => SegCount(0, size) <= Used(h) + free
    case Extend(_, size) => size == 0 || MayGrow(h, size, free)
    case Resize(_, size) => size <= |h.bytes| || SegCount(h.offset, size) <= Used(h) + free
    case Rebase(_, size) => size <= |h.bytes| || SegCount(OffsetBefore(h.offset, size - |h.bytes|), size) <= Used(h) + free
    case Write(_, offset, data) => offset + |data| <= |h.bytes|
    case Append(_, data) => data == [] || MayGrow(h, |data|, free)
    case Prepend(_, data) => data == [] || SegCount(OffsetBefore(h.offset, |data|), |h.bytes| + |data|) <= Used(h) + free
    case Move(_, _) => true
    case Copy(_, _) => true
  }

  predicate MayGrow(h: Held, extra: nat, free: nat) {
    |h.bytes| + extra <= MAX_SIZE && SegCount(h.offset, |h.bytes| + extra) <= Used(h) + free
  }

  /** Effect of an operation on the bytes of the one buffer it concerns.  A failed operation leaves them,
      but for Reset, which discards them. */
  predicate Outcome(op: Op, ok: bool, was: seq<byte>, now: seq<byte>) {
    match op
    case Reset(_, size) => |now| == if ok then size else 0
    case Extend(_, size) => if ok then |now| == |was| + size && now[..|was|] == was else now == was
    case Resize(_, size) =>
      if !ok then now == was
      else |now| == size && var kept := Min(|was|, size); now[..kept] == was[..kept]
    case Rebase(_, size) =>
      if !ok then now == was
      else |now| == size && var kept := Min(|was|, size); now[size - kept..] == was[|was| - kept..]
    case Write(_, offset, data) => ok == (offset + |data| <= |was|) && now == if ok then Patched(was, offset, data) else was
    case Append(_, data) => now == if ok then was + data else was
    case Prepend(_, data) => now == if ok then data + was else was
    case Move(_, _) => true
    case Copy(_, _) => true
  }

  /** Where the bytes start in the first segment afterwards.  If bytes and whole segments go in front, it is after
      the bytes that went with the last of these. */
  predicate Starts(op: Op, ok: bool, was: Held, now: Held) {
    match op
    case Reset(_, _) => now.offset == 0
    case Extend(_, _) => now.offset == was.offset
    case Resize(_, size) => now.offset == if size == 0 then 0 else was.offset
    case Rebase(_, size) =>
      if size == 0 then now.offset == 0
      else if size <= |was.bytes| then 64 * (Used(was) - Used(now)) + now.offset == was.offset + |was.bytes| - size
      else now.offset == if ok then OffsetBefore(was.offset, size - |was.bytes|) else was.offset
    case Write(_, _, _) => now.offset == was.offset
    case Append(_, _) => now.offset == was.offset
    case Prepend(_, data) => now.offset == if ok then OffsetBefore(was.offset, |data|) else was.offset
    case Move(_, _) => true
    case Copy(_, _) => true
  }

  /** An operation on one buffer succeeds exactly when it should, has its effect, and loses no segment. */
  predicate OnOne(op: Op, ok: bool, was: Held, now: Held, free: nat, free': nat) {
    && ok == Works(op, was, free) && Outcome(op, ok, was.bytes, now.bytes) && Starts(op, ok, was, now) && now.offset < 64
    && Used(now) + free' == Used(was) + free
  }

  /** The same for a move or a copy. */
  predicate OnTwo(op: Op, ok: bool, was: Held, wasTo: Held, now: Held, to: Held, free: nat, free': nat) {
    && (if op.Move? then ok && now == Held([], 0) && to == was
        else ok == (Used(was) <= Used(wasTo) + free) && now == was && to == if ok then was else Held([], 0))
    && Used(now) + Used(to) + free' == Used(was) + Used(wasTo) + free
  }

  /** Effect of an operation on the state of all buffers. */
  predicate Follows(op: Op, ok: bool, s: State, t: State)
    requires Legal(op, |s.held|) && |t.held| == |s.held|
  {
    if op.Move? || op.Copy? then
      && t.held == s.held[op.b := t.held[op.b]][op.to := t.held[op.to]]
      && OnTwo(op, ok, s.held[op.b], s.held[op.to], t.held[op.b], t.held[op.to], s.free, t.free)
    else
      t.held == s.held[op.b := t.held[op.b]] && OnOne(op, ok, s.held[op.b], t.held[op.b], s.free, t.free)
  }

  method PerformSize(pool: Pool, b: Buffer, op: Op) returns (ok: bool)
    requires b.With(pool) && (op.Reset? || op.Extend? || op.Resize?) && Legal(op, op.b + 1)
    modifies b, pool, pool.free, b.segs
    ensures b.With(pool) && b.Total(pool) == old(b.Total(pool))
    ensures OnOne(op, ok, old(HeldIn(b)), HeldIn(b), old(|pool.free|), |pool.free|)
  {
    hide View, SegCount, Linked, OffsetBefore, Buffer.Total, Patched;
    if op.Reset? {
      ok := b.Reset(pool, op.size);
    } else if op.Extend? {
      ok := b.Extend(pool, op.size);
    } else {
      ok := b.Resize(pool, op.size);
    }
  }

  lemma HeldUsed(b: Buffer)
    requires b.Sized()
    ensures Used(HeldIn(b)) == |b.segs|
  {
  }

  lemma RebaseOnOne(op: Op, ok: bool, was: Held, now: Held, free: nat, free': nat)
    requires op.Rebase? && |now.bytes| == (if ok then op.size else |was.bytes|) && now.offset < 64
    requires ok <==> op.size <= |was.bytes| || SegCount(OffsetBefore(was.offset, op.size - |was.bytes|), op.size) <= Used(was) + free
    requires var kept := Min(|now.bytes|, |was.bytes|); now.bytes[|now.bytes| - kept..] == was.bytes[|was.bytes| - kept..]
    requires op.size == 0 ==> now.offset == 0
    requires 0 < op.size <= |was.bytes| ==> 64 * (Used(was) - Used(now)) + now.offset == was.offset + |was.bytes| - op.size
    requires op.size > |was.bytes| ==>
               now.offset == if ok then OffsetBefore(was.offset, op.size - |was.bytes|) else was.offset
    requires Used(now) + free' == Used(was) + free
    ensures OnOne(op, ok, was, now, free, free')
  {
    hide Used, OffsetBefore;
  }

  method PerformRebase(pool: Pool, b: Buffer, op: Op) returns (ok: bool)
    requires b.With(pool) && op.Rebase? && Legal(op, op.b + 1)
    modifies b, pool, pool.free, b.segs
    ensures b.With(pool) && b.Total(pool) == old(b.Total(pool))
    ensures OnOne(op, ok, old(HeldIn(b)), HeldIn(b), old(|pool.free|), |pool.free|)
  {
    hide View, SegCount, Linked, OffsetBefore, Buffer.Total, Buffer.Contents, Used, OnOne;
    ghost var was, free := HeldIn(b), |pool.free|;
    HeldUsed(b);
    ok := b.Rebase(pool, op.size);
    HeldUsed(b);
    RebaseOnOne(op, ok, was, HeldIn(b), free, |pool.free|);
  }

  method PerformWrite(pool: Pool, b: Buffer, op: Op) returns (ok: bool)
    requires b.With(pool) && op.Write? && Legal(op, op.b + 1)
    modifies b, pool, pool.free, b.segs
    ensures b.With(pool) && b.Total(pool) == old(b.Total(pool))
    ensures OnOne(op, ok, old(HeldIn(b)), HeldIn(b), old(|pool.free|), |pool.free|)
  {
    hide View, SegCount, Linked, OffsetBefore, Buffer.Total, Patched;
    ok := b.Write(pool, op.offset, op.data);
  }

  method PerformAppend(pool: Pool, b: Buffer, op: Op) returns (ok: bool)
    requires b.With(pool) && op.Append? && Legal(op, op.b + 1)
    modifies b, pool, pool.free, b.segs
    ensures b.With(pool) && b.Total(pool) == old(b.Total(pool))
    ensures OnOne(op, ok, old(HeldIn(b)), HeldIn(b), old(|pool.free|), |pool.free|)
  {
    hide View, SegCount, Linked, OffsetBefore, Buffer.Total, Patched;
    ok := b.Append(pool, op.data);
  }

  method PerformPrepend(pool: Pool, b: Buffer, op: Op) returns (ok: bool)
    requires b.With(pool) && op.Prepend? && b.bufferSize + |op.data| <= MAX_SIZE && Legal(op, op.b + 1)
    modifies b, pool, pool.free, b.segs
    ensures b.With(pool) && b.Total(pool) == old(b.Total(pool))
    ensures OnOne(op, ok, old(HeldIn(b)), HeldIn(b), old(|pool.free|), |pool.free|)
  {
    hide View, SegCount, Linked, OffsetBefore, Buffer.Total, Patched;
    ok := b.Prepend(pool, op.data);
  }

  method PerformOne(pool: Pool, b: Buffer, op: Op) returns (ok: bool)
    requires b.With(pool) && !op.Move? && !op.Copy? && Legal(op, op.b + 1)
    requires op.Prepend? ==> b.bufferSize + |op.data| <= MAX_SIZE
    modifies b, pool, pool.free, b.segs
    ensures b.With(pool) && b.Total(pool) == old(b.Total(pool))
    ensures OnOne(op, ok, old(HeldIn(b)), HeldIn(b), old(|pool.free|), |pool.free|)
  {
    hide OnOne, Buffer.Total, Buffer.With;
    match op
    case Reset(_, _) => ok := PerformSize(pool, b, op);
    case Extend(_, _) => ok := PerformSize(pool, b, op);
    case Resize(_, _) => ok := PerformSize(pool, b, op);
    case Rebase(_, _) => ok := PerformRebase(pool, b, op);
    case Write(_, _, _) => ok := PerformWrite(pool, b, op);
    case Append(_, _) => ok := PerformAppend(pool, b, op);
    case Prepend(_, _) => ok := PerformPrepend(pool, b, op);
  }

  method PerformTwo(pool: Pool, b: Buffer, to: Buffer, op: Op) returns (ok: bool)
    requires b.With(pool) && to.With(pool) && Apart(b, to) && (op.Move? || op.Copy?)
    modifies b, to, pool, pool.free, to.segs
    ensures b.With(pool) && to.With(pool) && Apart(b, to)
    ensures Joint(pool, b, to) == old(Joint(pool, b, to))
    ensures OnTwo(op, ok, old(HeldIn(b)), old(HeldIn(to)), HeldIn(b), HeldIn(to), old(|pool.free|), |pool.free|)
  {
    hide View, SegCount, IsList, Distinct;
    match op
    case Move(_, _) =>
      OwnedJoin(to.segs, pool.free);
      EmptyList();
      BufferMoves.Move(pool, b, to);
      ok := true;
    case Copy(_, _) =>
      ok := BufferCopy.Copy(pool, b, to);
  }

  /** The segments of the buffers that an operation does not concern. */
  ghost function HeldByOthers(bs: seq<Buffer>, xs: seq<Buffer>): (held: set<Segment>)
    reads bs
    ensures forall b, s :: b in bs && b !in xs && s in b.segs ==> s in held
  {
    set b, s | b in bs && b !in xs && s in b.segs :: s
  }

  lemma Parts(pool: Pool, bs: seq<Buffer>, xs: seq<Buffer>)
    requires System(pool, bs) && forall x :: x in xs ==> x in bs
    ensures System(pool, xs)
    ensures HeldByOthers(bs, xs) !! AllOf(pool, xs)
    ensures AllOf(pool, bs) == AllOf(pool, xs) + HeldByOthers(bs, xs)
    ensures forall c :: c in bs ==> c.With(pool) && Intact(c)
    ensures forall a, b :: a in bs && b in bs && a != b ==> Apart(a, b)
  {
    hide Buffer.Sized, IsList, Distinct, Pool.Valid;
  }

  lemma OneSystem(pool: Pool, b: Buffer)
    requires b.With(pool)
    ensures System(pool, [b]) && AllOf(pool, [b]) == b.Total(pool)
  {
  }

  lemma TwoSystem(pool: Pool, b: Buffer, to: Buffer)
    requires b.With(pool) && to.With(pool) && Apart(b, to)
    ensures System(pool, [b, to]) && AllOf(pool, [b, to]) == Joint(pool, b, to)
  {
  }

  /** Performs an operation on one buffer, with the other buffers left alone. */
  method PerformOneAside(pool: Pool, bs: seq<Buffer>, b: Buffer, op: Op, ghost others: set<Segment>) returns (ok: bool)
    requires b.With(pool) && !op.Move? && !op.Copy? && Legal(op, op.b + 1)
    requires op.Prepend? ==> b.bufferSize + |op.data| <= MAX_SIZE
    requires others !! b.Total(pool)
    requires forall c :: c in bs && c != b ==> Intact(c) && forall s :: s in c.segs ==> s in others
    modifies b, pool, pool.free, b.segs
    ensures b.With(pool) && b.Total(pool) == old(b.Total(pool))
    ensures OnOne(op, ok, old(HeldIn(b)), HeldIn(b), old(|pool.free|), |pool.free|)
    ensures forall c :: c in bs && c != b ==> Intact(c) && c.segs == old(c.segs) && HeldIn(c) == old(HeldIn(c))
  {
    hide View, SegCount, OnOne, Distinct, Buffer.With;
    ok := PerformOne(pool, b, op);
    forall c | c in bs && c != b
      ensures Intact(c) && c.segs == old(c.segs) && HeldIn(c) == old(HeldIn(c))
    {
      assert forall s :: s in c.segs ==> s in others;
      assert forall s :: s in c.segs ==> s.next == old(s.next) && s.bytes == old(s.bytes);
    }
  }

  method StepOne(pool: Pool, bs: seq<Buffer>, b: Buffer, op: Op) returns (ok: bool)
    requires System(pool, bs) && b in bs
    requires !op.Move? && !op.Copy? && Legal(op, op.b + 1)
    requires op.Prepend? ==> b.bufferSize + |op.data| <= MAX_SIZE
    modifies b, pool, pool.free, b.segs
    ensures System(pool, bs) && AllOf(pool, bs) == old(AllOf(pool, bs))
    ensures OnOne(op, ok, old(HeldIn(b)), HeldIn(b), old(|pool.free|), |pool.free|)
    ensures forall c :: c in bs && c != b ==> HeldIn(c) == old(HeldIn(c))
  {
    hide View, SegCount, OnOne, Distinct, System, AllOf, HeldBy, Intact, Buffer.Total;
    ghost var xs := [b];
    Parts(pool, bs, xs);
    ghost var joint, others := AllOf(pool, xs), HeldByOthers(bs, xs);
    OneSystem(pool, b);
    ok := PerformOneAside(pool, bs, b, op, others);
    OneSystem(pool, b);
    OthersStay(pool, bs, xs, joint, others);
  }

  /** Performs a move or a copy, with the other buffers left alone. */
  method PerformAside(pool: Pool, bs: seq<Buffer>, b: Buffer, to: Buffer, op: Op, ghost others: set<Segment>) returns (ok: bool)
    requires b.With(pool) && to.With(pool) && Apart(b, to) && (op.Move? || op.Copy?)
    requires others !! Joint(pool, b, to)
    requires forall c :: c in bs && c != b && c != to ==> Intact(c) && forall s :: s in c.segs ==> s in others
    modifies b, to, pool, pool.free, to.segs
    ensures b.With(pool) && to.With(pool) && Apart(b, to) && Joint(pool, b, to) == old(Joint(pool, b, to))
    ensures OnTwo(op, ok, old(HeldIn(b)), old(HeldIn(to)), HeldIn(b), HeldIn(to), old(|pool.free|), |pool.free|)
    ensures forall c :: c in bs && c != b && c != to ==>
                          Intact(c) && c.segs == old(c.segs) && HeldIn(c) == old(HeldIn(c))
  {
    hide View, SegCount, OnTwo, Distinct, Buffer.With, Apart;
    ok := PerformTwo(pool, b, to, op);
    forall c | c in bs && c != b && c != to
      ensures Intact(c) && c.segs == old(c.segs) && HeldIn(c) == old(HeldIn(c))
    {
      assert forall s :: s in c.segs ==> s in others;
      assert forall s :: s in c.segs ==> s.next == old(s.next) && s.bytes == old(s.bytes);
    }
  }

  method StepTwo(pool: Pool, bs: seq<Buffer>, b: Buffer, to: Buffer, op: Op) returns (ok: bool)
    requires System(pool, bs) && b in bs && to in bs && b != to && (op.Move? || op.Copy?)
    modifies b, to, pool, pool.free, to.segs
    ensures System(pool, bs) && AllOf(pool, bs) == old(AllOf(pool, bs))
    ensures OnTwo(op, ok, old(HeldIn(b)), old(HeldIn(to)), HeldIn(b), HeldIn(to), old(|pool.free|), |pool.free|)
    ensures forall c :: c in bs && c != b && c != to ==> HeldIn(c) == old(HeldIn(c))
  {
    hide View, SegCount, OnTwo, Distinct, System, AllOf, HeldBy, Intact, Joint;
    ghost var xs := [b, to];
    Parts(pool, bs, xs);
    ghost var joint, others := AllOf(pool, xs), HeldByOthers(bs, xs);
    TwoSystem(pool, b, to);
    ok := PerformAside(pool, bs, b, to, op, others);
    TwoSystem(pool, b, to);
    OthersStay(pool, bs, xs, joint, others);
  }

  lemma InSystem(pool: Pool, bs: seq<Buffer>)
    requires System(pool, bs)
    ensures forall b :: b in bs ==> b.Sized() && Owned(b.segs) <= HeldBy(bs)
    ensures pool.Valid() && Owned(pool.free) <= AllOf(pool, bs)
  {
  }

  /** An operation, whether it was called, and its result. */
  datatype Event = Event(op: Op, ok: bool, called: bool)

  /** An event takes the contents from one state to the next. */
  predicate Explains(e: Event, s: State, t: State) {
    && Legal(e.op, |s.held|) && |t.held| == |s.held|
    && e.called == !(e.op.Prepend? && |s.held[e.op.b].bytes| + |e.op.data| > MAX_SIZE)
    && if e.called then Follows(e.op, e.ok, s, t) else t == s
  }

  predicate IsRun(events: seq<Event>, states: seq<State>) {
    && |states| == |events| + 1
    && forall i {:trigger events[i]} :: 0 <= i < |events| ==> Explains(events[i], states[i], states[i + 1])
  }

  /** A change of the buffers concerned and of no others. */
  lemma ExplainedBy(op: Op, ok: bool, called: bool, s: State, t: State)
    requires Legal(op, |s.held|) && |t.held| == |s.held|
    requires called == !(op.Prepend? && |s.held[op.b].bytes| + |op.data| > MAX_SIZE)
    requires !called ==> t == s
    requires called ==> forall i :: 0 <= i < |s.held| && i != op.b && ((op.Move? || op.Copy?) ==> i != op.to)
                                    ==> t.held[i] == s.held[i]
    requires op.Move? || op.Copy? ==> OnTwo(op, ok, s.held[op.b], s.held[op.to], t.held[op.b], t.held[op.to], s.free, t.free)
    requires called && !op.Move? && !op.Copy? ==> OnOne(op, ok, s.held[op.b], t.held[op.b], s.free, t.free)
    ensures Explains(Event(op, ok, called), s, t)
  {
    hide OnOne, OnTwo;
  }

  /** Performs an operation, but for a Prepend whose size would be narrowed. */
  method Step(pool: Pool, bs: seq<Buffer>, op: Op) returns (ok: bool, called: bool)
    requires System(pool, bs) && NoRepeats(bs) && Legal(op, |bs|)
    modifies pool, bs, AllOf(pool, bs)
    ensures System(pool, bs) && AllOf(pool, bs) == old(AllOf(pool, bs))
    ensures Explains(Event(op, ok, called), old(StateOf(pool, bs)), StateOf(pool, bs))
  {
    hide View, SegCount, IsList, Distinct, OnOne, OnTwo, System, Explains, Buffer.Sized;
    InSystem(pool, bs);
    ghost var s := StateOf(pool, bs);
    var b := bs[op.b];
    ok, called := false, true;
    if op.Move? || op.Copy? {
      ok := StepTwo(pool, bs, b, bs[op.to], op);
    } else if op.Prepend? && b.bufferSize + |op.data| > MAX_SIZE {
      called := false;
    } else {
      ok := StepOne(pool, bs, b, op);
    }
    InSystem(pool, bs);
    ExplainedBy(op, ok, called, s, StateOf(pool, bs));
  }

  lemma EmptyRun(s: State)
    ensures IsRun([], [s])
  {
  }

  lemma LongerRun(events: seq<Event>, states: seq<State>, e: Event, t: State)
    requires IsRun(events, states) && Explains(e, states[|events|], t)
    ensures IsRun(events + [e], states + [t])
  {
    hide Explains;
  }

  /** Performs any sequence of operations on any buffers of a system. */
  method Run(pool: Pool, bs: seq<Buffer>, ops: seq<Op>) returns (events: seq<Event>, ghost states: seq<State>)
    requires System(pool, bs) && NoRepeats(bs) && forall op :: op in ops ==> Legal(op, |bs|)
    modifies pool, bs, AllOf(pool, bs)
    ensures System(pool, bs) && AllOf(pool, bs) == old(AllOf(pool, bs))
    ensures |events| == |ops| && forall i :: 0 <= i < |ops| ==> events[i].op == ops[i]
    ensures IsRun(events, states)
    ensures states[0] == old(StateOf(pool, bs)) && states[|ops|] == StateOf(pool, bs)
  {
    hide View, SegCount, IsList, Distinct, System, Legal, Explains, IsRun, Buffer.Sized, AllOf, HeldBy;
    InSystem(pool, bs);
    ghost var start := StateOf(pool, bs);
    events, states := [], [start];
    EmptyRun(start);
    for k := 0 to |ops|
      invariant System(pool, bs) && AllOf(pool, bs) == old(AllOf(pool, bs))
      invariant forall b :: b in bs ==> b.Sized()
      invariant |events| == k && |states| == k + 1 && forall i :: 0 <= i < k ==> events[i].op == ops[i]
      invariant IsRun(events, states)
      invariant states[0] == start && states[k] == StateOf(pool, bs)
    {
      assert ops[k] in ops;
      var ok, called := Step(pool, bs, ops[k]);
      InSystem(pool, bs);
      ghost var now := StateOf(pool, bs);
      LongerRun(events, states, Event(ops[k], ok, called), now);
      events, states := events + [Event(ops[k], ok, called)], states + [now];
    }
  }
}
