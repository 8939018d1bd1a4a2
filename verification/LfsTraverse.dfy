/** Writing directories: appending tags to a block, and the traversal that compacts a directory
    and its pending attributes into a new block. */
module LfsTraverse {
  import opened Words
  import opened LfsLog
  import opened LfsCompact
  import opened LfsLogBounds
  import opened LfsImage
  import opened LfsDir

  /** An attribute waiting in memory to be written. */
  datatype Attr = Attr(tag: uint32, data: seq<byte>)

  function EntryOf(a: Attr): Entry {
    Entry(TagType3(a.tag), TagId(a.tag), TagSize(a.tag), a.data)
  }

  predicate IsNoop(tag: uint32) {
    TagType3(tag) == TYPE_NOOP
  }

  predicate ValidAttrs(attrs: seq<Attr>) {
    forall i :: 0 <= i < |attrs| ==> attrs[i].tag < VALID_BIT && (attrs[i].tag == 0 || Loggable(EntryOf(attrs[i])))
  }

  /** The attributes that say something. */
  function Pending(attrs: seq<Attr>): (p: seq<Entry>)
    requires ValidAttrs(attrs)
    ensures LoggableAll(p)
  {
    if attrs == [] then []
    else if attrs[0].tag == 0 then Pending(attrs[1..])
    else [EntryOf(attrs[0])] + Pending(attrs[1..])
  }

  /** Of attributes that all say something none is left out, and the packed words are those given. */
  lemma {:induction false} PendingAreAll(attrs: seq<Attr>)
    requires ValidAttrs(attrs) && forall a :: a in attrs ==> a.tag != 0
    ensures |Pending(attrs)| == |attrs|
    ensures forall i :: 0 <= i < |attrs| ==> Num(Pending(attrs)[i]) == attrs[i].tag && Pending(attrs)[i].data == attrs[i].data
  {
    hide Num;
    if attrs != [] {
      PendingAreAll(attrs[1..]);
      PackedAgain(attrs[0].tag, attrs[0].data);
    }
  }

  lemma PackedAgain(tag: uint32, data: seq<byte>)
    requires tag < VALID_BIT
    ensures Num(EntryOf(Attr(tag, data))) == tag
  {
    var low := tag / 0x400;
    assert tag == low * 0x400 + tag % 0x400 && low == low / 0x400 * 0x400 + low % 0x400;
    assert low / 0x400 == tag / 0x10_0000;
  }

  /** A commit in progress: the block written so far and the tag to mask the next one with. */
  class Commit {
    var block: seq<byte>
    var off: nat
    var ptag: uint32
    const end: nat

    constructor (revision: seq<byte>, end: nat)
      requires |revision| == 4
      ensures Holds([]) && this.end == end && block == revision
    {
      block, off, ptag := revision, 4, FIRST;
      this.end := end;
    }

    ghost predicate Holds(log: seq<Entry>)
      reads this
    {
      off == |block| && Dir(block, off, ptag).Holds(log) && ptag == LastTag(log, FIRST)
    }

    /** Appends one tag and its data, if it fits. */
    method CommitAttr(tag: uint32, data: seq<byte>, ghost log: seq<Entry>, ghost e: Entry) returns (ok: bool)
      requires Holds(log) && Loggable(e) && tag % VALID_BIT == Num(e) && data == e.data
      modifies this
      ensures ok <==> old(off) + TagDsize(tag) <= end
      ensures ok ==> Holds(log + [e]) && off == old(off) + 4 + |data|
      ensures !ok ==> block == old(block) && off == old(off) && ptag == old(ptag)
      ensures block[..4] == old(block)[..4]
    {
      hide Be32, Masked32, Num, TagDsize, Encode;
      Unpacked(tag, e);
      var dsize := TagDsize(tag);
      if off + dsize > end {
        return false;
      }
      AppendEncodes(Dir(block, off, ptag), log, e);
      var ntag: uint32 := Masked32(tag % VALID_BIT, ptag);
      block := block + (Be32(ntag) + data);
      off := off + dsize;
      ptag := tag % VALID_BIT;
      ok := true;
    }
  }

  lemma AppendEncodes(dir: Dir, log: seq<Entry>, e: Entry)
    requires dir.Holds(log) && dir.off == |dir.block| && dir.etag == LastTag(log, FIRST) && Loggable(e)
    ensures var cell := Be32(Masked32(Num(e), dir.etag)) + e.data;
            Dir(dir.block + cell, dir.off + |cell|, Num(e)).Holds(log + [e])
  {
    hide Be32, Masked32, Num;
    var longer := log + [e];
    assert longer[..|log|] == log && longer[..|log| + 1] == longer;
    EncodeOlder(longer, |log|);
    var cell := Be32(Masked32(Num(e), dir.etag)) + e.data;
    assert (dir.block + cell)[4..dir.off + |cell|] == dir.block[4..dir.off] + cell;
  }

  // ---- traversal

  /** Where a traversal stands: the tag last read from the block, and the next attribute. */
  datatype Cursor = Cursor(off: nat, ptag: uint32, next: nat)

  /** The cursor has consumed i tags of the log, and attributes only after all of them. */
  ghost predicate StandsAt(c: Cursor, i: nat, log: seq<Entry>, attrs: seq<Attr>)
    requires LoggableAll(log)
  {
    && i <= |log| && c.next <= |attrs| && (i < |log| ==> c.next == 0)
    && c.off + TagDsize(c.ptag) == Start(log, i)
    && c.ptag % VALID_BIT == LastTag(log[..i], FIRST) % VALID_BIT
  }

  /** What is still to come. */
  ghost function Rest(c: Cursor, i: nat, log: seq<Entry>, attrs: seq<Attr>): (r: seq<Entry>)
    requires LoggableAll(log) && ValidAttrs(attrs) && i <= |log| && c.next <= |attrs|
    ensures LoggableAll(r)
  {
    log[i..] + Pending(attrs[c.next..])
  }

  /** How many tags and attributes are still to come, attributes that say nothing included. */
  ghost function Left(c: Cursor, i: nat, log: seq<Entry>, attrs: seq<Attr>): nat
    requires i <= |log| && c.next <= |attrs|
  {
    |log| - i + |attrs| - c.next
  }

  lemma FirstTag(dir: Dir, log: seq<Entry>, attrs: seq<Attr>)
    requires dir.Holds(log)
    ensures StandsAt(Cursor(0, FIRST, 0), 0, log, attrs)
  {
    NothingLeft(FIRST);
  }

  lemma StartBeforeEnd(dir: Dir, log: seq<Entry>, i: nat)
    requires dir.Holds(log) && i <= |log|
    ensures Start(log, i) < dir.off <==> i < |log|
  {
    hide Encode, Be32, Masked32, Num;
    StartOfEnd(dir, log);
    if i < |log| {
      TagOnDisk(dir, log, i);
    }
  }

  /** The tag at off with its data, from the word at off and the tag before it. */
  method ReadForward(dir: Dir, off: nat, ptag: uint32, ghost log: seq<Entry>, ghost i: nat)
    returns (tag: uint32, data: seq<byte>)
    requires dir.Holds(log) && i < |log| && off == Start(log, i)
    requires ptag % VALID_BIT == LastTag(log[..i], FIRST) % VALID_BIT
    ensures tag % VALID_BIT == Num(log[i]) && data == log[i].data && !IsNoop(tag)
    ensures off + TagDsize(tag) == Start(log, i + 1)
  {
    hide Encode, Be32, Masked32, Num;
    TagOnDisk(dir, log, i);
    var word := FromBe32(dir.block[off..off + 4]);
    Be32RoundTrip(Masked32(Num(log[i]), LastTag(log[..i], FIRST)));
    ChainBothWays(Num(log[i]), LastTag(log[..i], FIRST), ptag, word);
    tag := Masked32(word, ptag) % VALID_BIT + VALID_BIT;
    Unpacked(tag, log[i]);
    data := dir.block[off + 4..off + TagDsize(tag)];
  }

  /** Reads the next tag: from the block while it lasts, then from the pending attributes. */
  method Next(dir: Dir, attrs: seq<Attr>, c: Cursor, ghost i: nat, ghost log: seq<Entry>)
    returns (more: bool, tag: uint32, data: seq<byte>, c': Cursor, ghost i': nat)
    requires dir.Holds(log) && ValidAttrs(attrs) && StandsAt(c, i, log, attrs)
    ensures i' <= |log| && c'.next <= |attrs| && StandsAt(c', i', log, attrs)
    ensures more ==> Left(c', i', log, attrs) < Left(c, i, log, attrs)
    ensures !more ==> Rest(c, i, log, attrs) == []
    ensures more && IsNoop(tag) ==> tag == 0 && Rest(c', i', log, attrs) == Rest(c, i, log, attrs)
    ensures more && !IsNoop(tag) ==>
              var rest := Rest(c, i, log, attrs);
              rest != [] && tag % VALID_BIT == Num(rest[0]) && data == rest[0].data
              && Rest(c', i', log, attrs) == rest[1..]
  {
    hide Encode, Be32, Masked32, Num, TagDsize;
    StartBeforeEnd(dir, log, i);
    if c.off + TagDsize(c.ptag) < dir.off {
      var off := c.off + TagDsize(c.ptag);
      tag, data := ReadForward(dir, off, c.ptag, log, i);
      c' := Cursor(off, tag, c.next);
      i' := i + 1;
      more := true;
      assert log[..i + 1][i] == log[i];
    } else if |attrs| - c.next > 0 {
      tag, data := attrs[c.next].tag, attrs[c.next].data;
      c', i', more := c.(next := c.next + 1), i, true;
      assert attrs[c.next..][1..] == attrs[c.next + 1..];
      if tag != 0 {
        AttrUnpacked(attrs[c.next]);
      }
    } else {
      more, tag, data, c', i' := false, 0, [], c, i;
    }
  }

  lemma AttrUnpacked(a: Attr)
    requires a.tag < VALID_BIT && Loggable(EntryOf(a))
    ensures a.tag % VALID_BIT == Num(EntryOf(a)) && !IsNoop(a.tag)
  {
    var low := a.tag / 0x400;
    assert a.tag == low * 0x400 + a.tag % 0x400 && low == low / 0x400 * 0x400 + low % 0x400;
    assert low / 0x400 == a.tag / 0x10_0000;
  }

  /** The filter on packed words: passes one waiting tag through a later one. */
  method Filter(filtertag: uint32, tag: uint32, ghost f: Entry, ghost t: Entry) returns (r: uint32, drop: bool)
    requires Filterable(f) && f.id < 0x400 && f.size < 0x400 && filtertag % VALID_BIT == Num(f)
    requires Loggable(t) && tag % VALID_BIT == Num(t)
    requires FilterStep(f, t).Some? ==> 0 <= FilterStep(f, t).value.id < 0x400
    ensures drop <==> FilterStep(f, t) == None
    ensures drop ==> r == 0
    ensures !drop ==> r % VALID_BIT == Num(FilterStep(f, t).value)
  {
    Unpacked(tag, t);
    FieldsOf(f.kind, f.id, f.size, filtertag);
    var mask := if TagType3(tag) / 0x100 % 2 == 1 then M7FF else M700;
    if (Masked(mask, TagType3(tag)) == Masked(mask, TagType3(filtertag)) && TagId(tag) == TagId(filtertag))
       || TagIsDelete(filtertag)
       || (TagType3(tag) == TYPE_DELETE && TagId(tag) == TagId(filtertag)) {
      return 0, true;
    }
    if TagType3(tag) / 0x100 == 4 && TagId(tag) <= TagId(filtertag) {
      AddIdsMoves(filtertag, f, TagSplice(tag));
      return AddIds(filtertag, TagSplice(tag)), false;
    }
    return filtertag, false;
  }

  /** What a tag leaves in the new block once it has passed all the later ones. */
  function Leave(f: Option, begin: nat, end: nat): seq<Entry> {
    if InRange(f, begin, end) && f.value.kind != TYPE_NOOP then [f.value.(id := f.value.id - begin)] else []
  }

  function Passed(f: Option, later: seq<Entry>): Option {
    if f.None? then None else Survive(f.value, later)
  }

  /** The waiting tag: a packed word, and the tag it stands for unless a later one has dropped it. */
  ghost predicate Waiting(tag: uint32, f: Option, all: seq<Entry>, rest: seq<Entry>)
    requires LoggableAll(all)
  {
    && |rest| <= |all| && all[|all| - |rest|..] == rest
    && (f.None? ==> tag == 0)
    && (f.Some? ==> Filterable(f.value) && f.value.size < 0x400 && f.value.id < 0x400 && tag % VALID_BIT == Num(f.value)
                    && f.value.id <= |Replay(all[..|all| - |rest|])|)
  }

  /** Passing the waiting tag through the first of the later ones. */
  lemma WaitingStep(tag: uint32, f: Entry, all: seq<Entry>, rest: seq<Entry>)
    requires LoggableAll(all) && WellFormed(all) && rest != [] && Waiting(tag, Some(f), all, rest)
    ensures Loggable(rest[0])
    ensures var r := FilterStep(f, rest[0]);
            && Passed(Some(f), rest) == Passed(r, rest[1..])
            && (r.Some? ==> 0 <= r.value.id < 0x400 && Filterable(r.value) && r.value.size < 0x400)
            && (r.Some? ==> forall tag': uint32 :: tag' % VALID_BIT == Num(r.value)
                              ==> Waiting(tag', r, all, rest[1..]))
  {
    hide Num, Apply, Replay, FilterStep;
    var n := |all| - |rest|;
    assert all[n] == rest[0] && all[n + 1..] == rest[1..];
    ReplayOneMore(all, n);
    FilterStepInBounds(Replay(all[..n]), f, rest[0]);
    WellFormedPrefix(all, n + 1);
    FilterStepFilterable(f, rest[0]);
    PassedFirst(f, rest);
  }

  lemma PassedFirst(f: Entry, rest: seq<Entry>)
    requires rest != []
    ensures Passed(Some(f), rest) == Passed(FilterStep(f, rest[0]), rest[1..])
  {
  }

  lemma FilterStepFilterable(f: Entry, t: Entry)
    requires Filterable(f) && Loggable(t)
    ensures var r := FilterStep(f, t); r.Some? && r.value.id >= 0 ==> Filterable(r.value) && r.value.size == f.size
  {
  }

  /** The newest tag of a log lies within the entries it replays to. */
  lemma WaitingStarts(all: seq<Entry>, rest: seq<Entry>, tag: uint32)
    requires LoggableAll(all) && WellFormed(all) && rest != [] && |rest| <= |all| && all[|all| - |rest|..] == rest
    requires tag % VALID_BIT == Num(rest[0]) && rest[0].kind < 0x400
    ensures Waiting(tag, Some(rest[0]), all, rest[1..])
  {
    hide Num, WellFormed, Replay;
    var n := |all| - |rest|;
    assert all[n] == rest[0] && all[n + 1..] == rest[1..];
    ReplayOneMore(all, n);
  }

  datatype Frame = Frame(cursor: Cursor, tag: uint32, data: seq<byte>)

  /** Everything the traversal is to write. */
  ghost function Target(log: seq<Entry>, attrs: seq<Attr>, begin: nat, end: nat): (t: seq<Entry>)
    requires LoggableAll(log) && ValidAttrs(attrs) && begin <= end <= NO_ID
    ensures LoggableAll(t)
  {
    CompactedLoggable(log + Pending(attrs), begin, end);
    Compacted(log + Pending(attrs), begin, end)
  }

  /** A tag that does not fit shows that the whole does not fit. */
  lemma Overflows(out: seq<Entry>, e: Entry, more: seq<Entry>)
    requires LoggableAll(out) && LoggableAll(more) && Loggable(e)
    ensures LoggableAll(out + [e] + more)
    ensures |Encode(out + [e] + more, FIRST)| >= |Encode(out, FIRST)| + 4 + |e.data|
  {
    hide Be32, Masked32, Num;
    var one := out + [e];
    assert one[..|out|] == out && one[..|out| + 1] == one;
    EncodeOlder(one, |out|);
    EncodeConcat(one, more, FIRST);
  }

  /** Commits a waiting tag that no later tag has dropped, if it is an entry to keep. */
  method Settle(commit: Commit, tag: uint32, data: seq<byte>, begin: nat, end: nat,
                ghost f: Option, ghost all: seq<Entry>, ghost out: seq<Entry>, ghost more: seq<Entry>)
    returns (ok: bool)
    requires begin <= end <= NO_ID && LoggableAll(out) && LoggableAll(more) && commit.Holds(out)
    requires LoggableAll(all) && Waiting(tag, f, all, []) && Carries(f, data)
    requires commit.off <= commit.end
    modifies commit
    ensures LoggableAll(out + Leave(f, begin, end) + more)
    ensures ok ==> commit.Holds(out + Leave(f, begin, end)) && commit.off <= commit.end
    ensures !ok ==> 4 + |Encode(out + Leave(f, begin, end) + more, FIRST)| > commit.end
    ensures |commit.block| >= 4 && commit.block[..4] == old(commit.block)[..4]
  {
    hide Encode, Be32, Masked32, Num, AddIds, TagDsize, Waiting;
    WaitingFields(tag, f, all, []);
    ghost var left := Leave(f, begin, end);
    if TagId(tag) < begin || TagId(tag) >= end || IsNoop(tag) {
      assert left == [] && out + left == out;
      ok := true;
    } else {
      ghost var e := f.value.(id := f.value.id - begin);
      AddIdsMoves(tag, f.value, 0 - begin);
      Unpacked(AddIds(tag, 0 - begin), e);
      Overflows(out, e, more);
      ok := commit.CommitAttr(AddIds(tag, 0 - begin), data, out, e);
    }
  }

  /** The data travels with the waiting tag. */
  predicate Carries(f: Option, data: seq<byte>) {
    f.Some? && f.value.kind != TYPE_NOOP ==>
      data == f.value.data && |data| == (if f.value.IsDelete() then 0 else f.value.size)
  }

  lemma WaitingFields(tag: uint32, f: Option, all: seq<Entry>, rest: seq<Entry>)
    requires LoggableAll(all) && Waiting(tag, f, all, rest)
    ensures f.None? ==> IsNoop(tag)
    ensures f.Some? ==> Filterable(f.value) && f.value.size < 0x400 && f.value.id < 0x400
    ensures f.Some? ==> tag % VALID_BIT == Num(f.value) && TagId(tag) == f.value.id && TagType3(tag) == f.value.kind
  {
    if f.Some? {
      FieldsOf(f.value.kind, f.value.id, f.value.size, tag);
    }
  }

  lemma {:induction false} PendingSuffix(attrs: seq<Attr>, n: nat)
    requires ValidAttrs(attrs) && n <= |attrs|
    ensures |Pending(attrs[n..])| <= |Pending(attrs)|
    ensures Pending(attrs)[|Pending(attrs)| - |Pending(attrs[n..])|..] == Pending(attrs[n..])
  {
    if n > 0 {
      assert attrs[1..][n - 1..] == attrs[n..];
      PendingSuffix(attrs[1..], n - 1);
    }
  }

  ghost predicate IsSuffix(rest: seq<Entry>, all: seq<Entry>) {
    |rest| <= |all| && all[|all| - |rest|..] == rest
  }

  lemma RestIsSuffix(c: Cursor, i: nat, log: seq<Entry>, attrs: seq<Attr>)
    requires LoggableAll(log) && ValidAttrs(attrs) && i <= |log| && c.next <= |attrs| && StandsAt(c, i, log, attrs)
    ensures IsSuffix(Rest(c, i, log, attrs), log + Pending(attrs))
  {
    hide Encode;
    PendingSuffix(attrs, c.next);
  }

  lemma TraverseStarts(dir: Dir, log: seq<Entry>, attrs: seq<Attr>)
    requires dir.Holds(log) && ValidAttrs(attrs)
    ensures var c := Cursor(0, FIRST, 0);
            StandsAt(c, 0, log, attrs) && Rest(c, 0, log, attrs) == log + Pending(attrs)
  {
    hide Encode;
    FirstTag(dir, log, attrs);
  }

  lemma Skipped(tag: uint32, rest: seq<Entry>, begin: nat, end: nat)
    requires rest != [] && Loggable(rest[0]) && tag % VALID_BIT == Num(rest[0])
    ensures TagType3(tag) == rest[0].kind
    ensures rest[0].kind >= 0x400 ==> Compacted(rest, begin, end) == Compacted(rest[1..], begin, end)
    ensures Carries(Some(rest[0]), rest[0].data)
  {
    hide Num;
    Unpacked(tag, rest[0]);
  }

  /** Pushing a tag to keep leaves the same to be written. */
  lemma Pushed(tag: uint32, rest: seq<Entry>, all: seq<Entry>, begin: nat, end: nat)
    requires LoggableAll(all) && WellFormed(all) && IsSuffix(rest, all) && rest != []
    requires Loggable(rest[0]) && tag % VALID_BIT == Num(rest[0]) && rest[0].kind < 0x400
    ensures Waiting(tag, Some(rest[0]), all, rest[1..])
    ensures Compacted(rest, begin, end)
         == Leave(Passed(Some(rest[0]), rest[1..]), begin, end) + Compacted(rest[1..], begin, end)
    ensures Carries(Some(rest[0]), rest[0].data)
  {
    hide Num, Survive, Replay, WellFormed, Waiting, Compacted, Leave, Passed;
    WaitingStarts(all, rest, tag);
    PushedLeaves(rest, begin, end);
  }

  lemma PushedLeaves(rest: seq<Entry>, begin: nat, end: nat)
    requires rest != [] && LoggableAll(rest) && rest[0].kind < 0x400
    ensures Compacted(rest, begin, end)
         == Leave(Passed(Some(rest[0]), rest[1..]), begin, end) + Compacted(rest[1..], begin, end)
  {
    hide Survive;
    SurviveKeeps(rest[0], rest[1..]);
  }

  const NOTHING: Entry := Entry(TYPE_NOOP, 0, 0, [])

  lemma PushedNothing(rest: seq<Entry>, all: seq<Entry>, begin: nat, end: nat, data: seq<byte>)
    requires LoggableAll(all) && LoggableAll(rest) && IsSuffix(rest, all)
    ensures Waiting(0, Some(NOTHING), all, rest) && Leave(Passed(Some(NOTHING), rest), begin, end) == []
    ensures Carries(Some(NOTHING), data) && TagType3(0) == 0
  {
    SurviveKeeps(NOTHING, rest);
  }

  /** One pass of the filter, as the traversal sees it. */
  method FilterWaiting(waiting: uint32, tag: uint32, ghost f: Entry, ghost all: seq<Entry>, ghost rest: seq<Entry>)
    returns (r: uint32, drop: bool)
    requires LoggableAll(all) && WellFormed(all) && rest != [] && Waiting(waiting, Some(f), all, rest)
    requires Loggable(rest[0]) && tag % VALID_BIT == Num(rest[0])
    ensures var f' := FilterStep(f, rest[0]);
            && drop == f'.None? && Passed(Some(f), rest) == Passed(f', rest[1..])
            && Waiting(r, f', all, if drop then [] else rest[1..])
    ensures forall data: seq<byte> :: Carries(Some(f), data) ==> Carries(FilterStep(f, rest[0]), data)
  {
    hide Num, WellFormed;
    WaitingStep(waiting, f, all, rest);
    FilterStepCarries(f, rest[0]);
    r, drop := Filter(waiting, tag, f, rest[0]);
  }

  lemma FilterStepCarries(f: Entry, t: Entry)
    ensures forall data: seq<byte> :: Carries(Some(f), data) ==> Carries(FilterStep(f, t), data)
  {
  }

  lemma NothingToWrite(begin: nat, end: nat)
    ensures |Encode([], FIRST)| == 0 && Compacted([], begin, end) == []
  {
  }

  lemma PassedEnds(f: Option, rest: seq<Entry>)
    ensures rest == [] || f.None? ==> Passed(f, rest) == f
  {
  }

  /** Compacts a directory and its pending attributes.  The traversal is the one of the C code:
      one loop whose recursion is an explicit stack.  With the stack empty it reads the tags to
      keep; each is pushed and passed through the rest of the tags by the same loop, which then
      pops it and commits it if it is in range.  The block written holds the compacted log. */
  method Traverse(dir: Dir, attrs: seq<Attr>, begin: nat, end: nat, commit: Commit, ghost log: seq<Entry>)
    returns (ok: bool)
    requires dir.Holds(log) && ValidAttrs(attrs) && WellFormed(log + Pending(attrs)) && begin <= end <= NO_ID
    requires commit.Holds([]) && commit.end >= 4
    modifies commit
    ensures ok ==> commit.Holds(Target(log, attrs, begin, end)) && commit.block[..4] == old(commit.block)[..4]
    ensures ok <==> 4 + |Encode(Target(log, attrs, begin, end), FIRST)| <= commit.end
  {
    hide Encode, Compacted, Leave, Passed, Waiting, WellFormed, StandsAt, Rest, IsNoop, TagType3, Num;
    ghost var all := log + Pending(attrs);
    ghost var target := Target(log, attrs, begin, end);
    var cursor, stack: seq<Frame>, popped := Cursor(0, FIRST, 0), [], false;
    var tag: uint32, data: seq<byte> := 0, [];
    ghost var i: nat, si: nat, f: Option, out: seq<Entry> := 0, 0, None, [];
    assert commit.off == 4 by { NothingToWrite(begin, end); }
    TraverseStarts(dir, log, attrs);

    while true
      invariant commit.Holds(out) && LoggableAll(out) && commit.off <= commit.end
      invariant commit.block[..4] == old(commit.block)[..4]
      invariant i <= |log| && cursor.next <= |attrs| && StandsAt(cursor, i, log, attrs)
      invariant |stack| <= 1 && (popped ==> stack == [])
      invariant stack == [] && !popped ==> out + Compacted(Rest(cursor, i, log, attrs), begin, end) == target
      invariant popped ==>
                  && Waiting(tag, f, all, []) && Carries(f, data)
                  && out + Leave(f, begin, end) + Compacted(Rest(cursor, i, log, attrs), begin, end) == target
      invariant stack != [] ==>
                  && si <= |log| && stack[0].cursor.next <= |attrs| && StandsAt(stack[0].cursor, si, log, attrs)
                  && f.Some? && Carries(f, stack[0].data)
                  && Waiting(stack[0].tag, f, all, Rest(cursor, i, log, attrs))
                  && out + Leave(Passed(f, Rest(cursor, i, log, attrs)), begin, end)
                     + Compacted(Rest(stack[0].cursor, si, log, attrs), begin, end) == target
      decreases if stack == [] then Left(cursor, i, log, attrs) else Left(stack[0].cursor, si, log, attrs),
                if stack != [] then 2 + Left(cursor, i, log, attrs) else if popped then 1 else 0
    {
      ghost var rest := Rest(cursor, i, log, attrs);
      RestIsSuffix(cursor, i, log, attrs);
      if !popped {
        var more;
        more, tag, data, cursor, i := Next(dir, attrs, cursor, i, log);
        if !more {
          if stack == [] {
            // nothing waits any more
            NothingToWrite(begin, end);
            assert out + [] == out;
            assert out == target;
            break;
          }
          // the waiting tag has met all later ones
          PassedEnds(f, rest);
          cursor, tag, data, i := stack[0].cursor, stack[0].tag, stack[0].data, si;
          stack, popped := [], true;
          continue;
        }
        if stack == [] {
          // splices and the like are not copied: renumbering makes up for them
          if !IsNoop(tag) {
            Skipped(tag, rest, begin, end);
          } else {
            PushedNothing(rest, all, begin, end, data);
          }
          if TagType3(tag) >= 0x400 {
            continue;
          }
          // the tag waits while the later ones are gone through
          if !IsNoop(tag) {
            Pushed(tag, rest, all, begin, end);
            f := Some(rest[0]);
          } else {
            f := Some(NOTHING);
          }
          stack, si := [Frame(cursor, tag, data)], i;
          continue;
        }
      }
      if popped {
        popped := false;
        CompactedLoggable(rest, begin, end);
        var settled := Settle(commit, tag, data, begin, end, f, all, out, Compacted(rest, begin, end));
        if !settled {
          return false;
        }
        out := out + Leave(f, begin, end);
      } else if !IsNoop(tag) {
        var filtered, drop := FilterWaiting(stack[0].tag, tag, f.value, all, rest);
        f := FilterStep(f.value, rest[0]);
        PassedEnds(f, rest[1..]);
        stack := [stack[0].(tag := filtered)];
        if drop {
          cursor, tag, data, i := stack[0].cursor, stack[0].tag, stack[0].data, si;
          stack, popped := [], true;
        }
      }
    }
    ok := true;
  }

  /** A lookup of entry id, renumbered, answers in the compacted log what it answers in the log
      with the pending attributes applied. */
  ghost predicate AnswersAlike(log: seq<Entry>, attrs: seq<Attr>, begin: nat, end: nat, id: nat, k: Query)
    requires LoggableAll(log) && ValidAttrs(attrs) && begin <= id < end <= NO_ID
  {
    var after := Target(log, attrs, begin, end);
    && InBounds(after, id - begin)
    && Newest(HistoryOf(Replay(after), id - begin), k)
    == At(Newest(HistoryOf(Replay(log + Pending(attrs)), id), k), id - begin)
  }

  /** After a compaction every lookup of a name, a struct or a user attribute in the new block
      answers what it would have answered in the old one with the pending attributes applied. */
  lemma NewBlockAnswersAlike(log: seq<Entry>, attrs: seq<Attr>, begin: nat, end: nat, id: nat, k: Query)
    requires LoggableAll(log) && ValidAttrs(attrs) && begin <= id < end <= NO_ID && IsClass(k)
    ensures AnswersAlike(log, attrs, begin, end, id, k)
  {
    hide Compacted, Newest, HistoryOf, Replay, At, Loggable;
    var all := log + Pending(attrs);
    CompactedLoggable(all, begin, end);
    PlainLogWellFormed(Compacted(all, begin, end), end - begin);
    CompactionPreservesReplay(all, begin, end, id, k);
  }

  lemma TargetWellFormed(log: seq<Entry>, attrs: seq<Attr>, begin: nat, end: nat)
    requires LoggableAll(log) && ValidAttrs(attrs) && begin <= end <= NO_ID
    ensures WellFormed(Target(log, attrs, begin, end)) && |Replay(Target(log, attrs, begin, end))| <= end - begin
  {
    var all := log + Pending(attrs);
    CompactedLoggable(all, begin, end);
    PlainLogWellFormed(Compacted(all, begin, end), end - begin);
  }

  /** The revision count as it starts a block, the least significant byte first. */
  function Le32(w: uint32): (s: seq<byte>)
    ensures |s| == 4
    ensures var a: int, b: int, c: int, d: int := s[0], s[1], s[2], s[3];
            w == a + b * 0x100 + c * 0x1_0000 + d * 0x100_0000
  {
    var p, q := w / 0x100, w / 0x1_0000;
    assert w == p * 0x100 + w % 0x100 && p == q * 0x100 + p % 0x100 && q == w / 0x100_0000 * 0x100 + q % 0x100;
    [w % 0x100, w / 0x100 % 0x100, w / 0x1_0000 % 0x100, w / 0x100_0000]
  }

  /** Writes a compacted copy of a directory: the revision, which is one more than before, then the traversal. */
  method Compact(dir: Dir, attrs: seq<Attr>, begin: nat, end: nat, rev: uint32, limit: nat, ghost log: seq<Entry>)
    returns (ok: bool, copy: Dir)
    requires dir.Holds(log) && ValidAttrs(attrs) && WellFormed(log + Pending(attrs)) && begin <= end <= NO_ID
    requires limit >= 4
    ensures ok <==> 4 + |Encode(Target(log, attrs, begin, end), FIRST)| <= limit
    ensures ok ==> copy.Holds(Target(log, attrs, begin, end)) && WellFormed(Target(log, attrs, begin, end))
    ensures |Replay(Target(log, attrs, begin, end))| <= end - begin
    ensures ok ==> |copy.block| == copy.off && copy.block[..4] == Le32((rev + 1) % 0x1_0000_0000)
    ensures forall id: nat, k: Query :: begin <= id < end && IsClass(k) ==> AnswersAlike(log, attrs, begin, end, id, k)
  {
    hide Encode, Target, WellFormed, AnswersAlike, Replay, Le32;
    var commit := new Commit(Le32((rev + 1) % 0x1_0000_0000), limit);
    ok := Traverse(dir, attrs, begin, end, commit, log);
    copy := Dir(commit.block, commit.off, commit.ptag);
    TargetWellFormed(log, attrs, begin, end);
    forall id: nat, k: Query | begin <= id < end && IsClass(k)
      ensures AnswersAlike(log, attrs, begin, end, id, k)
    {
      NewBlockAnswersAlike(log, attrs, begin, end, id, k);
    }
  }
}
