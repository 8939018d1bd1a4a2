/** Reading and writing directories: the backward lookup over the packed tags of a block. */
module LfsDir {
  import opened Words
  import opened LfsLog
  import opened LfsCompact
  import opened LfsLogBounds
  import opened LfsImage

  datatype GetResult = NoEntry | Got(tag: uint32, buffer: seq<byte>)

  lemma {:induction false} BackHitIsLogged(log: seq<Entry>, id: nat, q: Query)
    requires LoggableAll(log) && Back(log, id, q).Hit? && ValidQuery(q)
    ensures Loggable(Back(log, id, q).e)
    decreases |log|
  {
    BackStepFacts(log[|log| - 1], id, q);
    var t := BackStep(log[|log| - 1], id, q);
    if t.Pass? {
      BackHitIsLogged(log[..|log| - 1], t.id, q);
    }
  }

  /** The tag before the one at off, from the word at off. */
  method ReadBackward(dir: Dir, off: nat, tag: uint32, ghost log: seq<Entry>, ghost i: nat) returns (ntag: uint32)
    requires dir.Holds(log) && i < |log| && off == Start(log, i) && tag % VALID_BIT == Num(log[i])
    ensures ntag < VALID_BIT && ntag == LastTag(log[..i], FIRST) % VALID_BIT
  {
    hide Be32, Masked32, Num, Encode;
    TagOnDisk(dir, log, i);
    var word := FromBe32(dir.block[off..off + 4]);
    Be32RoundTrip(Masked32(Num(log[i]), LastTag(log[..i], FIRST)));
    ChainBothWays(Num(log[i]), LastTag(log[..i], FIRST), tag, word);
    ntag := Masked32(word, tag) % VALID_BIT;
  }

  lemma NothingLeft(tag: uint32)
    requires tag % VALID_BIT == FIRST % VALID_BIT
    ensures TagDsize(tag) == 4
  {
    assert tag % 0x400 == 0x3ff;
  }

  /** Why the walk goes on while a whole tag fits before it: the tag is the newest of those left. */
  lemma NewestLeft(dir: Dir, log: seq<Entry>, i: nat, ntag: uint32)
    requires dir.Holds(log) && i <= |log| && ntag % VALID_BIT == LastTag(log[..i], FIRST) % VALID_BIT
    ensures Start(log, i) >= 4 + TagDsize(ntag) <==> i > 0
    ensures i > 0 ==> Start(log, i) == Start(log, i - 1) + TagDsize(ntag) && Start(log, i) <= dir.off
    ensures i > 0 ==> ntag % VALID_BIT == Num(log[i - 1])
    ensures i > 0 ==> dir.block[Start(log, i - 1) + 4..Start(log, i)] == log[i - 1].data
  {
    hide Be32, Masked32, Num, TagDsize;
    if i > 0 {
      hide Encode;
      TagOnDisk(dir, log, i - 1);
      assert log[..i][i - 1] == log[i - 1];
      Unpacked(ntag, log[i - 1]);
    } else {
      NothingLeft(ntag);
    }
  }

  /** The tag that is searched for, renumbered, has the type asked for and the id reached. */
  lemma SearchedFor(kind: nat, id: nat, gdiff: int)
    requires kind < 0x400 && id < 0x400 && 0 <= id - gdiff < 0x400
    ensures var current := AddIds(kind * 0x10_0000 + id * 0x400, -gdiff);
            TagId(current) == id - gdiff && TagType3(current) == kind
  {
    FieldsOf(kind, id - gdiff, 0, kind * 0x10_0000 + (id - gdiff) * 0x400);
  }

  /** The word that lookups compare tags with: the tag searched for, renumbered. */
  function Current(q: Query, id: nat, gdiff: int): uint32
    requires q.kind < 0x400 && id < 0x400
  {
    AddIds(q.kind * 0x10_0000 + id * 0x400, -gdiff)
  }

  predicate SplicesBelow(tag: uint32, current: uint32) {
    TagType3(tag) / 0x100 == 4 && TagId(tag) <= TagId(current)
  }

  predicate Creates(tag: uint32, current: uint32) {
    TagType3(tag) == TYPE_CREATE && TagId(tag) == TagId(current) && TagSize(tag) == 0
  }

  predicate MatchesTag(q: Query, tag: uint32, current: uint32) {
    Masked(q.mask, TagType3(tag)) == Masked(q.mask, TagType3(current)) && TagId(tag) == TagId(current)
  }

  /** The tests on packed words decide a step of the search. */
  lemma TestsDecide(q: Query, id: nat, gdiff: int, e: Entry, tag: uint32)
    requires ValidQuery(q) && Loggable(e) && tag % VALID_BIT == Num(e)
    requires id < NO_ID && 0 <= id - gdiff < NO_ID
    ensures var current := Current(q, id, gdiff);
            var splices := SplicesBelow(tag, current);
            var gdiff' := if splices then gdiff + TagSplice(tag) else gdiff;
            var t := BackStep(e, id - gdiff, q);
            && (splices && Creates(tag, current) <==> t.Created?)
            && (!t.Created? ==> (MatchesTag(q, tag, Current(q, id, gdiff')) <==> t.Hit?))
            && (t.Hit? ==> t.e == e && gdiff' == gdiff && (!e.IsDelete() ==>
                AddIds(tag, gdiff) % VALID_BIT == Num(e.(id := id))))
            && (t.Pass? ==> t.id == id - gdiff')
    ensures TagIsDelete(tag) == e.IsDelete() && TagSize(tag) == e.size
  {
    Unpacked(tag, e);
    BackStepFacts(e, id - gdiff, q);
    SearchedFor(q.kind, id, gdiff);
    var t := BackStep(e, id - gdiff, q);
    if t.Pass? {
      SearchedFor(q.kind, id, id - t.id);
    } else if t.Hit? {
      AddIdsMoves(tag, e, gdiff);
    }
  }

  /** What the search makes of the newest of the tags left. */
  lemma SearchStep(log: seq<Entry>, i: nat, id: nat, q: Query)
    requires 0 < i <= |log| && LoggableAll(log) && WellFormed(log[..i]) && InBounds(log[..i], id) && ValidQuery(q)
    ensures var t := BackStep(log[i - 1], id, q);
            && id < NO_ID
            && Back(log[..i], id, q) == (if t.Pass? then Back(log[..i - 1], t.id, q) else t)
            && (t.Pass? ==> t.id >= 0 && InBounds(log[..i - 1], t.id) && WellFormed(log[..i - 1]))
  {
    hide BackStep, InBounds, Replay;
    BackStepInBounds(log[..i], id, q);
    assert log[..i][..i - 1] == log[..i - 1];
  }

  /** Copies out the value that was found. */
  method ReadValue(dir: Dir, off: nat, tag: uint32, id: nat, gdiff: int, gsize: nat, ghost log: seq<Entry>, ghost i: nat)
    returns (r: GetResult)
    requires dir.Holds(log) && i < |log| && off == Start(log, i) && id < NO_ID
    requires tag % VALID_BIT == Num(log[i]) && !log[i].IsDelete()
    requires AddIds(tag, gdiff) % VALID_BIT == Num(log[i].(id := id))
    ensures r.Got? && r.tag < VALID_BIT && |r.buffer| == gsize
    ensures TagType3(r.tag) == log[i].kind && TagId(r.tag) == id && TagSize(r.tag) == log[i].size == |log[i].data|
    ensures forall k :: 0 <= k < gsize ==> r.buffer[k] == if k < log[i].size then log[i].data[k] else 0
  {
    hide AddIds, Num, Encode;
    Unpacked(tag, log[i]);
    TagOnDisk(dir, log, i);
    var diff := if TagSize(tag) < gsize then TagSize(tag) else gsize;
    SliceOfSlice(dir.block, off + 4, off + 4 + TagSize(tag), 0, diff);
    r := Got(AddIds(tag, gdiff) % VALID_BIT, dir.block[off + 4..off + 4 + diff] + seq(gsize - diff, _ => 0));
    Unpacked(r.tag, log[i].(id := id));
  }

  /** Looks up the newest value of an entry that matches a query, walking the block backwards.
      The result is the value that forward replay of the whole log gives the entry: its tag, numbered
      as asked, and as much of its data as the buffer takes, with zeros after it. */
  method Get(dir: Dir, q: Query, id: nat, gsize: nat, ghost log: seq<Entry>) returns (r: GetResult)
    requires dir.Holds(log) && WellFormed(log) && InBounds(log, id) && ValidQuery(q) && id < NO_ID
    ensures var value := Newest(HistoryOf(Replay(log), id), q);
            && (value == None <==> r == NoEntry)
            && (value.Some? ==>
                  var e := value.value;
                  && r.tag < VALID_BIT && TagType3(r.tag) == e.kind && TagId(r.tag) == id && TagSize(r.tag) == e.size
                  && |r.buffer| == gsize && |e.data| == e.size
                  && forall k :: 0 <= k < gsize ==> r.buffer[k] == if k < e.size then e.data[k] else 0)
  {
    hide Replay, Newest, HistoryOf, Num, Loggable, Masked32, Encode, Be32, AddIds, Current, SplicesBelow, Creates, MatchesTag, TagIsDelete, TagSize,
         TagDsize, TagSplice, BackStep, WellFormed, InBounds, Start, LastTag;
    BackwardSearchIsReplay(log, id, q);
    if Back(log, id, q).Hit? {
      BackHitIsLogged(log, id, q);
    }
    var off: nat := dir.off;
    var ntag: uint32 := dir.etag;
    // how far, in ids, the entry has been renumbered so far
    var gdiff: int := 0;
    ghost var i := |log|;
    StartOfEnd(dir, log);
    assert log[..i] == log;
    NewestLeft(dir, log, i, ntag);

    while off >= 4 + TagDsize(ntag)
      invariant i <= |log| && off == Start(log, i)
      invariant ntag % VALID_BIT == LastTag(log[..i], FIRST) % VALID_BIT
      invariant off >= 4 + TagDsize(ntag) <==> i > 0
      invariant id - gdiff >= 0 && WellFormed(log[..i]) && InBounds(log[..i], id - gdiff)
      invariant Back(log, id, q) == Back(log[..i], id - gdiff, q)
      decreases i
    {
      NewestLeft(dir, log, i, ntag);
      SearchStep(log, i, id - gdiff, q);
      i := i - 1;
      off := off - TagDsize(ntag);
      var tag: uint32 := ntag;
      ntag := ReadBackward(dir, off, tag, log, i);

      TestsDecide(q, id, gdiff, log[i], tag);
      if SplicesBelow(tag, Current(q, id, gdiff)) {
        if Creates(tag, Current(q, id, gdiff)) {
          // the entry did not exist before
          return NoEntry;
        }
        // before this splice the entry had another number
        gdiff := gdiff + TagSplice(tag);
      }
      if MatchesTag(q, tag, Current(q, id, gdiff)) {
        if TagIsDelete(tag) {
          return NoEntry;
        }
        r := ReadValue(dir, off, tag, id, gdiff, gsize, log, i);
        return;
      }
      NewestLeft(dir, log, i, ntag);
    }
    return NoEntry;
  }
}
