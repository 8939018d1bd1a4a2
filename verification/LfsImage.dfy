/** The metadata log as it lies on disk: big-endian tags, each masked with the one before it. */
module LfsImage {
  import opened Words
  import opened LfsLog

  /** The tag that the first tag of a block is masked with. */
  const FIRST: uint32 := 0xffff_ffff

  const VALID_BIT: nat := 0x8000_0000

  // ---- tags packed into words: valid bit, 11 bit type, 10 bit id, 10 bit size

  function TagType3(tag: uint32): nat {
    tag / 0x10_0000 % 0x800
  }

  function TagId(tag: uint32): nat {
    tag / 0x400 % 0x400
  }

  function TagSize(tag: uint32): nat {
    tag % 0x400
  }

  predicate TagIsDelete(tag: uint32) {
    TagSize(tag) == 0x3ff
  }

  /** The size on disk of a tag and its data. */
  function TagDsize(tag: uint32): nat {
    4 + (tag + (if TagIsDelete(tag) then 1 else 0)) % 0x400
  }

  function TagSplice(tag: uint32): int {
    var chunk := TagType3(tag) % 0x100;
    if chunk < 0x80 then chunk else chunk - 0x100
  }

  /** Adding to the id field of a packed tag, as the C code does it: on the whole word. */
  function AddIds(tag: uint32, n: int): uint32 {
    (tag + n * 0x400) % 0x1_0000_0000
  }

  function Num(e: Entry): (tag: uint32)
    requires e.kind < 0x800 && 0 <= e.id < 0x400 && e.size < 0x400
    ensures tag < VALID_BIT
  {
    e.kind * 0x10_0000 + e.id * 0x400 + e.size
  }

  lemma FieldsOf(kind: nat, id: nat, size: nat, tag: uint32)
    requires kind < 0x800 && id < 0x400 && size < 0x400
    requires tag % VALID_BIT == kind * 0x10_0000 + id * 0x400 + size
    ensures tag % 0x400 == size && tag / 0x400 % 0x400 == id && tag / 0x10_0000 % 0x800 == kind
  {
    var high := if tag < VALID_BIT then 0 else 0x800;
    assert tag == (high + kind) * 0x10_0000 + id * 0x400 + size;
    assert tag / 0x400 == (high + kind) * 0x400 + id;
    assert tag / 0x10_0000 == high + kind;
  }

  /** The packed word and the fields carry the same information, whatever the valid bit. */
  lemma Unpacked(tag: uint32, e: Entry)
    requires Loggable(e) && tag % VALID_BIT == Num(e)
    ensures TagType3(tag) == e.kind && TagId(tag) == e.id && TagSize(tag) == e.size
    ensures TagIsDelete(tag) == e.IsDelete() && TagSplice(tag) == e.Splice()
    ensures TagDsize(tag) == 4 + |e.data|
  {
    hide TagType3, TagId, TagSize, TagDsize, Num;
    UnpackedFields(tag, e);
    DsizeBySize(tag);
  }

  lemma UnpackedFields(tag: uint32, e: Entry)
    requires Loggable(e) && tag % VALID_BIT == Num(e)
    ensures TagType3(tag) == e.kind && TagId(tag) == e.id && TagSize(tag) == e.size
  {
    FieldsOf(e.kind, e.id, e.size, tag);
  }

  lemma DsizeBySize(tag: uint32)
    ensures TagDsize(tag) == 4 + if TagIsDelete(tag) then 0 else TagSize(tag)
  {
    var q := tag / 0x400;
    assert tag == q * 0x400 + TagSize(tag);
    if TagIsDelete(tag) {
      RemainderIs(tag + 1, 0x400, q + 1, 0);
    }
  }

  lemma AddIdsMoves(tag: uint32, e: Entry, n: int)
    requires e.kind < 0x800 && 0 <= e.id < 0x400 && e.size < 0x400
    requires tag % VALID_BIT == Num(e) && 0 <= e.id + n < 0x400
    ensures AddIds(tag, n) % VALID_BIT == Num(e.(id := e.id + n))
  {
  }

  // ---- the bytes of a log

  function Encode(log: seq<Entry>, ptag: uint32): seq<byte>
    requires LoggableAll(log)
  {
    if log == [] then []
    else Be32(Masked32(Num(log[0]), ptag)) + log[0].data + Encode(log[1..], Num(log[0]))
  }

  function Masked32(tag: uint32, ptag: uint32): uint32 {
    Pow2Values();
    XorBounded(tag, ptag, 32);
    Xor(tag, ptag)
  }

  function LastTag(log: seq<Entry>, ptag: uint32): uint32
    requires LoggableAll(log)
  {
    if log == [] then ptag else Num(log[|log| - 1])
  }

  lemma {:induction false} EncodeConcat(a: seq<Entry>, b: seq<Entry>, ptag: uint32)
    requires LoggableAll(a) && LoggableAll(b)
    ensures LoggableAll(a + b)
    ensures Encode(a + b, ptag) == Encode(a, ptag) + Encode(b, LastTag(a, ptag))
    decreases |a|
  {
    hide Be32, Masked32, Xor;
    if a == [] {
      assert a + b == b;
    } else {
      hide Num;
      var rest, p := a[1..], Num(a[0]);
      assert (a + b)[1..] == rest + b;
      EncodeConcat(rest, b, p);
      assert LastTag(rest, p) == LastTag(a, ptag);
    }
  }

  /** A block holds a log up to an offset; etag is the last tag, whatever its valid bit. */
  datatype Dir = Dir(block: seq<byte>, off: nat, etag: uint32) {
    ghost predicate Holds(log: seq<Entry>) {
      && LoggableAll(log)
      && 4 <= off <= |block| && block[4..off] == Encode(log, FIRST)
      && etag % VALID_BIT == LastTag(log, FIRST) % VALID_BIT
    }
  }

  /** Where tag i of the log starts. */
  function Start(log: seq<Entry>, i: nat): nat
    requires LoggableAll(log) && i <= |log|
  {
    4 + |Encode(log[..i], FIRST)|
  }

  /** The bytes of one tag and its data. */
  function Cell(log: seq<Entry>, i: nat): (c: seq<byte>)
    requires LoggableAll(log) && i < |log|
    ensures |c| == 4 + |log[i].data|
  {
    Be32(Masked32(Num(log[i]), LastTag(log[..i], FIRST))) + log[i].data
  }

  lemma EncodeOlder(log: seq<Entry>, i: nat)
    requires LoggableAll(log) && i < |log|
    ensures Encode(log[..i + 1], FIRST) == Encode(log[..i], FIRST) + Cell(log, i)
  {
    var older, one := log[..i], [log[i]];
    EncodeConcat(older, one, FIRST);
    assert one[1..] == [];
    var p := LastTag(older, FIRST);
    assert Encode(one, p) == Cell(log, i) + Encode([], Num(log[i]));
    assert log[..i + 1] == older + one;
  }

  lemma EncodeAround(log: seq<Entry>, i: nat)
    requires LoggableAll(log) && i < |log|
    ensures Encode(log, FIRST) == Encode(log[..i], FIRST) + Cell(log, i) + Encode(log[i + 1..], Num(log[i]))
  {
    hide Be32, Masked32, Num, Xor, Encode, Cell, Loggable;
    var older, newer := log[..i + 1], log[i + 1..];
    assert log == older + newer && older[|older| - 1] == log[i];
    EncodeOlder(log, i);
    EncodeConcat(older, newer, FIRST);
  }

  /** A user attribute that is written twice, as bytes: the first tag is masked with all ones, and the second
      one, which is the same, with the first. */
  lemma AttributeTwice()
    ensures var log := [Entry(0x301, 4, 2, [0x61, 0x62]), Entry(0x301, 4, 2, [0x63, 0x64])];
            && LoggableAll(log)
            && Encode(log, FIRST) == [0xCF, 0xEF, 0xEF, 0xFD, 0x61, 0x62, 0x00, 0x00, 0x00, 0x00, 0x63, 0x64]
  {
    hide Xor, Pow2;
    var log := [Entry(0x301, 4, 2, [0x61, 0x62]), Entry(0x301, 4, 2, [0x63, 0x64])];
    assert log[1..] == [Entry(0x301, 4, 2, [0x63, 0x64])] && log[1..][1..] == [];
    Pow2Values();
    XorOnes(0x3010_1002, 32);
    XorSelf(0x3010_1002);
  }

  lemma Slices(s: seq<byte>, a: seq<byte>, w: seq<byte>, d: seq<byte>, rest: seq<byte>)
    requires s == a + (w + d) + rest
    ensures s[|a|..|a| + |w|] == w && s[|a| + |w|..|a| + |w| + |d|] == d
  {
  }

  lemma SliceOfSlice(s: seq<byte>, lo: nat, hi: nat, a: nat, b: nat)
    requires lo <= hi <= |s| && a <= b <= hi - lo
    ensures s[lo..hi][a..b] == s[lo + a..lo + b]
  {
    var x, y := s[lo..hi][a..b], s[lo + a..lo + b];
    assert forall k :: 0 <= k < |x| ==> x[k] == y[k];
  }

  /** What lies at the start of tag i. */
  lemma TagOnDisk(dir: Dir, log: seq<Entry>, i: nat)
    requires dir.Holds(log) && i < |log|
    ensures Start(log, i + 1) == Start(log, i) + 4 + |log[i].data| <= dir.off
    ensures dir.block[Start(log, i)..Start(log, i) + 4] == Be32(Masked32(Num(log[i]), LastTag(log[..i], FIRST)))
    ensures dir.block[Start(log, i) + 4..Start(log, i + 1)] == log[i].data
  {
    hide Be32, Masked32, Num, Xor, Encode;
    EncodeOlder(log, i);
    EncodeAround(log, i);
    var bytes, start := dir.block[4..dir.off], Start(log, i);
    var w := Be32(Masked32(Num(log[i]), LastTag(log[..i], FIRST)));
    Slices(bytes, Encode(log[..i], FIRST), w, log[i].data, Encode(log[i + 1..], Num(log[i])));
    var size := |log[i].data|;
    assert |bytes| >= |Encode(log[..i], FIRST)| + |Cell(log, i)| == start + size;
    SliceOfSlice(dir.block, 4, dir.off, start - 4, start);
    SliceOfSlice(dir.block, 4, dir.off, start, start + size);
  }

  lemma StartOfEnd(dir: Dir, log: seq<Entry>)
    requires dir.Holds(log)
    ensures Start(log, 0) == 4 && Start(log, |log|) == dir.off
  {
    assert log[..|log|] == log;
  }

  /** The masking chain runs both ways: with the tag before it, or with the tag itself, the word
      on disk gives the tag, or the tag before it, up to the valid bit. */
  lemma ChainBothWays(tag: uint32, prev: uint32, known: uint32, word: uint32)
    requires word == Masked32(tag, prev)
    ensures known % VALID_BIT == prev % VALID_BIT ==> Masked32(word, known) % VALID_BIT == tag % VALID_BIT
    ensures known % VALID_BIT == tag % VALID_BIT ==> Masked32(word, known) % VALID_BIT == prev % VALID_BIT
  {
    Pow2Values();
    XorLowBits(word, known, 31);
    XorLowBits(tag, prev, 31);
    var t, p := tag % VALID_BIT, prev % VALID_BIT;
    XorCancels(t, p);
    XorCancels(p, t);
    XorSymmetric(t, p);
  }
}
