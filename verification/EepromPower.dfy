/** Losing power while the EEPROM is written: what the memory may hold, and what searches find in it. */
module EepromPower {
  import opened Words
  import opened EepromFormat
  import opened EepromSearch

  /** A memory like another but for a range of bytes, which may hold anything. */
  predicate Torn(was: seq<byte>, m: seq<byte>, offset: nat, size: nat) {
    offset + size <= |was| && Agree(was, m, 0, offset) && Agree(was, m, offset + size, |was|)
  }

  lemma PatchedStarts(mem: seq<byte>, offset: nat, bytes: seq<byte>)
    requires offset + |bytes| <= |mem|
    ensures Patched(mem, offset, bytes[..0]) == mem
  {
  }

  lemma PatchedMore(mem: seq<byte>, offset: nat, bytes: seq<byte>, i: nat)
    requires i < |bytes| && offset + |bytes| <= |mem|
    ensures Patched(mem, offset, bytes[..i])[offset + i := bytes[i]] == Patched(mem, offset, bytes[..i + 1])
    ensures Torn(mem, Patched(mem, offset, bytes[..i + 1]), offset, |bytes|)
  {
  }

  lemma PatchedAt(mem: seq<byte>, offset: nat, bytes: seq<byte>)
    requires offset + |bytes| <= |mem|
    ensures forall k :: 0 <= k < |mem| ==>
              Patched(mem, offset, bytes)[k] == if k < offset || offset + |bytes| <= k then mem[k] else bytes[k - offset]
  {
  }

  lemma PatchedSlices(mem: seq<byte>, offset: nat, bytes: seq<byte>)
    requires offset + |bytes| <= |mem|
    ensures var m := Patched(mem, offset, bytes);
            m[offset..offset + |bytes|] == bytes && Torn(mem, m, offset, |bytes|)
  {
  }

  /** Whatever is left after the end marker, the records are the same. */
  lemma TornBeyond(f: Format, was: seq<byte>, m: seq<byte>, records: seq<Record>, offset: nat, size: nat)
    requires f.Valid() && Formatted(f, was, 0, records)
    requires Size(f, records) + f.HeaderSize() <= offset && Torn(was, m, offset, size)
    ensures Formatted(f, m, 0, records)
  {
    hide Formatted;
    AgreePart(was, m, 0, offset, 0, Size(f, records) + f.HeaderSize());
    SameRecords(f, was, m, 0, records);
  }

  lemma TornAllBeyond(f: Format, was: seq<byte>, records: seq<Record>, offset: nat, size: nat)
    requires f.Valid() && Formatted(f, was, 0, records) && Size(f, records) + f.HeaderSize() <= offset
    ensures forall m :: Torn(was, m, offset, size) ==> Formatted(f, m, 0, records)
  {
    hide Formatted, Torn;
    forall m | Torn(was, m, offset, size)
      ensures Formatted(f, m, 0, records)
    {
      TornBeyond(f, was, m, records, offset, size);
    }
  }

  /** Writing a value before the end marker that follows it. */
  lemma ValueStep(f: Format, was: seq<byte>, m: seq<byte>, records: seq<Record>, at: nat, value: seq<byte>)
    requires f.Valid() && Formatted(f, was, 0, records) && at == Size(f, records) + f.HeaderSize()
    requires at + |value| + f.HeaderSize() <= |was| && was[at + |value|..at + |value| + f.HeaderSize()] == f.EndTag()
    requires m == Patched(was, at, value)
    ensures Formatted(f, m, 0, records) && m[at..at + |value|] == value
    ensures m[at + |value|..at + |value| + f.HeaderSize()] == f.EndTag()
    ensures forall m' :: Torn(was, m', at, |value|) ==> Formatted(f, m', 0, records)
  {
    hide Formatted, Patched, Torn;
    PatchedSlices(was, at, value);
    TornAllBeyond(f, was, records, at, |value|);
    TornKeeps(was, m, at, |value|, at + |value|, at + |value| + f.HeaderSize());
  }

  lemma TornKeeps(was: seq<byte>, m: seq<byte>, offset: nat, size: nat, from: nat, to: nat)
    requires Torn(was, m, offset, size) && from <= to <= |was| && (to <= offset || offset + size <= from)
    ensures |m| == |was| && m[from..to] == was[from..to]
  {
    if to <= offset {
      AgreePart(was, m, 0, offset, from, to);
    } else {
      AgreePart(was, m, offset + size, |was|, from, to);
    }
  }

  /** A header written to memory is read back. */
  lemma HeaderReadBack(f: Format, mem: seq<byte>, offset: nat, tag: nat, length: nat)
    requires f.Valid() && offset + f.HeaderSize() <= |mem| && tag < f.Tags() && length < f.Lengths()
    requires mem[offset..offset + f.HeaderSize()] == f.Header(tag, length)
    ensures TagAt(f, mem, offset) == tag && LengthAt(f, mem, offset) == length
  {
    hide Le, FromLe, Pow2;
    var header := mem[offset..offset + f.HeaderSize()];
    PartOfSlice(mem, offset, f.HeaderSize(), 0, f.tagSize);
    PartOfSlice(mem, offset, f.HeaderSize(), f.tagSize, f.lengthSize);
    assert header[0..f.tagSize] == Le(tag, f.tagSize) && header[f.tagSize..f.HeaderSize()] == Le(length, f.lengthSize);
    LeRoundTrip(tag, f.tagSize);
    LeRoundTrip(length, f.lengthSize);
  }

  lemma FieldsNotEmpty(f: Format)
    requires f.Valid()
    ensures f.Tags() >= 0x100 && f.Lengths() >= 0x100
  {
    Pow2Values();
    Pow2Adds(8, 8);
    Pow2Adds(16, 8);
  }

  /** Writing the header over the end marker makes the new record part of the list. */
  lemma HeaderCommits(f: Format, was: seq<byte>, m: seq<byte>, records: seq<Record>, r: Record)
    requires f.Valid() && Formatted(f, was, 0, records) && Usable(f, r.tag) && |r.value| < f.Lengths()
    requires Size(f, records) + 2 * f.HeaderSize() + |r.value| <= |was|
    requires var at := Size(f, records) + f.HeaderSize();
             was[at..at + |r.value|] == r.value && was[at + |r.value|..at + |r.value| + f.HeaderSize()] == f.EndTag()
    requires m == Patched(was, Size(f, records), f.Header(r.tag, |r.value|))
    ensures Formatted(f, m, 0, records + [r])
  {
    hide TagAt, LengthAt, Patched, Format.Tags, Format.Lengths, Torn, Formatted, IsEnd, Size, Le;
    var base, size := Size(f, records), |r.value|;
    var at := base + f.HeaderSize();
    PatchedSlices(was, base, f.Header(r.tag, size));
    TornKeeps(was, m, base, f.HeaderSize(), at, at + size);
    TornKeeps(was, m, base, f.HeaderSize(), at + size, at + size + f.HeaderSize());
    FieldsNotEmpty(f);
    HeaderReadBack(f, m, base, r.tag, size);
    HeaderReadBack(f, m, at + size, f.Tags() - 1, 0);
    assert IsEnd(f, m, at + size) by { EndReadBack(f, m, at + size); }
    OneRecord(f, m, base, r);
    TornAgrees(was, m, base, f.HeaderSize());
    OneMoreRecord(f, was, m, 0, records, r);
  }

  lemma EndReadBack(f: Format, m: seq<byte>, offset: nat)
    requires offset + f.HeaderSize() <= |m| && TagAt(f, m, offset) == f.Tags() - 1 && LengthAt(f, m, offset) == 0
    ensures IsEnd(f, m, offset)
  {
  }

  lemma EndTagAlone(f: Format, m: seq<byte>)
    requires f.Valid() && f.HeaderSize() <= |m| && m[0..f.HeaderSize()] == f.EndTag()
    ensures Formatted(f, m, 0, [])
  {
    hide Le, TagAt, LengthAt, Format.Tags;
    FieldsNotEmpty(f);
    HeaderReadBack(f, m, 0, f.Tags() - 1, 0);
    EndReadBack(f, m, 0);
  }

  lemma OneRecord(f: Format, m: seq<byte>, base: nat, r: Record)
    requires f.Valid() && base + 2 * f.HeaderSize() + |r.value| <= |m|
    requires TagAt(f, m, base) == r.tag && r.tag != f.EndMarker() && LengthAt(f, m, base) == |r.value|
    requires var at := base + f.HeaderSize(); m[at..at + |r.value|] == r.value && IsEnd(f, m, at + |r.value|)
    ensures Formatted(f, m, base, [r])
  {
    hide TagAt, LengthAt;
    assert [r][1..] == [];
  }

  lemma TornAgrees(was: seq<byte>, m: seq<byte>, offset: nat, size: nat)
    requires Torn(was, m, offset, size)
    ensures Agree(was, m, 0, offset) && Agree(was, m, offset + size, |was|)
  {
  }

  lemma ValueInside(f: Format, m: seq<byte>, records: seq<Record>, k: nat)
    requires f.Valid() && Formatted(f, m, 0, records) && k < |records|
    ensures ValueOffset(f, 0, records, k) + |records[k].value| + f.HeaderSize() <= |m|
  {
    hide Formatted;
    FormattedEnds(f, m, 0, records);
    SizeOfPrefix(f, records, k);
  }

  /** The records after an update, of which any number of bytes may have been written. */
  ghost predicate Updated(f: Format, m: seq<byte>, records: seq<Record>, target: nat)
    requires f.Valid() && target < |records|
  {
    var at := ValueOffset(f, 0, records, target);
    && at + |records[target].value| <= |m|
    && Formatted(f, m, 0, records[target := Record(records[target].tag, m[at..at + |records[target].value|])])
  }

  lemma TornUpdate(f: Format, was: seq<byte>, m: seq<byte>, records: seq<Record>, target: nat)
    requires f.Valid() && Formatted(f, was, 0, records) && target < |records|
    requires Torn(was, m, ValueOffset(f, 0, records, target), |records[target].value|)
    ensures Updated(f, m, records, target)
  {
    hide Formatted;
    TornAgrees(was, m, ValueOffset(f, 0, records, target), |records[target].value|);
    OneValueChanged(f, was, m, 0, records, target);
  }

  /** The memories that a loss of power may leave while a range is written: each byte of it may hold anything. */
  ghost function Tearing(was: seq<byte>, offset: nat, size: nat): iset<seq<byte>> {
    iset m | Torn(was, m, offset, size)
  }

  lemma TearingIsTorn(was: seq<byte>, offset: nat, size: nat)
    ensures forall m :: m in Tearing(was, offset, size) <==> Torn(was, m, offset, size)
  {
  }

  /** What may be left while a record is created at the end of the list, from the write of the end marker on, from the
      write of the value on, and from the write of the header on, which takes effect at once. */
  ghost function CreateTears(f: Format, was: seq<byte>, base: nat, r: Record): iset<seq<byte>>
    requires f.Valid() && base + 2 * f.HeaderSize() + |r.value| <= |was|
  {
    var at := base + f.HeaderSize() + |r.value|;
    Tearing(was, at, f.HeaderSize()) + ValueTears(f, Patched(was, at, f.EndTag()), base, r)
  }

  ghost function ValueTears(f: Format, was: seq<byte>, base: nat, r: Record): iset<seq<byte>>
    requires f.Valid() && base + 2 * f.HeaderSize() + |r.value| <= |was|
  {
    var at := base + f.HeaderSize();
    Tearing(was, at, |r.value|) + HeaderTears(f, Patched(was, at, r.value), base, r)
  }

  ghost function HeaderTears(f: Format, was: seq<byte>, base: nat, r: Record): iset<seq<byte>>
    requires f.Valid() && base + 2 * f.HeaderSize() + |r.value| <= |was|
  {
    iset{was, Patched(was, base, f.Header(r.tag, |r.value|))}
  }

  lemma HeaderTearsAre(f: Format, was: seq<byte>, base: nat, r: Record)
    requires f.Valid() && base + 2 * f.HeaderSize() + |r.value| <= |was|
    ensures HeaderTears(f, was, base, r) == iset{was, Patched(was, base, f.Header(r.tag, |r.value|))}
  {
  }

  /** The header write switches from the old list to the new one. */
  lemma HeaderTearsAreWhole(f: Format, was: seq<byte>, records: seq<Record>, r: Record)
    requires f.Valid() && Formatted(f, was, 0, records) && Usable(f, r.tag) && |r.value| < f.Lengths()
    requires Size(f, records) + 2 * f.HeaderSize() + |r.value| <= |was|
    requires var at := Size(f, records) + f.HeaderSize();
             was[at..at + |r.value|] == r.value && was[at + |r.value|..at + |r.value| + f.HeaderSize()] == f.EndTag()
    ensures forall m :: m in HeaderTears(f, was, Size(f, records), r) ==>
                          Formatted(f, m, 0, records) || Formatted(f, m, 0, records + [r])
  {
    hide Formatted, Patched, Usable, Format.Lengths, Format.EndTag, Format.Header;
    HeaderCommits(f, was, Patched(was, Size(f, records), f.Header(r.tag, |r.value|)), records, r);
  }

  lemma InValueTears(f: Format, was: seq<byte>, base: nat, r: Record, m: seq<byte>)
    requires f.Valid() && base + 2 * f.HeaderSize() + |r.value| <= |was|
    ensures m in ValueTears(f, was, base, r)
       <==> Torn(was, m, base + f.HeaderSize(), |r.value|)
            || m in HeaderTears(f, Patched(was, base + f.HeaderSize(), r.value), base, r)
  {
    hide Torn, HeaderTears, Patched;
  }

  lemma ValueTearsAreWhole(f: Format, was: seq<byte>, records: seq<Record>, r: Record)
    requires f.Valid() && Formatted(f, was, 0, records) && Usable(f, r.tag) && |r.value| < f.Lengths()
    requires Size(f, records) + 2 * f.HeaderSize() + |r.value| <= |was|
    requires var at := Size(f, records) + f.HeaderSize(); was[at + |r.value|..at + |r.value| + f.HeaderSize()] == f.EndTag()
    ensures forall m :: m in ValueTears(f, was, Size(f, records), r) ==>
                          Formatted(f, m, 0, records) || Formatted(f, m, 0, records + [r])
  {
    hide Formatted, Patched, Torn, HeaderTears, ValueTears, Usable, Size, Format.Lengths, Format.EndTag;
    var at := Size(f, records) + f.HeaderSize();
    var now := Patched(was, at, r.value);
    ValueStep(f, was, now, records, at, r.value);
    HeaderTearsAreWhole(f, now, records, r);
    forall m | m in ValueTears(f, was, Size(f, records), r)
      ensures Formatted(f, m, 0, records) || Formatted(f, m, 0, records + [r])
    {
      InValueTears(f, was, Size(f, records), r, m);
    }
  }

  /** Whenever power is lost while a record is created, and however writes are torn, the memory holds the old
      list or the new one. */
  lemma CreateTearsAreWhole(f: Format, was: seq<byte>, records: seq<Record>, r: Record)
    requires f.Valid() && Formatted(f, was, 0, records) && Usable(f, r.tag) && |r.value| < f.Lengths()
    requires Size(f, records) + 2 * f.HeaderSize() + |r.value| <= |was|
    ensures forall m :: m in CreateTears(f, was, Size(f, records), r) ==>
                          Formatted(f, m, 0, records) || Formatted(f, m, 0, records + [r])
  {
    hide Formatted, Patched, Torn, Tearing, ValueTears, Usable, Format.Lengths, Format.EndTag;
    var at := Size(f, records) + f.HeaderSize() + |r.value|;
    PatchedSlices(was, at, f.EndTag());
    TornAllBeyond(f, was, records, at, f.HeaderSize());
    TearingIsTorn(was, at, f.HeaderSize());
    ValueTearsAreWhole(f, Patched(was, at, f.EndTag()), records, r);
  }

  /** So every search sees the old records, or the old records and the new one. */
  lemma PowerLossInCreate(f: Format, was: seq<byte>, records: seq<Record>, r: Record, m: seq<byte>)
    requires f.Valid() && Formatted(f, was, 0, records) && Usable(f, r.tag) && |r.value| < f.Lengths()
    requires Size(f, records) + 2 * f.HeaderSize() + |r.value| <= |was| && m in CreateTears(f, was, Size(f, records), r)
    ensures Shows(f, m, records) || Shows(f, m, records + [r])
  {
    hide Formatted, Shows, CreateTears, Usable, Format.Lengths;
    CreateTearsAreWhole(f, was, records, r);
    if Formatted(f, m, 0, records) {
      FormattedShows(f, m, records);
    } else {
      FormattedShows(f, m, records + [r]);
    }
  }

  /** A loss of power while a value is updated leaves all other records, and a value of the same length for this one. */
  lemma PowerLossInUpdate(f: Format, was: seq<byte>, records: seq<Record>, k: nat, m: seq<byte>)
    requires f.Valid() && Formatted(f, was, 0, records) && NoTagTwice(records) && k < |records|
    requires m in Tearing(was, ValueOffset(f, 0, records, k), |records[k].value|)
    ensures exists v :: |v| == |records[k].value| && Shows(f, m, WithValue(records, k, v))
                        && MapOf(WithValue(records, k, v)) == MapOf(records)[records[k].tag := v]
  {
    hide Formatted, Shows, MapOf, NoTagTwice, ValueOffset, Torn;
    TornUpdate(f, was, m, records, k);
    var at := ValueOffset(f, 0, records, k);
    var v := m[at..at + |records[k].value|];
    FormattedShows(f, m, WithValue(records, k, v));
    MapOfChanged(records, k, v);
  }

  function WithValue(records: seq<Record>, k: nat, value: seq<byte>): seq<Record>
    requires k < |records|
  {
    records[k := Record(records[k].tag, value)]
  }

  // ---- when an update is atomic

  /** The memories that writing bytes one after the other passes through. */
  function Passing(was: seq<byte>, at: nat, bytes: seq<byte>): (ms: seq<seq<byte>>)
    requires at + |bytes| <= |was|
    ensures |ms| == |bytes| + 1
  {
    seq(|bytes| + 1, i requires 0 <= i <= |bytes| => Patched(was, at, bytes[..i]))
  }

  predicate DifferAtMostOnce(a: seq<byte>, b: seq<byte>)
    requires |a| == |b|
  {
    forall i, j :: 0 <= i < j < |a| ==> a[i] == b[i] || a[j] == b[j]
  }

  /** Every memory shows the records before an update or those after it. */
  ghost predicate OldOrNew(f: Format, m: seq<byte>, records: seq<Record>, k: nat, value: seq<byte>)
    requires f.Valid() && k < |records|
  {
    Shows(f, m, records) || Shows(f, m, WithValue(records, k, value))
  }

  /** A memory that holds one value for a record shows no other. */
  lemma ShowsItsValue(f: Format, m: seq<byte>, records: seq<Record>, k: nat, v: seq<byte>, u: seq<byte>)
    requires f.Valid() && k < |records| && NoTagTwice(records) && records[k].tag != f.EndMarker()
    requires Formatted(f, m, 0, WithValue(records, k, v)) && Shows(f, m, WithValue(records, k, u))
    ensures v == u
  {
    hide Formatted, MapOf, IndexOf, Find, NoTagTwice;
    var tag := records[k].tag;
    MapOfChanged(records, k, v);
    MapOfChanged(records, k, u);
    FindIsLookup(f, m, WithValue(records, k, v), tag);
    assert Find(f, m, 0, tag).Found?;
  }

  /** In a list of records each value is where its offset says. */
  lemma ValueThere(f: Format, was: seq<byte>, records: seq<Record>, k: nat)
    requires f.Valid() && Formatted(f, was, 0, records) && k < |records|
    ensures var at, n := ValueOffset(f, 0, records, k), |records[k].value|;
            at + n <= |was| && was[at..at + n] == records[k].value
  {
    hide Formatted;
    OneValueChanged(f, was, was, 0, records, k);
  }

  lemma WrittenOver(f: Format, was: seq<byte>, records: seq<Record>, k: nat, value: seq<byte>)
    requires f.Valid() && Formatted(f, was, 0, records) && k < |records| && |value| == |records[k].value|
    ensures var at := ValueOffset(f, 0, records, k);
            && at + |value| <= |was|
            && Torn(was, Patched(was, at, value), at, |value|)
            && Formatted(f, Patched(was, at, value), 0, WithValue(records, k, value))
  {
    hide Formatted, Patched, Torn, ValueOffset;
    var at := ValueOffset(f, 0, records, k);
    ValueThere(f, was, records, k);
    PatchedSlices(was, at, value);
    TornUpdate(f, was, Patched(was, at, value), records, k);
  }

  /** On the way from one value to another the first bytes are new and the last ones old. */
  function Mix(former: seq<byte>, value: seq<byte>, i: nat): (v: seq<byte>)
    requires |former| == |value| && i <= |value|
    ensures |v| == |value|
  {
    value[..i] + former[i..]
  }

  lemma PassingIsMix(was: seq<byte>, at: nat, former: seq<byte>, value: seq<byte>, i: nat)
    requires at + |value| <= |was| && |former| == |value| && was[at..at + |value|] == former && i <= |value|
    ensures Passing(was, at, value)[i] == Patched(was, at, Mix(former, value, i))
  {
    assert former[i..] == was[at + i..at + |value|];
    assert Patched(was, at, Mix(former, value, i)) == Patched(was, at, value[..i]);
  }

  lemma MixIsOne(former: seq<byte>, value: seq<byte>, i: nat)
    requires |former| == |value| && DifferAtMostOnce(former, value) && i <= |value|
    ensures Mix(former, value, i) == former || Mix(former, value, i) == value
  {
    if j :| 0 <= j < i && former[j] != value[j] {
      assert forall k :: j < k < |former| ==> former[k] == value[k];
      assert Mix(former, value, i) == value;
    } else {
      assert Mix(former, value, i) == former;
    }
  }

  /** If the bytes of a value are written one after the other, an update is atomic if and only if the two values
      differ in no more than one byte. */
  lemma UpdateIsAtomic(f: Format, was: seq<byte>, records: seq<Record>, k: nat, value: seq<byte>)
    requires f.Valid() && Formatted(f, was, 0, records) && NoTagTwice(records) && k < |records|
    requires records[k].tag != f.EndMarker() && |value| == |records[k].value|
    ensures var at := ValueOffset(f, 0, records, k);
            && at + |value| <= |was|
            && ((forall m :: m in Passing(was, at, value) ==> OldOrNew(f, m, records, k, value))
                <==> DifferAtMostOnce(records[k].value, value))
  {
    hide Formatted, NoTagTwice, ValueOffset, Patched, Passing, Mix, OldOrNew, Torn;
    var at, former := ValueOffset(f, 0, records, k), records[k].value;
    ValueThere(f, was, records, k);
    if DifferAtMostOnce(former, value) {
      forall m | m in Passing(was, at, value)
        ensures OldOrNew(f, m, records, k, value)
      {
        var i := PassedAt(was, at, value, m);
        PassingIsMix(was, at, former, value, i);
        MixIsOne(former, value, i);
        MixShows(f, was, records, k, value, i);
      }
    } else {
      var i, j :| 0 <= i < j < |former| && former[i] != value[i] && former[j] != value[j];
      PassingIsMix(was, at, former, value, i + 1);
      assert Passing(was, at, value)[i + 1] in Passing(was, at, value);
      MixIsNeither(f, was, records, k, value, i, j);
    }
  }

  lemma PassedAt(was: seq<byte>, at: nat, bytes: seq<byte>, m: seq<byte>) returns (i: nat)
    requires at + |bytes| <= |was| && m in Passing(was, at, bytes)
    ensures i <= |bytes| && m == Passing(was, at, bytes)[i]
  {
    i :| 0 <= i < |Passing(was, at, bytes)| && Passing(was, at, bytes)[i] == m;
  }

  lemma MixShows(f: Format, was: seq<byte>, records: seq<Record>, k: nat, value: seq<byte>, i: nat)
    requires f.Valid() && Formatted(f, was, 0, records) && k < |records| && |value| == |records[k].value| && i <= |value|
    requires Mix(records[k].value, value, i) in [records[k].value, value]
    ensures ValueOffset(f, 0, records, k) + |value| <= |was|
    ensures OldOrNew(f, Patched(was, ValueOffset(f, 0, records, k), Mix(records[k].value, value, i)), records, k, value)
  {
    hide Formatted, ValueOffset, Patched, Mix, Shows, Torn;
    var v := Mix(records[k].value, value, i);
    WrittenOver(f, was, records, k, v);
    FormattedShows(f, Patched(was, ValueOffset(f, 0, records, k), v), WithValue(records, k, v));
    assert WithValue(records, k, records[k].value) == records;
  }

  lemma MixIsNeither(f: Format, was: seq<byte>, records: seq<Record>, k: nat, value: seq<byte>, i: nat, j: nat)
    requires f.Valid() && Formatted(f, was, 0, records) && NoTagTwice(records) && k < |records|
    requires records[k].tag != f.EndMarker() && |value| == |records[k].value|
    requires i < j < |value| && records[k].value[i] != value[i] && records[k].value[j] != value[j]
    ensures ValueOffset(f, 0, records, k) + |value| <= |was|
    ensures !OldOrNew(f, Patched(was, ValueOffset(f, 0, records, k), Mix(records[k].value, value, i + 1)), records, k, value)
  {
    hide Formatted, NoTagTwice, ValueOffset, Patched, Shows, Torn;
    var v := Mix(records[k].value, value, i + 1);
    assert v[i] == value[i] && v[j] == records[k].value[j];
    WrittenOver(f, was, records, k, v);
    NeitherShown(f, Patched(was, ValueOffset(f, 0, records, k), v), records, k, v, value);
  }

  lemma NeitherShown(f: Format, m: seq<byte>, records: seq<Record>, k: nat, v: seq<byte>, value: seq<byte>)
    requires f.Valid() && k < |records| && NoTagTwice(records) && records[k].tag != f.EndMarker()
    requires Formatted(f, m, 0, WithValue(records, k, v)) && v != records[k].value && v != value
    ensures !OldOrNew(f, m, records, k, value)
  {
    hide Formatted, NoTagTwice, Shows;
    if Shows(f, m, records) {
      assert WithValue(records, k, records[k].value) == records;
      ShowsItsValue(f, m, records, k, v, records[k].value);
      assert false;
    } else if Shows(f, m, WithValue(records, k, value)) {
      ShowsItsValue(f, m, records, k, v, value);
      assert false;
    }
  }

  /** If a write may be torn in any way, only an update of nothing is atomic. */
  lemma TornUpdateIsAtomic(f: Format, was: seq<byte>, records: seq<Record>, k: nat, value: seq<byte>)
    requires f.Valid() && Formatted(f, was, 0, records) && NoTagTwice(records) && k < |records|
    requires records[k].tag != f.EndMarker() && |value| == |records[k].value|
    ensures (forall m :: m in Tearing(was, ValueOffset(f, 0, records, k), |value|) ==> OldOrNew(f, m, records, k, value))
       <==> records[k].value == []
  {
    hide Formatted, NoTagTwice, ValueOffset, Patched, OldOrNew, Torn;
    var at, former := ValueOffset(f, 0, records, k), records[k].value;
    if former == [] {
      forall m | Torn(was, m, at, |value|)
        ensures OldOrNew(f, m, records, k, value)
      {
        TornNowhere(was, m, at);
        ShownAsItIs(f, was, records, k, value);
      }
    } else {
      var x: byte := if 0 !in [former[0], value[0]] then 0 else if 1 !in [former[0], value[0]] then 1 else 2;
      var v := former[0 := x];
      assert v[0] == x;
      WrittenOver(f, was, records, k, v);
      NeitherShown(f, Patched(was, at, v), records, k, v, value);
    }
  }

  lemma TornNowhere(was: seq<byte>, m: seq<byte>, offset: nat)
    requires Torn(was, m, offset, 0)
    ensures m == was
  {
    assert was == was[..offset] + was[offset..] && m == m[..offset] + m[offset..];
  }

  lemma ShownAsItIs(f: Format, was: seq<byte>, records: seq<Record>, k: nat, value: seq<byte>)
    requires f.Valid() && Formatted(f, was, 0, records) && k < |records|
    ensures OldOrNew(f, was, records, k, value)
  {
    hide Formatted, Shows;
    FormattedShows(f, was, records);
  }

  /** Power lost after the first of two bytes: a search finds a value that nobody wrote. */
  lemma NeitherOldNorNew()
    ensures var f, records, value := Format(1, 1), [Record(7, [1, 2])], [3, 4];
            var was := f.Header(7, 2) + [1, 2] + f.EndTag();
            && Formatted(f, was, 0, records)
            && Passing(was, 2, value)[1] == f.Header(7, 2) + [3, 2] + f.EndTag()
            && Find(f, Passing(was, 2, value)[1], 0, 7) == Found(0, 2)
            && !OldOrNew(f, Passing(was, 2, value)[1], records, 0, value)
  {
    hide Shows, Le, FromLe;
    var f, records, value := Format(1, 1), [Record(7, [1, 2])], [3, 4];
    var was, m := f.Header(7, 2) + [1, 2] + f.EndTag(), f.Header(7, 2) + [3, 2] + f.EndTag();
    Pow2Values();
    TwoBytesHeld(was, [1, 2]);
    TwoBytesHeld(m, [3, 2]);
    assert Passing(was, 2, value)[1] == m;
    assert WithValue(records, 0, [3, 2]) == [Record(7, [3, 2])];
    NeitherShown(f, m, records, 0, [3, 2], value);
  }

  lemma TwoBytesHeld(m: seq<byte>, v: seq<byte>)
    requires |v| == 2 && m == Format(1, 1).Header(7, 2) + v + Format(1, 1).EndTag()
    ensures Formatted(Format(1, 1), m, 0, [Record(7, v)]) && Find(Format(1, 1), m, 0, 7) == Found(0, 2)
  {
    hide Le, FromLe, TagAt, LengthAt;
    var f := Format(1, 1);
    Pow2Values();
    assert m[0..2] == f.Header(7, 2) && m[2..4] == v && m[4..6] == f.EndTag() == f.Header(f.Tags() - 1, 0);
    HeaderReadBack(f, m, 0, 7, 2);
    HeaderReadBack(f, m, 4, f.Tags() - 1, 0);
    EndReadBack(f, m, 4);
    OneRecord(f, m, 0, Record(7, v));
  }
}
