/** Searching the EEPROM record list: what a search finds in any memory, and in one that holds records. */
module EepromSearch {
  import opened Words
  import opened EepromFormat

  datatype Search = Found(base: nat, length: nat) | Absent(base: nat) | Bad

  /** Where a search for a tag ends, walking the records from an offset. */
  function Find(f: Format, mem: seq<byte>, offset: nat, tag: nat): (s: Search)
    requires f.Valid()
    ensures s.Found? || s.Absent? ==> offset <= s.base && s.base + f.HeaderSize() <= |mem|
    decreases |mem| - offset
  {
    if offset + f.HeaderSize() > |mem| then Bad
    else if TagAt(f, mem, offset) == tag then Found(offset, LengthAt(f, mem, offset))
    else if IsEnd(f, mem, offset) then Absent(offset)
    else Find(f, mem, offset + f.HeaderSize() + LengthAt(f, mem, offset), tag)
  }

  lemma FindStep(f: Format, mem: seq<byte>, offset: nat, tag: nat)
    requires f.Valid()
    ensures Find(f, mem, offset, tag)
         == if offset + f.HeaderSize() > |mem| then Bad
            else if TagAt(f, mem, offset) == tag then Found(offset, LengthAt(f, mem, offset))
            else if TagAt(f, mem, offset) == f.EndMarker() && LengthAt(f, mem, offset) == 0 then Absent(offset)
            else Find(f, mem, offset + f.HeaderSize() + LengthAt(f, mem, offset), tag)
  {
    hide TagAt, LengthAt;
  }

  lemma NextRecord(f: Format, mem: seq<byte>, offset: nat, records: seq<Record>)
    requires f.Valid() && Formatted(f, mem, offset, records) && !IsEnd(f, mem, offset)
    ensures records != [] && offset + f.HeaderSize() + LengthAt(f, mem, offset) <= |mem|
    ensures Formatted(f, mem, offset + f.HeaderSize() + LengthAt(f, mem, offset), records[1..])
  {
    hide TagAt, LengthAt;
  }

  /** In a formatted memory a search finds the first record with the tag, or else the end marker. */
  lemma {:induction false} FindsRecord(f: Format, mem: seq<byte>, offset: nat, records: seq<Record>, tag: nat, k: nat)
    requires f.Valid() && Formatted(f, mem, offset, records) && tag != f.EndMarker()
    requires k <= |records| && NoTag(records[..k], tag) && (k < |records| ==> records[k].tag == tag)
    ensures Find(f, mem, offset, tag)
         == if k < |records| then Found(offset + Size(f, records[..k]), |records[k].value|)
            else Absent(offset + Size(f, records))
    decreases |records|
  {
    hide TagAt, LengthAt, Find, Format.Tags, Format.HeaderSize;
    FindStep(f, mem, offset, tag);
    if k == 0 {
      assert records[..0] == [];
    } else {
      assert records[..k][0] == records[0];
      assert records[..k][1..] == records[1..][..k - 1];
      FindsRecord(f, mem, offset + f.HeaderSize() + |records[0].value|, records[1..], tag, k - 1);
    }
  }

  /** Position of the first record with a tag. */
  function IndexOf(records: seq<Record>, tag: nat): (k: nat)
    ensures k <= |records| && NoTag(records[..k], tag) && (k < |records| ==> records[k].tag == tag)
  {
    if records == [] || records[0].tag == tag then 0
    else
      var k := 1 + IndexOf(records[1..], tag);
      assert forall i :: 0 < i < k ==> records[..k][i] == records[1..][..k - 1][i - 1];
      k
  }

  /** Searching a formatted memory is looking up the tag in the map of its records. */
  lemma FindIsLookup(f: Format, mem: seq<byte>, records: seq<Record>, tag: nat)
    requires f.Valid() && Formatted(f, mem, 0, records) && tag != f.EndMarker()
    ensures match Find(f, mem, 0, tag)
            case Found(base, length) =>
              var at := base + f.HeaderSize();
              && tag in MapOf(records) && length == |MapOf(records)[tag]|
              && at + length <= |mem| && mem[at..at + length] == MapOf(records)[tag]
              && var k := IndexOf(records, tag);
                 k < |records| && at == ValueOffset(f, 0, records, k) && MapOf(records)[tag] == records[k].value
            case Absent(base) => tag !in MapOf(records) && base == Size(f, records) && NoTag(records, tag)
            case Bad => false
  {
    hide Formatted, Find, IndexOf, MapOf;
    var k := IndexOf(records, tag);
    FindsRecord(f, mem, 0, records, tag, k);
    MapHas(records, tag);
    if k < |records| {
      OneValueChanged(f, mem, mem, 0, records, k);
    } else {
      assert records[..k] == records;
    }
  }

  /** Tags that records may have. */
  predicate Usable(f: Format, tag: nat) {
    tag < f.Tags() && tag != f.EndMarker() && tag != f.FreeSpace()
  }

  /** All but the two greatest that a tag field can hold. */
  lemma UsableTags(f: Format, tag: nat)
    requires f.Valid()
    ensures Usable(f, tag) <==> tag < (match f.tagSize case 1 => 0xFE case 2 => 0xFFFE case _ => 0xFF_FFFE)
  {
    Pow2Values();
    Pow2Adds(8, 16);
  }

  /** What every search of a memory comes to: the map of some records. */
  ghost predicate Shows(f: Format, m: seq<byte>, records: seq<Record>)
    requires f.Valid()
  {
    forall tag: nat {:trigger Find(f, m, 0, tag)} :: tag != f.EndMarker() ==>
      match Find(f, m, 0, tag)
      case Found(base, length) =>
        var at := base + f.HeaderSize();
        tag in MapOf(records) && at + length <= |m| && m[at..at + length] == MapOf(records)[tag]
      case Absent(base) => tag !in MapOf(records)
      case Bad => false
  }

  lemma FormattedShows(f: Format, m: seq<byte>, records: seq<Record>)
    requires f.Valid() && Formatted(f, m, 0, records)
    ensures Shows(f, m, records)
  {
    hide Formatted, Find, MapOf, IndexOf, NoTag;
    forall tag: nat | tag != f.EndMarker()
      ensures match Find(f, m, 0, tag)
              case Found(base, length) =>
                var at := base + f.HeaderSize();
                tag in MapOf(records) && at + length <= |m| && m[at..at + length] == MapOf(records)[tag]
              case Absent(base) => tag !in MapOf(records)
              case Bad => false
    {
      FindIsLookup(f, m, records, tag);
    }
  }

  /** The walk for a tag stays below the offsets at which 16-bit words wrap. */
  predicate NeverWraps(f: Format, mem: seq<byte>, offset: nat, tag: nat)
    requires f.Valid()
    decreases |mem| - offset
  {
    offset + f.HeaderSize() > |mem| || TagAt(f, mem, offset) == tag || IsEnd(f, mem, offset) ||
    var next := offset + f.HeaderSize() + LengthAt(f, mem, offset);
    next < 0x1_0000 && NeverWraps(f, mem, next, tag)
  }

  lemma NeverWrapsStep(f: Format, mem: seq<byte>, offset: nat, tag: nat)
    requires f.Valid() && NeverWraps(f, mem, offset, tag) && offset + f.HeaderSize() <= |mem|
    requires TagAt(f, mem, offset) != tag && !(TagAt(f, mem, offset) == f.EndMarker() && LengthAt(f, mem, offset) == 0)
    ensures var next := offset + f.HeaderSize() + LengthAt(f, mem, offset); next < 0x1_0000 && NeverWraps(f, mem, next, tag)
  {
    hide TagAt, LengthAt;
  }

  /** In a formatted memory it always does. */
  lemma {:induction false} FormattedNeverWraps(f: Format, mem: seq<byte>, offset: nat, records: seq<Record>, tag: nat)
    requires f.Valid() && Formatted(f, mem, offset, records) && |mem| <= 0xFFFF
    ensures NeverWraps(f, mem, offset, tag)
    decreases |records|
  {
    hide TagAt, LengthAt;
    if !IsEnd(f, mem, offset) {
      NextRecord(f, mem, offset, records);
      FormattedNeverWraps(f, mem, offset + f.HeaderSize() + LengthAt(f, mem, offset), records[1..], tag);
    }
  }

  /** In other memories it need not.  Here the next record would lie at 65536, past the end of the memory; but
      that wraps to zero, where the walk began. */
  lemma WalkCanWrap()
    ensures var f, mem := Format(1, 2), [1, 0xFD, 0xFF];
            && Find(f, mem, 0, 2) == Bad && !NeverWraps(f, mem, 0, 2)
            && TagAt(f, mem, 0) != 2 && !IsEnd(f, mem, 0) && (0 + f.HeaderSize() + LengthAt(f, mem, 0)) % 0x1_0000 == 0
  {
    var f, mem := Format(1, 2), [1, 0xFD, 0xFF];
    assert mem[0..1] == [1] && mem[1..3] == [0xFD, 0xFF] && mem[1..3][1..] == [0xFF];
    assert [1 as byte][1..] == [] && [0xFF as byte][1..] == [];
    assert TagAt(f, mem, 0) == 1 && LengthAt(f, mem, 0) == 0xFFFD;
    Pow2Values();
  }
}
