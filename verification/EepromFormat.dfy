/** The EEPROM record list: tag, length and value of each record in turn, ended by an end marker. */
module EepromFormat {
  import opened Words

  /** How many bytes a tag and a length take up. */
  datatype Format = Format(tagSize: nat, lengthSize: nat) {
    predicate Valid() {
      1 <= tagSize <= 3 && 1 <= lengthSize <= 2
    }

    function HeaderSize(): nat {
      tagSize + lengthSize
    }

    function Tags(): (n: nat) {
      Pow2(8 * tagSize)
    }

    function Lengths(): (n: nat) {
      Pow2(8 * lengthSize)
    }

    function EndMarker(): int {
      Tags() - 1
    }

    function FreeSpace(): int {
      Tags() - 2
    }

    /** The end marker tag, with a length of zero. */
    function EndTag(): (bytes: seq<byte>)
      requires Valid()
      ensures |bytes| == HeaderSize()
    {
      Le(Tags() - 1, tagSize) + Le(0, lengthSize)
    }

    function Header(tag: nat, length: nat): (bytes: seq<byte>)
      ensures |bytes| == HeaderSize()
    {
      Le(tag, tagSize) + Le(length, lengthSize)
    }
  }

  /** Least significant byte first. */
  function Le(n: nat, k: nat): (s: seq<byte>)
    ensures |s| == k
  {
    if k == 0 then [] else [n % 0x100] + Le(n / 0x100, k - 1)
  }

  function FromLe(s: seq<byte>): (n: nat) {
    if s == [] then 0 else s[0] + 0x100 * FromLe(s[1..])
  }

  lemma {:induction false} LeRoundTrip(n: nat, k: nat)
    requires n < Pow2(8 * k)
    ensures FromLe(Le(n, k)) == n
  {
    if k > 0 {
      Pow2Adds(8, 8 * (k - 1));
      Pow2Values();
      assert n / 0x100 < Pow2(8 * (k - 1));
      LeRoundTrip(n / 0x100, k - 1);
      assert Le(n, k)[1..] == Le(n / 0x100, k - 1);
    }
  }

  /** Digit i of a number, the least significant one first. */
  lemma {:induction false} LeDigit(n: nat, k: nat, i: nat)
    requires i < k
    ensures Le(n, k)[i] == n / Pow2(8 * i) % 0x100
    decreases k
  {
    if i > 0 {
      LeDigit(n / 0x100, k - 1, i - 1);
      ShiftTwice(n, 8 * (i - 1));
    }
  }

  /** A header is the bytes of the tag, and then those of the length. */
  lemma HeaderDigits(f: Format, tag: nat, length: nat, i: nat)
    requires i < f.HeaderSize()
    ensures f.Header(tag, length)[i]
         == if i < f.tagSize then tag / Pow2(8 * i) % 0x100 else length / Pow2(8 * (i - f.tagSize)) % 0x100
  {
    hide Le, Pow2;
    if i < f.tagSize {
      LeDigit(tag, f.tagSize, i);
    } else {
      LeDigit(length, f.lengthSize, i - f.tagSize);
    }
  }

  /** The end marker is all ones, with a length of zero. */
  lemma EndTagBytes(f: Format)
    requires f.Valid()
    ensures forall i :: 0 <= i < f.HeaderSize() ==> f.EndTag()[i] == if i < f.tagSize then 0xFF else 0
  {
    hide Le, Pow2;
    AllOnes(f.Tags() - 1, f.tagSize);
    AllZero(f.lengthSize);
  }

  lemma {:induction false} AllOnes(n: nat, k: nat)
    requires n == Pow2(8 * k) - 1
    ensures forall i :: 0 <= i < k ==> Le(n, k)[i] == 0xFF
    decreases k
  {
    if k > 0 {
      var m := Pow2(8 * (k - 1)) - 1;
      AllOnes(m, k - 1);
      OnesAbove(n, m, k);
    }
  }

  lemma OnesAbove(n: nat, m: nat, k: nat)
    requires k > 0 && n == Pow2(8 * k) - 1 && m == Pow2(8 * (k - 1)) - 1
    ensures n / 0x100 == m && n % 0x100 == 0xFF
  {
    hide Pow2;
    Pow2Adds(8, 8 * (k - 1));
    Pow2Values();
    RemainderIs(n, 0x100, m, 0xFF);
  }

  lemma {:induction false} AllZero(k: nat)
    ensures forall i :: 0 <= i < k ==> Le(0, k)[i] == 0
  {
    if k > 0 {
      AllZero(k - 1);
    }
  }

  datatype Record = Record(tag: nat, value: seq<byte>)

  function TagAt(f: Format, mem: seq<byte>, offset: nat): nat
    requires offset + f.HeaderSize() <= |mem|
  {
    FromLe(mem[offset..offset + f.tagSize])
  }

  function LengthAt(f: Format, mem: seq<byte>, offset: nat): nat
    requires offset + f.HeaderSize() <= |mem|
  {
    FromLe(mem[offset + f.tagSize..offset + f.HeaderSize()])
  }

  predicate IsEnd(f: Format, mem: seq<byte>, offset: nat)
    requires offset + f.HeaderSize() <= |mem|
  {
    TagAt(f, mem, offset) == f.EndMarker() && LengthAt(f, mem, offset) == 0
  }

  /** The records of a memory, in order: they must be followed by an end marker. */
  predicate Formatted(f: Format, mem: seq<byte>, offset: nat, records: seq<Record>)
    requires f.Valid()
    decreases records
  {
    && offset + f.HeaderSize() <= |mem|
    && if records == [] then IsEnd(f, mem, offset)
       else
         var next := offset + f.HeaderSize() + |records[0].value|;
         && !IsEnd(f, mem, offset) && next <= |mem|
         && TagAt(f, mem, offset) == records[0].tag && LengthAt(f, mem, offset) == |records[0].value|
         && mem[offset + f.HeaderSize()..next] == records[0].value
         && Formatted(f, mem, next, records[1..])
  }

  /** How many bytes records take up. */
  function Size(f: Format, records: seq<Record>): (n: nat) {
    if records == [] then 0 else f.HeaderSize() + |records[0].value| + Size(f, records[1..])
  }

  lemma {:induction false} SizeOfConcat(f: Format, a: seq<Record>, b: seq<Record>)
    ensures Size(f, a + b) == Size(f, a) + Size(f, b)
    decreases |a|
  {
    if a == [] {
      assert a + b == b;
    } else {
      assert (a + b)[1..] == a[1..] + b;
      SizeOfConcat(f, a[1..], b);
    }
  }

  /** Two memories agree on a range. */
  predicate Agree(m: seq<byte>, m': seq<byte>, from: nat, to: nat) {
    |m| == |m'| && from <= to <= |m| && m[from..to] == m'[from..to]
  }

  lemma AgreePart(m: seq<byte>, m': seq<byte>, from: nat, to: nat, from': nat, to': nat)
    requires Agree(m, m', from, to) && from <= from' <= to' <= to
    ensures Agree(m, m', from', to')
  {
    PartOfSlice(m, from, to - from, from' - from, to' - from');
    PartOfSlice(m', from, to - from, from' - from, to' - from');
  }

  lemma AgreeHeader(f: Format, m: seq<byte>, m': seq<byte>, offset: nat)
    requires Agree(m, m', offset, offset + f.HeaderSize())
    ensures TagAt(f, m, offset) == TagAt(f, m', offset) && LengthAt(f, m, offset) == LengthAt(f, m', offset)
    ensures IsEnd(f, m, offset) == IsEnd(f, m', offset)
  {
    hide FromLe;
    AgreePart(m, m', offset, offset + f.HeaderSize(), offset, offset + f.tagSize);
    AgreePart(m, m', offset, offset + f.HeaderSize(), offset + f.tagSize, offset + f.HeaderSize());
  }

  /** A memory is formatted by at most one sequence of records. */
  lemma {:induction false} FormattedOnce(f: Format, mem: seq<byte>, offset: nat, a: seq<Record>, b: seq<Record>)
    requires f.Valid() && Formatted(f, mem, offset, a) && Formatted(f, mem, offset, b)
    ensures a == b
    decreases |a|
  {
    hide IsEnd, TagAt, LengthAt;
    if a != [] && b != [] {
      FormattedOnce(f, mem, offset + f.HeaderSize() + |a[0].value|, a[1..], b[1..]);
      assert a == [a[0]] + a[1..] && b == [b[0]] + b[1..];
    }
  }

  /** Nothing after the end marker matters. */
  lemma {:induction false} SameRecords(f: Format, m: seq<byte>, m': seq<byte>, offset: nat, records: seq<Record>)
    requires f.Valid() && Formatted(f, m, offset, records)
    requires offset + Size(f, records) + f.HeaderSize() <= |m|
             ==> Agree(m, m', offset, offset + Size(f, records) + f.HeaderSize())
    ensures offset + Size(f, records) + f.HeaderSize() <= |m|
    ensures Formatted(f, m', offset, records)
    decreases |records|
  {
    hide TagAt, LengthAt, IsEnd, Agree;
    FormattedEnds(f, m, offset, records);
    var end := offset + Size(f, records) + f.HeaderSize();
    AgreePart(m, m', offset, end, offset, offset + f.HeaderSize());
    AgreeHeader(f, m, m', offset);
    AgreeLength(m, m', offset, end);
    if records != [] {
      var next := offset + f.HeaderSize() + |records[0].value|;
      AgreePart(m, m', offset, end, offset + f.HeaderSize(), next);
      AgreeSlices(m, m', offset + f.HeaderSize(), next);
      AgreePart(m, m', offset, end, next, end);
      SameRecords(f, m, m', next, records[1..]);
    }
  }

  lemma AgreeLength(m: seq<byte>, m': seq<byte>, from: nat, to: nat)
    requires Agree(m, m', from, to)
    ensures |m| == |m'| && from <= to <= |m|
  {
  }

  lemma AgreeSlices(m: seq<byte>, m': seq<byte>, from: nat, to: nat)
    requires Agree(m, m', from, to)
    ensures |m| == |m'| && from <= to <= |m| && m[from..to] == m'[from..to]
  {
  }

  lemma {:induction false} FormattedEnds(f: Format, m: seq<byte>, offset: nat, records: seq<Record>)
    requires f.Valid() && Formatted(f, m, offset, records)
    ensures offset + Size(f, records) + f.HeaderSize() <= |m|
    decreases |records|
  {
    hide IsEnd, TagAt, LengthAt;
    if records != [] {
      FormattedEnds(f, m, offset + f.HeaderSize() + |records[0].value|, records[1..]);
    }
  }

  /** A header, a value and an end marker in place of the end marker add a record. */
  lemma {:induction false} OneMoreRecord(f: Format, m: seq<byte>, m': seq<byte>, offset: nat, records: seq<Record>, r: Record)
    requires f.Valid() && Formatted(f, m, offset, records)
    requires offset + Size(f, records) <= |m| ==> Agree(m, m', offset, offset + Size(f, records))
    requires Formatted(f, m', offset + Size(f, records), [r])
    ensures Formatted(f, m', offset, records + [r])
    decreases |records|
  {
    hide TagAt, LengthAt, IsEnd, Agree;
    FormattedEnds(f, m, offset, records);
    if records == [] {
      assert records + [r] == [r];
    } else {
      var end := offset + Size(f, records);
      var next := offset + f.HeaderSize() + |records[0].value|;
      AgreePart(m, m', offset, end, offset, offset + f.HeaderSize());
      AgreeHeader(f, m, m', offset);
      AgreePart(m, m', offset, end, offset + f.HeaderSize(), next);
      AgreeSlices(m, m', offset + f.HeaderSize(), next);
      AgreePart(m, m', offset, end, next, end);
      OneMoreRecord(f, m, m', next, records[1..], r);
      assert (records + [r])[0] == records[0] && (records + [r])[1..] == records[1..] + [r];
    }
  }

  /** Where the value of record k starts. */
  function ValueOffset(f: Format, offset: nat, records: seq<Record>, k: nat): nat
    requires k < |records|
  {
    offset + Size(f, records[..k]) + f.HeaderSize()
  }

  lemma FirstValueChanged(f: Format, m: seq<byte>, m': seq<byte>, offset: nat, records: seq<Record>)
    requires f.Valid() && Formatted(f, m, offset, records) && records != [] && |m| == |m'|
    requires var at := offset + f.HeaderSize(); Agree(m, m', offset, at) && Agree(m, m', at + |records[0].value|, |m|)
    ensures var at := offset + f.HeaderSize();
            Formatted(f, m', offset, records[0 := Record(records[0].tag, m'[at..at + |records[0].value|])])
  {
    hide TagAt, LengthAt, IsEnd, Agree;
    var at := offset + f.HeaderSize();
    var next := at + |records[0].value|;
    AgreeHeader(f, m, m', offset);
    FormattedEnds(f, m, next, records[1..]);
    AgreePart(m, m', next, |m|, next, next + Size(f, records[1..]) + f.HeaderSize());
    SameRecords(f, m, m', next, records[1..]);
    assert records[0 := Record(records[0].tag, m'[at..next])][1..] == records[1..];
  }

  /** Overwriting bytes of one value changes that value and no other record. */
  lemma {:induction false} OneValueChanged(f: Format, m: seq<byte>, m': seq<byte>, offset: nat, records: seq<Record>, k: nat)
    requires f.Valid() && Formatted(f, m, offset, records) && k < |records| && |m| == |m'|
    requires var at := ValueOffset(f, offset, records, k);
             at + |records[k].value| <= |m| ==>
               Agree(m, m', offset, at) && Agree(m, m', at + |records[k].value|, |m|)
    ensures var at := ValueOffset(f, offset, records, k);
            && at + |records[k].value| <= |m|
            && m[at..at + |records[k].value|] == records[k].value
            && Formatted(f, m', offset, records[k := Record(records[k].tag, m'[at..at + |records[k].value|])])
    decreases |records|
  {
    hide TagAt, LengthAt, IsEnd, Agree;
    var next := offset + f.HeaderSize() + |records[0].value|;
    if k == 0 {
      assert records[..0] == [];
      FirstValueChanged(f, m, m', offset, records);
    } else {
      assert records[1..][..k - 1] == records[..k][1..];
      FormattedEnds(f, m, offset, records);
      SizeOfPrefix(f, records, k);
      var at := ValueOffset(f, offset, records, k);
      assert at == ValueOffset(f, next, records[1..], k - 1);
      AgreePart(m, m', offset, at, offset, offset + f.HeaderSize());
      AgreeHeader(f, m, m', offset);
      AgreePart(m, m', offset, at, offset + f.HeaderSize(), next);
      AgreeSlices(m, m', offset + f.HeaderSize(), next);
      AgreePart(m, m', offset, at, next, at);
      OneValueChanged(f, m, m', next, records[1..], k - 1);
      var r := Record(records[k].tag, m'[at..at + |records[k].value|]);
      assert records[k := r][0] == records[0] && records[k := r][1..] == records[1..][k - 1 := r];
    }
  }

  lemma SizeOfPrefix(f: Format, records: seq<Record>, k: nat)
    requires k < |records|
    ensures Size(f, records[..k]) + f.HeaderSize() + |records[k].value| + Size(f, records[k + 1..]) == Size(f, records)
  {
    assert records == records[..k] + records[k..];
    SizeOfConcat(f, records[..k], records[k..]);
    assert records[k..][1..] == records[k + 1..];
  }

  // ---- the records as a map

  /** Which value a tag has: that of the first record with it. */
  function MapOf(records: seq<Record>): (m: map<nat, seq<byte>>) {
    if records == [] then map[] else MapOf(records[1..])[records[0].tag := records[0].value]
  }

  predicate NoTagTwice(records: seq<Record>) {
    forall i, j :: 0 <= i < j < |records| ==> records[i].tag != records[j].tag
  }

  lemma {:induction false} MapHas(records: seq<Record>, tag: nat)
    ensures tag in MapOf(records) <==> exists i :: 0 <= i < |records| && records[i].tag == tag
    ensures forall i :: 0 <= i < |records| && records[i].tag == tag && NoTag(records[..i], tag) ==>
                          tag in MapOf(records) && MapOf(records)[tag] == records[i].value
  {
    if records != [] {
      MapHas(records[1..], tag);
      forall i | 0 <= i < |records| && records[i].tag == tag && NoTag(records[..i], tag)
        ensures tag in MapOf(records) && MapOf(records)[tag] == records[i].value
      {
        if i > 0 {
          assert records[..i][0] == records[0];
          assert records[1..][..i - 1] == records[..i][1..];
          assert records[1..][i - 1] == records[i];
        }
      }
      assert forall i :: 0 <= i < |records| - 1 ==> records[1..][i] == records[i + 1];
    }
  }

  predicate NoTag(records: seq<Record>, tag: nat) {
    forall i :: 0 <= i < |records| ==> records[i].tag != tag
  }

  lemma {:induction false} MapOfMore(records: seq<Record>, r: Record)
    requires NoTag(records, r.tag)
    ensures MapOf(records + [r]) == MapOf(records)[r.tag := r.value]
  {
    if records == [] {
      assert records + [r] == [r] && [r][1..] == [];
    } else {
      assert (records + [r])[1..] == records[1..] + [r];
      MapOfMore(records[1..], r);
    }
  }

  lemma {:induction false} MapOfChanged(records: seq<Record>, k: nat, value: seq<byte>)
    requires NoTagTwice(records) && k < |records|
    ensures MapOf(records[k := Record(records[k].tag, value)]) == MapOf(records)[records[k].tag := value]
    ensures NoTagTwice(records[k := Record(records[k].tag, value)])
  {
    var changed := records[k := Record(records[k].tag, value)];
    if k == 0 {
      assert changed[1..] == records[1..];
    } else {
      assert changed[1..] == records[1..][k - 1 := Record(records[k].tag, value)];
      MapOfChanged(records[1..], k - 1, value);
    }
  }
}
