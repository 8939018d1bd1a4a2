/** The CBOR encoders: headers and strings appended to a data buffer, all or nothing. */
module CborEncode {
  import opened Words
  import opened Mempool
  import opened SegmentBytes
  import opened SegmentLists
  import opened Buffers
  import opened CborFormat
  import opened CborRoundTrip

  /** A word shifted to the right, and cut down to a byte. */
  function ByteAt(p: Param, unit: nat): (b: byte)
    requires unit > 0
  {
    p / unit % 0x100
  }

  /** There is memory for n more bytes at the end of a buffer. */
  predicate Fits(offset: nat, size: nat, n: nat, count: nat) {
    size + n <= MAX_SIZE && SegCount(offset, size + n) <= count
  }

  /** That is, there is if the size does not exceed 16 bits and the last byte lies in one of the segments. */
  lemma FitsExactly(offset: nat, size: nat, n: nat, count: nat)
    requires offset < 64
    ensures Fits(offset, size, n, count) <==> size + n <= 0xFFFF && (size + n == 0 || offset + size + n <= 64 * count)
  {
    SegCountIsLeast(offset, size + n, count);
  }

  /** Appends a major type with a parameter in its shortest form. */
  method EncodeWithParameter(pool: Pool, buffer: Buffer, majorType: byte, parameter: Param) returns (ok: bool)
    requires buffer.With(pool) && majorType % 32 == 0
    modifies buffer, pool, pool.free, buffer.segs
    ensures buffer.With(pool) && buffer.Total(pool) == old(buffer.Total(pool))
    ensures buffer.Count(pool) == old(buffer.Count(pool)) && buffer.bufferOffset == old(buffer.bufferOffset)
    ensures ok <==> Fits(old(buffer.bufferOffset), old(buffer.bufferSize), |EncodeHeader(majorType / 32, parameter)|,
                         old(buffer.Count(pool)))
    ensures buffer.Contents()
         == if ok then old(buffer.Contents()) + EncodeHeader(majorType / 32, parameter) else old(buffer.Contents())
  {
    hide View, SegCount, EncodeHeader;
    var header := MakeHeader(majorType, parameter);
    ok := buffer.Append(pool, header);
  }

  /** Fills an array with a major type and its parameter. */
  method MakeHeader(majorType: byte, parameter: Param) returns (header: seq<byte>)
    requires majorType % 32 == 0
    ensures header == EncodeHeader(majorType / 32, parameter)
  {
    hide EncodeHeader;
    var dataBytes := new byte[9];
    var dataSize;
    if parameter < 24 {
      dataBytes[0] := majorType + parameter;
      dataSize := 1;
    } else if parameter <= 0xFF {
      dataBytes[0] := majorType + 24;
      dataBytes[1] := ByteAt(parameter, 1);
      dataSize := 2;
    } else if parameter <= 0xFFFF {
      dataBytes[0] := majorType + 25;
      dataBytes[1] := ByteAt(parameter, 0x100);
      dataBytes[2] := ByteAt(parameter, 1);
      dataSize := 3;
    } else if parameter >= 0x1_0000_0000 {
      dataBytes[0] := majorType + 27;
      dataBytes[1] := ByteAt(parameter, 0x100_0000_0000_0000);
      dataBytes[2] := ByteAt(parameter, 0x1_0000_0000_0000);
      dataBytes[3] := ByteAt(parameter, 0x100_0000_0000);
      dataBytes[4] := ByteAt(parameter, 0x1_0000_0000);
      dataBytes[5] := ByteAt(parameter, 0x100_0000);
      dataBytes[6] := ByteAt(parameter, 0x1_0000);
      dataBytes[7] := ByteAt(parameter, 0x100);
      dataBytes[8] := ByteAt(parameter, 1);
      dataSize := 9;
    } else {
      dataBytes[0] := majorType + 26;
      dataBytes[1] := ByteAt(parameter, 0x100_0000);
      dataBytes[2] := ByteAt(parameter, 0x1_0000);
      dataBytes[3] := ByteAt(parameter, 0x100);
      dataBytes[4] := ByteAt(parameter, 1);
      dataSize := 5;
    }
    HeaderBytes(majorType, parameter, dataBytes[..], dataSize);
    header := dataBytes[..dataSize];
  }

  /** The shifted and truncated bytes are the parameter in network byte order. */
  lemma HeaderBytes(majorType: byte, parameter: Param, d: seq<byte>, n: nat)
    requires majorType % 32 == 0 && |d| == 9
    requires if parameter < 24 then n == 1 && d[0] == majorType + parameter
             else
               && n == 1 + ParamBytes(InfoFor(parameter)) && d[0] == majorType + InfoFor(parameter)
               && d[n - 1] == ByteAt(parameter, 1)
               && (n > 2 ==> d[n - 2] == ByteAt(parameter, 0x100))
               && (n > 3 ==> d[n - 3] == ByteAt(parameter, 0x1_0000) && d[n - 4] == ByteAt(parameter, 0x100_0000))
               && (n > 5 ==> d[n - 5] == ByteAt(parameter, 0x1_0000_0000)
                             && d[n - 6] == ByteAt(parameter, 0x100_0000_0000)
                             && d[n - 7] == ByteAt(parameter, 0x1_0000_0000_0000)
                             && d[n - 8] == ByteAt(parameter, 0x100_0000_0000_0000))
    ensures d[..n] == EncodeHeader(majorType / 32, parameter)
  {
    hide Be, ByteAt;
    var k := ParamBytes(InfoFor(parameter));
    assert d[..n] == [d[0]] + d[1..n];
    BeBytes(parameter, k);
  }

  lemma BeBytes(p: Param, k: nat)
    requires k in {0, 1, 2, 4, 8}
    ensures k == 0 ==> Be(p, k) == []
    ensures k == 1 ==> Be(p, k) == [ByteAt(p, 1)]
    ensures k == 2 ==> Be(p, k) == [ByteAt(p, 0x100), ByteAt(p, 1)]
    ensures k == 4 ==> Be(p, k) == [ByteAt(p, 0x100_0000), ByteAt(p, 0x1_0000), ByteAt(p, 0x100), ByteAt(p, 1)]
    ensures k == 8 ==>
              Be(p, k) == [ByteAt(p, 0x100_0000_0000_0000), ByteAt(p, 0x1_0000_0000_0000),
                           ByteAt(p, 0x100_0000_0000), ByteAt(p, 0x1_0000_0000),
                           ByteAt(p, 0x100_0000), ByteAt(p, 0x1_0000), ByteAt(p, 0x100), ByteAt(p, 1)]
  {
    hide Be;
    if k == 8 {
      BeFour(p, k);
      BeFour(p / 0x1_0000_0000, 4);
      BeStep(p / 0x1_0000_0000_0000_0000, 0);
      var q := p / 0x1_0000_0000;
      assert q / 0x100 == p / 0x100_0000_0000 && q / 0x1_0000 == p / 0x1_0000_0000_0000;
      assert q / 0x100_0000 == p / 0x100_0000_0000_0000;
    } else if k == 4 {
      BeFour(p, k);
      BeStep(p / 0x1_0000_0000, 0);
    } else {
      BeStep(p, k);
      BeStep(p / 0x100, k - 1);
      BeStep(p / 0x100 / 0x100, k - 2);
    }
  }

  lemma BeFour(p: Param, k: nat)
    requires k >= 4
    ensures Be(p, k) == Be(p / 0x1_0000_0000, k - 4)
                        + [ByteAt(p, 0x100_0000), ByteAt(p, 0x1_0000), ByteAt(p, 0x100), ByteAt(p, 1)]
  {
    hide Be;
    BeStep(p, k);
    BeStep(p / 0x100, k - 1);
    BeStep(p / 0x1_0000, k - 2);
    BeStep(p / 0x100_0000, k - 3);
  }

  lemma BeStep(p: nat, k: int)
    ensures Be(p, 0) == []
    ensures k > 0 ==> Be(p, k) == Be(p / 0x100, k - 1) + [p % 0x100]
  {
  }

  lemma MoreFits(offset: nat, size: nat, m: nat, n: nat)
    requires offset < SEG
    ensures forall count :: Fits(offset, size, m + n, count) ==> Fits(offset, size, m, count)
    ensures size + m + n == size + (m + n)
  {
  }

  lemma FitsAfter(offset: nat, size: nat, m: nat, n: nat, count: nat)
    ensures Fits(offset, size + m, n, count) <==> Fits(offset, size, m + n, count)
  {
    assert size + m + n == size + (m + n);
  }

  /** Appends a string with its header.  When the string does not fit, the header is taken back. */
  method EncodeWithByteArray(pool: Pool, buffer: Buffer, majorType: byte, bytes: seq<byte>) returns (ok: bool)
    requires buffer.With(pool) && majorType % 32 == 0 && |bytes| <= MAX_SIZE
    modifies buffer, pool, buffer.Total(pool)
    ensures buffer.With(pool) && buffer.Total(pool) == old(buffer.Total(pool))
    ensures buffer.Count(pool) == old(buffer.Count(pool)) && buffer.bufferOffset == old(buffer.bufferOffset)
    ensures ok <==> |bytes| <= MAX_STRING_SIZE
                    && Fits(old(buffer.bufferOffset), old(buffer.bufferSize),
                            |EncodeHeader(majorType / 32, |bytes|)| + |bytes|, old(buffer.Count(pool)))
    ensures buffer.Contents()
         == if ok then old(buffer.Contents()) + (EncodeHeader(majorType / 32, |bytes|) + bytes) else old(buffer.Contents())
  {
    hide View, SegCount, Linked, EncodeHeader, Buffer.Total, Buffer.Count, Owned, Buffer.Contents, Fits;
    if |bytes| > MAX_STRING_SIZE {
      return false;
    }
    ghost var was := buffer.Contents();
    var rollbackSize := buffer.bufferSize;
    MoreFits(buffer.bufferOffset, rollbackSize, |EncodeHeader(majorType / 32, |bytes|)|, |bytes|);
    FitsAfter(buffer.bufferOffset, rollbackSize, |EncodeHeader(majorType / 32, |bytes|)|, |bytes|, buffer.Count(pool));
    buffer.InTotal(pool);
    ok := EncodeWithParameter(pool, buffer, majorType, |bytes|);
    if ok {
      ok := AppendOrTrim(pool, buffer, bytes, rollbackSize, was, EncodeHeader(majorType / 32, |bytes|));
    }
  }

  /** Appends the bytes of a string after its header, or takes the header back. */
  method AppendOrTrim(pool: Pool, buffer: Buffer, bytes: seq<byte>, rollbackSize: nat, ghost was: seq<byte>, ghost header: seq<byte>)
    returns (ok: bool)
    requires buffer.With(pool) && |bytes| <= MAX_SIZE && buffer.Contents() == was + header && rollbackSize == |was|
    requires header != []
    modifies buffer, pool, buffer.Total(pool)
    ensures buffer.With(pool) && buffer.Total(pool) == old(buffer.Total(pool))
    ensures buffer.Count(pool) == old(buffer.Count(pool))
    ensures buffer.bufferOffset == if !ok && was == [] then 0 else old(buffer.bufferOffset)
    ensures ok <==> bytes == [] || Fits(old(buffer.bufferOffset), old(buffer.bufferSize), |bytes|, old(buffer.Count(pool)))
    ensures buffer.Contents() == if ok then was + (header + bytes) else was
  {
    hide View, SegCount, Linked, Buffer.Total, Owned;
    buffer.InTotal(pool);
    ok := buffer.Append(pool, bytes);
    buffer.InTotal(pool);
    assert (was + header) + bytes == was + (header + bytes);
    if !ok {
      var resizeOk := buffer.Resize(pool, rollbackSize);
      assert (was + header)[..rollbackSize] == was;
    }
  }

  /** Appends a signed integer. */
  method EncodeInt64(pool: Pool, buffer: Buffer, value: int) returns (ok: bool)
    requires buffer.With(pool) && -0x8000_0000_0000_0000 <= value < 0x8000_0000_0000_0000
    modifies buffer, pool, pool.free, buffer.segs
    ensures buffer.With(pool) && buffer.Total(pool) == old(buffer.Total(pool))
    ensures ok <==> Fits(old(buffer.bufferOffset), old(buffer.bufferSize), |Encode(Integer(value))|, old(buffer.Count(pool)))
    ensures buffer.Contents()
         == if ok then old(buffer.Contents()) + Encode(Integer(value)) else old(buffer.Contents())
    ensures ok && value >= 0 ==> buffer.Contents() == old(buffer.Contents()) + EncodeHeader(0, value)
    ensures ok && value < 0 ==> buffer.Contents() == old(buffer.Contents()) + EncodeHeader(1, -1 - value)
  {
    hide EncodeHeader, View, SegCount, Linked, Buffer.Contents, Fits;
    if value >= 0 {
      ok := EncodeWithParameter(pool, buffer, 0x00, value);
    } else {
      ok := EncodeWithParameter(pool, buffer, 0x20, -(value + 1));
    }
  }

  /** What every encoder does: append bytes if there is memory for them, and nothing else. */
  ghost predicate Appends(buffer: Buffer, pool: Pool, was: seq<byte>, offset: nat, count: nat, bytes: seq<byte>, ok: bool)
    reads buffer, pool, pool.free, buffer.segs
  {
    && buffer.With(pool) && buffer.bufferOffset == offset && buffer.Count(pool) == count
    && (ok <==> Fits(offset, |was|, |bytes|, count))
    && was <= buffer.Contents() && (ok ==> buffer.Contents() == was + bytes)
  }

  /** Encodes one of the items that have no contents. */
  method EncodeLeaf(pool: Pool, buffer: Buffer, v: Value) returns (ok: bool)
    requires buffer.With(pool) && Encodable(v) && !v.Array? && !v.Map? && !v.Tag?
    modifies buffer, pool, buffer.Total(pool)
    ensures buffer.Total(pool) == old(buffer.Total(pool))
    ensures Appends(buffer, pool, old(buffer.Contents()), old(buffer.bufferOffset), old(buffer.Count(pool)), Encode(v), ok)
  {
    hide Appends, EncodeHeader, Buffer.With, Be;
    if v.Uint? {
      ok := EncodeHead(pool, buffer, 0x00, v.n);
    } else if v.Nint? {
      ok := EncodeHead(pool, buffer, 0x20, v.n);
    } else if v.Bytes? {
      ok := EncodeString(pool, buffer, 0x40, v.bytes);
    } else if v.Text? {
      ok := EncodeString(pool, buffer, 0x60, v.bytes);
    } else {
      ok := EncodeSimple(pool, buffer, v);
    }
  }

  method EncodeString(pool: Pool, buffer: Buffer, majorType: byte, bytes: seq<byte>) returns (ok: bool)
    requires buffer.With(pool) && majorType % 32 == 0 && |bytes| <= MAX_STRING_SIZE
    modifies buffer, pool, buffer.Total(pool)
    ensures buffer.Total(pool) == old(buffer.Total(pool))
    ensures Appends(buffer, pool, old(buffer.Contents()), old(buffer.bufferOffset), old(buffer.Count(pool)),
                    EncodeHeader(majorType / 32, |bytes|) + bytes, ok)
  {
    hide View, SegCount, EncodeHeader, Linked, Buffer.Contents;
    ok := EncodeWithByteArray(pool, buffer, majorType, bytes);
  }

  method EncodeSimple(pool: Pool, buffer: Buffer, v: Value) returns (ok: bool)
    requires buffer.With(pool) && Encodable(v) && (v.Simple? || v.Float32? || v.Float64?)
    modifies buffer, pool, buffer.Total(pool)
    ensures buffer.Total(pool) == old(buffer.Total(pool))
    ensures Appends(buffer, pool, old(buffer.Contents()), old(buffer.bufferOffset), old(buffer.Count(pool)), Encode(v), ok)
  {
    hide View, SegCount, Linked, Be, Buffer.Contents;
    var bytes := if v.Simple? then [0xE0 + v.code] else if v.Float32? then [0xFA] + Be(v.bits, 4) else [0xFB] + Be(v.wide, 8);
    assert bytes == Encode(v);
    ok := buffer.Append(pool, bytes);
  }

  /** One piece after another. */
  lemma ThenAppends(buffer: Buffer, pool: Pool, was: seq<byte>, offset: nat, count: nat, first: seq<byte>, second: seq<byte>, ok: bool)
    requires offset < SEG && Fits(offset, |was|, |first|, count)
    requires Appends(buffer, pool, was + first, offset, count, second, ok)
    ensures Appends(buffer, pool, was, offset, count, first + second, ok)
  {
    hide Buffer.With, SegCount;
    assert (was + first) + second == was + (first + second);
    assert was <= was + first;
  }

  /** When one piece does not fit, then neither does it with more. */
  lemma FailsAtFirst(buffer: Buffer, pool: Pool, was: seq<byte>, offset: nat, count: nat, first: seq<byte>, second: seq<byte>)
    requires offset < SEG && Appends(buffer, pool, was, offset, count, first, false)
    ensures Appends(buffer, pool, was, offset, count, first + second, false)
  {
    hide Buffer.With, SegCount;
    MoreFits(offset, |was|, |first|, |second|);
  }

  method EncodeHead(pool: Pool, buffer: Buffer, majorType: byte, parameter: Param) returns (ok: bool)
    requires buffer.With(pool) && majorType % 32 == 0
    modifies buffer, pool, buffer.Total(pool)
    ensures buffer.Total(pool) == old(buffer.Total(pool))
    ensures Appends(buffer, pool, old(buffer.Contents()), old(buffer.bufferOffset), old(buffer.Count(pool)),
                    EncodeHeader(majorType / 32, parameter), ok)
  {
    hide View, SegCount, EncodeHeader, Linked, Buffer.Contents;
    ok := EncodeWithParameter(pool, buffer, majorType, parameter);
  }

  method EncodeByte(pool: Pool, buffer: Buffer, encoding: byte) returns (ok: bool)
    requires buffer.With(pool)
    modifies buffer, pool, buffer.Total(pool)
    ensures buffer.Total(pool) == old(buffer.Total(pool))
    ensures Appends(buffer, pool, old(buffer.Contents()), old(buffer.bufferOffset), old(buffer.Count(pool)), [encoding], ok)
  {
    hide View, SegCount, Linked, Buffer.Contents;
    ok := buffer.Append(pool, [encoding]);
  }

  /** Encodes a value, item by item, as an application does with the encoders. */
  method EncodeValue(pool: Pool, buffer: Buffer, v: Value) returns (ok: bool)
    requires buffer.With(pool) && Encodable(v)
    modifies buffer, pool, buffer.Total(pool)
    ensures buffer.Total(pool) == old(buffer.Total(pool))
    ensures Appends(buffer, pool, old(buffer.Contents()), old(buffer.bufferOffset), old(buffer.Count(pool)), Encode(v), ok)
    decreases v, 2
  {
    hide Fits, EncodeHeader, EncodeAll, Appends, Buffer.Contents;
    match v
    case Array(items, open) => ok := EncodeEnclosed(pool, buffer, v, 0x80, |items|);
    case Map(items, open) => ok := EncodeEnclosed(pool, buffer, v, 0xA0, |items| / 2);
    case Tag(number, item) => ok := EncodeTagged(pool, buffer, v);
    case _ => ok := EncodeLeaf(pool, buffer, v);
  }

  method EncodeTagged(pool: Pool, buffer: Buffer, v: Value) returns (ok: bool)
    requires buffer.With(pool) && Encodable(v) && v.Tag?
    modifies buffer, pool, buffer.Total(pool)
    ensures buffer.Total(pool) == old(buffer.Total(pool))
    ensures Appends(buffer, pool, old(buffer.Contents()), old(buffer.bufferOffset), old(buffer.Count(pool)), Encode(v), ok)
    decreases v, 1
  {
    hide View, SegCount, EncodeHeader, Linked, Fits;
    ghost var was, offset, count := buffer.Contents(), buffer.bufferOffset, buffer.Count(pool);
    ok := EncodeHead(pool, buffer, 0xC0, v.number);
    if ok {
      ok := EncodeValue(pool, buffer, v.item);
      ThenAppends(buffer, pool, was, offset, count, EncodeHeader(TAG, v.number), Encode(v.item), ok);
    } else {
      FailsAtFirst(buffer, pool, was, offset, count, EncodeHeader(TAG, v.number), Encode(v.item));
    }
  }

  lemma NothingAppended(buffer: Buffer, pool: Pool)
    requires buffer.With(pool)
    ensures Appends(buffer, pool, buffer.Contents(), buffer.bufferOffset, buffer.Count(pool), [], true)
  {
    hide View;
    assert buffer.Contents() + [] == buffer.Contents();
  }

  lemma SliceMembers(vs: seq<Value>, i: nat)
    requires i < |vs|
    ensures forall v :: v in vs[..i] || v in vs[..i + 1] || v in vs[i + 1..] ==> v in vs
    ensures vs[i] in vs && vs[..i + 1] == vs[..i] + [vs[i]] && vs == vs[..i + 1] + vs[i + 1..]
  {
  }

  lemma EncodeAllParts(vs: seq<Value>, i: nat)
    requires i < |vs| && forall v :: v in vs ==> Encodable(v)
    ensures forall v :: v in vs[..i] || v in vs[..i + 1] || v in vs[i + 1..] ==> Encodable(v)
    ensures vs[i] in vs && EncodeAll(vs[..i + 1]) == EncodeAll(vs[..i]) + Encode(vs[i])
    ensures EncodeAll(vs) == EncodeAll(vs[..i + 1]) + EncodeAll(vs[i + 1..])
  {
    hide *;
    SliceMembers(vs, i);
    var before, upTo, after := vs[..i], vs[..i + 1], vs[i + 1..];
    EncodeAllJoin(before, [vs[i]]);
    EncodeAllJoin(upTo, after);
    EncodeAllOne(vs[i]);
  }

  lemma EncodeAllOne(v: Value)
    requires Encodable(v)
    ensures EncodeAll([v]) == Encode(v)
  {
    hide Encode, Encodable;
    assert [v][1..] == [];
  }

  lemma EncodeAllJoin(a: seq<Value>, b: seq<Value>)
    requires forall v :: v in a || v in b ==> Encodable(v)
    ensures EncodeAll(a + b) == EncodeAll(a) + EncodeAll(b)
    decreases |a|
  {
    hide Encode, Encodable;
    if a == [] {
      assert a + b == b;
    } else {
      assert a[0] in a && (a + b)[1..] == a[1..] + b;
      EncodeAllJoin(a[1..], b);
    }
  }

  /** Encodes the items of an array or map in turn. */
  method EncodeItems(pool: Pool, buffer: Buffer, v: Value) returns (ok: bool)
    requires buffer.With(pool) && Encodable(v) && (v.Array? || v.Map?)
    modifies buffer, pool, buffer.Total(pool)
    ensures buffer.Total(pool) == old(buffer.Total(pool))
    ensures Appends(buffer, pool, old(buffer.Contents()), old(buffer.bufferOffset), old(buffer.Count(pool)),
                    EncodeAll(v.items), ok)
    decreases v, 0
  {
    hide View, SegCount, EncodeHeader, Linked, Encode, EncodeAll, Fits;
    ghost var was, offset, count := buffer.Contents(), buffer.bufferOffset, buffer.Count(pool);
    var items := v.items;
    ok := true;
    NothingAppended(buffer, pool);
    NoneEncoded(0);
    assert items[..0] == [];
    for i := 0 to |items|
      invariant buffer.Total(pool) == old(buffer.Total(pool)) && ok
      invariant forall u :: u in items ==> Encodable(u)
      invariant Appends(buffer, pool, was, offset, count, EncodeAll(items[..i]), true)
    {
      EncodeAllParts(items, i);
      ok := EncodeValue(pool, buffer, items[i]);
      ThenAppends(buffer, pool, was, offset, count, EncodeAll(items[..i]), Encode(items[i]), ok);
      if !ok {
        FailsAtFirst(buffer, pool, was, offset, count, EncodeAll(items[..i + 1]), EncodeAll(items[i + 1..]));
        return;
      }
    }
    assert items[..|items|] == items;
  }

  /** Encodes an array or map: a header with its length, or with the indefinite length marker and a break code. */
  method EncodeEnclosed(pool: Pool, buffer: Buffer, v: Value, majorType: byte, length: Param) returns (ok: bool)
    requires buffer.With(pool) && Encodable(v)
    requires if v.Array? then majorType == 0x80 && length == |v.items|
             else v.Map? && majorType == 0xA0 && length == |v.items| / 2
    modifies buffer, pool, buffer.Total(pool)
    ensures buffer.Total(pool) == old(buffer.Total(pool))
    ensures Appends(buffer, pool, old(buffer.Contents()), old(buffer.bufferOffset), old(buffer.Count(pool)), Encode(v), ok)
    decreases v, 1
  {
    hide View, SegCount, EncodeHeader, Linked, EncodeAll, Fits;
    ghost var was, offset, count := buffer.Contents(), buffer.bufferOffset, buffer.Count(pool);
    ghost var head := if v.open then [majorType + 31] else EncodeHeader(majorType / 32, length);
    ghost var items, tail: seq<byte> := EncodeAll(v.items), if v.open then [BREAK_CODE] else [];
    assert Encode(v) == head + items + tail && Encode(v) == head + (items + tail);
    if v.open {
      ok := EncodeByte(pool, buffer, majorType + 31);
    } else {
      ok := EncodeHead(pool, buffer, majorType, length);
    }
    if !ok {
      FailsAtFirst(buffer, pool, was, offset, count, head, items + tail);
      return;
    }
    ok := EncodeItems(pool, buffer, v);
    ThenAppends(buffer, pool, was, offset, count, head, items, ok);
    if !ok {
      FailsAtFirst(buffer, pool, was, offset, count, head + items, tail);
    } else if v.open {
      ok := EncodeByte(pool, buffer, BREAK_CODE);
      ThenAppends(buffer, pool, was, offset, count, head + items, tail, ok);
    }
  }
}
