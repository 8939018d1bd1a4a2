/** Values, their encoding, and what scanning an encoding gives back. */
module CborRoundTrip {
  import opened Words
  import opened CborFormat
  import opened CborTree

  /** The data items that there are encoders for.  A map is a sequence of keys and values in turn; an
      open array or map has indefinite length. */
  datatype Value =
    | Uint(n: Param)
    | Nint(n: Param)
    | Bytes(bytes: seq<byte>)
    | Text(bytes: seq<byte>)
    | Array(items: seq<Value>, open: bool)
    | Map(items: seq<Value>, open: bool)
    | Tag(number: Param, item: Value)
    | Simple(code: nat)
    | Float32(bits: uint32)
    | Float64(wide: Param)

  function Encode(v: Value): (s: seq<byte>)
    requires Encodable(v)
    ensures |s| >= 1
    decreases v
  {
    match v
    case Uint(n) => EncodeHeader(INT_POS, n)
    case Nint(n) => EncodeHeader(INT_NEG, n)
    case Bytes(b) => EncodeHeader(STR_BYTE, |b|) + b
    case Text(b) => EncodeHeader(STR_TEXT, |b|) + b
    case Array(items, open) => Enclose(ARRAY, |items|, open, EncodeAll(items))
    case Map(items, open) => Enclose(MAP, |items| / 2, open, EncodeAll(items))
    case Tag(number, item) => EncodeHeader(TAG, number) + Encode(item)
    case Simple(code) => [Specifier(SIMPLE, code)]
    case Float32(bits) => [Specifier(SIMPLE, 26)] + Be(bits, 4)
    case Float64(wide) => [Specifier(SIMPLE, 27)] + Be(wide, 8)
  }

  function EncodeAll(vs: seq<Value>): (s: seq<byte>)
    requires forall v :: v in vs ==> Encodable(v)
    decreases vs
  {
    if vs == [] then [] else Encode(vs[0]) + EncodeAll(vs[1..])
  }

  function Enclose(major: nat, length: Param, open: bool, contents: seq<byte>): (s: seq<byte>)
    requires major < 8
    ensures |s| >= 1
  {
    if open then [Specifier(major, 31)] + contents + [BREAK_CODE] else EncodeHeader(major, length) + contents
  }

  /** Parameters that fit their fields; map entries in pairs; the simple values there are encoders for. */
  predicate Encodable(v: Value)
    decreases v
  {
    match v
    case Bytes(b) => |b| <= MAX_STRING_SIZE
    case Text(b) => |b| <= MAX_STRING_SIZE
    case Array(items, _) => |items| <= 0xFFFF && forall i :: i in items ==> Encodable(i)
    case Map(items, _) => |items| % 2 == 0 && |items| / 2 <= 0xFFFF && forall i :: i in items ==> Encodable(i)
    case Tag(_, item) => Encodable(item)
    case Simple(code) => 20 <= code <= 23
    case _ => true
  }

  /** The data item for a signed integer. */
  function Integer(value: int): (v: Value)
    requires -0x8000_0000_0000_0000 <= value < 0x8000_0000_0000_0000
    ensures Encodable(v)
  {
    if value >= 0 then Uint(value) else Nint(-(value + 1))
  }

  /** A negative integer is written as how much it lies below minus one (RFC 8949, section 3.1). */
  lemma IntegerBytes(value: int)
    requires -0x8000_0000_0000_0000 <= value < 0x8000_0000_0000_0000
    ensures value >= 0 ==> Encode(Integer(value)) == EncodeHeader(0, value)
    ensures value < 0 ==> Encode(Integer(value)) == EncodeHeader(1, -1 - value)
  {
  }

  /** The major types are those of the standard (RFC 8949, sections 3.1 to 3.3), and so are the bytes that do not
      depend on a parameter. */
  lemma StandardBytes(v: Value)
    requires Encodable(v)
    ensures Encode(v)[0] / 32 == match v
                                 case Uint(_) => 0
                                 case Nint(_) => 1
                                 case Bytes(_) => 2
                                 case Text(_) => 3
                                 case Array(_, _) => 4
                                 case Map(_, _) => 5
                                 case Tag(_, _) => 6
                                 case _ => 7
    ensures (v.Array? || v.Map?) && v.open ==>
              Encode(v) == [if v.Array? then 0x9F else 0xBF] + EncodeAll(v.items) + [0xFF]
    ensures v.Simple? ==> Encode(v) == [0xE0 + v.code]
    ensures v.Float32? ==> |Encode(v)| == 5 && Encode(v)[0] == 0xFA
    ensures v.Float64? ==> |Encode(v)| == 9 && Encode(v)[0] == 0xFB
  {
    hide Be, EncodeAll, InfoFor;
  }

  /** The limits of a scanner: nesting, numbers of entries, and a narrow loop counter. */
  predicate Within(v: Value, depth: nat, fast8: nat)
    decreases v
  {
    match v
    case Array(items, open) =>
      && depth > 0 && |items| <= MAX_ARRAY_SIZE && (!open ==> |items| < fast8)
      && forall i :: i in items ==> Within(i, depth - 1, fast8)
    case Map(items, open) =>
      && depth > 0 && |items| / 2 <= MAX_MAP_SIZE && (!open ==> |items| / 2 < fast8)
      && forall i :: i in items ==> Within(i, depth - 1, fast8)
    case Tag(_, item) => depth > 0 && Within(item, depth - 1, fast8)
    case _ => true
  }

  /** The tokens that stand for a value encoded at an offset. */
  function TreeOf(v: Value, offset: nat): (t: Tree)
    requires Encodable(v)
    decreases v
  {
    match v
    case Uint(n) => Leaf(INT_POS, n, offset)
    case Nint(n) => Leaf(INT_NEG, n, offset)
    case Bytes(b) => Leaf(STR_BYTE, |b|, offset)
    case Text(b) => Leaf(STR_TEXT, |b|, offset)
    case Array(items, open) =>
      var token := Enclosing(ARRAY, |items|, open, offset);
      Close(token, TreesOf(items, DataOffset(token)))
    case Map(items, open) =>
      var token := Enclosing(MAP, |items| / 2, open, offset);
      Close(token, TreesOf(items, DataOffset(token)))
    case Tag(number, item) =>
      var token := Token(number, offset, 1, Specifier(TAG, InfoFor(number)));
      Close(token, [TreeOf(item, DataOffset(token))])
    case Simple(code) => Tree(Token(code, offset, 1, Specifier(SIMPLE, code)), [])
    case Float32(bits) => Tree(Token(bits, offset, 1, Specifier(SIMPLE, 26)), [])
    case Float64(wide) => Tree(Token(wide, offset, 1, Specifier(SIMPLE, 27)), [])
  }

  function TreesOf(vs: seq<Value>, offset: nat): (ts: seq<Tree>)
    requires forall v :: v in vs ==> Encodable(v)
    ensures |ts| == |vs|
    decreases vs
  {
    if vs == [] then [] else [TreeOf(vs[0], offset)] + TreesOf(vs[1..], offset + |Encode(vs[0])|)
  }

  function Leaf(major: nat, param: Param, offset: nat): Tree
    requires major < 8
  {
    Tree(Token(param, offset, 1, Specifier(major, InfoFor(param))), [])
  }

  function Enclosing(major: nat, length: Param, open: bool, offset: nat): Token
    requires major < 8
  {
    Token(length, offset, 1, Specifier(major, if open then 31 else InfoFor(length)))
  }

  /** Scanning an encoded value, wherever it stands in a message, finds its tokens and its end. */
  lemma ScanEncoded(src: Source, offset: nat, v: Value, depth: nat, mayBreak: bool)
    requires src.Valid() && Encodable(v) && Within(v, depth, src.fast8) && Holds(src.message, offset, Encode(v))
    ensures ScanItem(src, offset, depth, mayBreak) == Item(offset + |Encode(v)|, TreeOf(v, offset))
    decreases v
  {
    hide Encode, TreeOf, ScanItem, Holds, Header;
    match v
    case Array(items, open) => ScanEnclosed(src, offset, v, depth, mayBreak);
    case Map(items, open) => ScanEnclosed(src, offset, v, depth, mayBreak);
    case Tag(number, item) => ScanTaggedItem(src, offset, v, depth, mayBreak);
    case _ => ScanLeaf(src, offset, v, depth, mayBreak);
  }

  lemma ScanTaggedItem(src: Source, offset: nat, v: Value, depth: nat, mayBreak: bool)
    requires src.Valid() && v.Tag? && Encodable(v) && Within(v, depth, src.fast8) && Holds(src.message, offset, Encode(v))
    ensures ScanItem(src, offset, depth, mayBreak) == Item(offset + |Encode(v)|, TreeOf(v, offset))
    decreases v, 0
  {
    hide Header, EncodeHeader, Holds, ScanItem, Close, InfoFor, Specifier, Major, Info;
    HoldsParts(src.message, offset, EncodeHeader(TAG, v.number), Encode(v.item));
    var token := ScanHeader(src, offset, TAG, v.number, depth, mayBreak);
    ScanEncoded(src, DataOffset(token), v.item, depth - 1, false);
    ScanGivenHeader(src, offset, token, depth, mayBreak);
  }

  /** What scanning comes to once the header is known. */
  lemma ScanGivenHeader(src: Source, offset: nat, token: Token, depth: nat, mayBreak: bool)
    requires src.Valid() && Header(src.message, offset) == Some(token)
    ensures var major, info := Major(token.typeSpecifier), Info(token.typeSpecifier);
            var r := ScanItem(src, offset, depth, mayBreak);
            && (major in {INT_POS, INT_NEG} ==> r == Item(DataOffset(token), Tree(token, [])))
            && (major == SIMPLE && info != 31 ==> r == Item(DataOffset(token), Tree(token, [])))
            && (major in {STR_BYTE, STR_TEXT} && info != 31 && DataOffset(token) + token.typeParam <= |src.message| ==>
                  r == Item(DataOffset(token) + token.typeParam, Tree(token, [])))
            && (major == TAG && depth > 0 ==> r == ScanTagged(src, token, depth))
            && (major in {ARRAY, MAP} && depth > 0 ==>
                  r == if info == 31 then ScanOpenItems(src, token, depth) else ScanFixedItems(src, token, depth))
  {
    hide Header, DataOffset, ScanTagged, ScanOpenItems, ScanFixedItems;
  }

  /** A header as the encoder writes it, and what scanning comes to from there. */
  lemma ScanHeader(src: Source, offset: nat, major: nat, param: Param, depth: nat, mayBreak: bool) returns (token: Token)
    requires src.Valid() && major < 8 && Holds(src.message, offset, EncodeHeader(major, param))
    ensures token == Token(param, offset, 1, Specifier(major, InfoFor(param)))
    ensures Header(src.message, offset) == Some(token) && DataOffset(token) == offset + |EncodeHeader(major, param)|
    ensures Major(token.typeSpecifier) == major && Info(token.typeSpecifier) != 31
  {
    hide Header, Holds;
    HeaderRoundTrip(src.message, offset, major, param);
    token := Token(param, offset, 1, Specifier(major, InfoFor(param)));
  }

  lemma ScanLeaf(src: Source, offset: nat, v: Value, depth: nat, mayBreak: bool)
    requires !v.Array? && !v.Map? && !v.Tag?
    requires src.Valid() && Encodable(v) && Holds(src.message, offset, Encode(v))
    ensures ScanItem(src, offset, depth, mayBreak) == Item(offset + |Encode(v)|, TreeOf(v, offset))
  {
    hide Header, Be, ScanItem, EncodeHeader, InfoFor, Pow2, DataOffset, Specifier, Major, Info;
    match v
    case Uint(n) =>
      var token := ScanHeader(src, offset, INT_POS, n, depth, mayBreak);
      ScanGivenHeader(src, offset, token, depth, mayBreak);
    case Nint(n) =>
      var token := ScanHeader(src, offset, INT_NEG, n, depth, mayBreak);
      ScanGivenHeader(src, offset, token, depth, mayBreak);
    case Bytes(b) =>
      HoldsParts(src.message, offset, EncodeHeader(STR_BYTE, |b|), b);
      var token := ScanHeader(src, offset, STR_BYTE, |b|, depth, mayBreak);
      ScanGivenHeader(src, offset, token, depth, mayBreak);
    case Text(b) =>
      HoldsParts(src.message, offset, EncodeHeader(STR_TEXT, |b|), b);
      var token := ScanHeader(src, offset, STR_TEXT, |b|, depth, mayBreak);
      ScanGivenHeader(src, offset, token, depth, mayBreak);
    case _ => ScanSimple(src, offset, v, depth, mayBreak);
  }

  lemma ScanSimple(src: Source, offset: nat, v: Value, depth: nat, mayBreak: bool)
    requires v.Simple? || v.Float32? || v.Float64?
    requires src.Valid() && Encodable(v) && Holds(src.message, offset, Encode(v))
    ensures ScanItem(src, offset, depth, mayBreak) == Item(offset + |Encode(v)|, TreeOf(v, offset))
  {
    hide Header, Be, ScanItem, Pow2, Holds, Major, Info;
    ghost var token := TreeOf(v, offset).token;
    match v
    case Simple(code) =>
      HeaderOfOneByte(src.message, offset, Specifier(SIMPLE, code));
      ScanGivenHeader(src, offset, token, depth, mayBreak);
    case Float32(bits) =>
      Pow2Values();
      HeaderWithBytes(src.message, offset, Specifier(SIMPLE, 26), bits);
      ScanGivenHeader(src, offset, token, depth, mayBreak);
    case Float64(wide) =>
      Pow2Values();
      Pow2Adds(32, 32);
      HeaderWithBytes(src.message, offset, Specifier(SIMPLE, 27), wide);
      ScanGivenHeader(src, offset, token, depth, mayBreak);
  }

  lemma ScanEnclosed(src: Source, offset: nat, v: Value, depth: nat, mayBreak: bool)
    requires v.Array? || v.Map?
    requires src.Valid() && Encodable(v) && Within(v, depth, src.fast8) && Holds(src.message, offset, Encode(v))
    ensures ScanItem(src, offset, depth, mayBreak) == Item(offset + |Encode(v)|, TreeOf(v, offset))
    decreases v, 1
  {
    if v.open {
      ScanEnclosedOpen(src, offset, v, depth, mayBreak);
    } else {
      ScanEnclosedFixed(src, offset, v, depth, mayBreak);
    }
  }

  lemma ScanEnclosedOpen(src: Source, offset: nat, v: Value, depth: nat, mayBreak: bool)
    requires (v.Array? || v.Map?) && v.open
    requires src.Valid() && Encodable(v) && Within(v, depth, src.fast8) && Holds(src.message, offset, Encode(v))
    ensures ScanItem(src, offset, depth, mayBreak) == Item(offset + |Encode(v)|, TreeOf(v, offset))
    decreases v, 0
  {
    hide Header, Holds, ScanItem, ScanMany, ScanOpen, EncodeAll, InfoFor, Close, Specifier, Major, Info;
    var major, length := if v.Array? then ARRAY else MAP, if v.Array? then |v.items| else |v.items| / 2;
    var contents, unit := EncodeAll(v.items), if v.Array? then 1 else 2;
    var specifier := Specifier(major, 31);
    assert Encode(v) == [specifier] + (contents + [BREAK_CODE]);
    HoldsParts(src.message, offset, [specifier], contents + [BREAK_CODE]);
    HeaderOfOneByte(src.message, offset, specifier);
    ScanEncodedOpen(src, offset + 1, v.items, depth - 1, unit, 0);
    OpenGivenHeader(src, offset, Token(0, offset, 1, specifier), depth, v.items, unit);
    ScanGivenHeader(src, offset, Token(0, offset, 1, specifier), depth, mayBreak);
  }

  lemma ScanEnclosedFixed(src: Source, offset: nat, v: Value, depth: nat, mayBreak: bool)
    requires (v.Array? || v.Map?) && !v.open
    requires src.Valid() && Encodable(v) && Within(v, depth, src.fast8) && Holds(src.message, offset, Encode(v))
    ensures ScanItem(src, offset, depth, mayBreak) == Item(offset + |Encode(v)|, TreeOf(v, offset))
    decreases v, 0
  {
    hide Header, EncodeHeader, Holds, ScanItem, ScanMany, ScanOpen, EncodeAll, InfoFor, Close, Specifier, Major, Info;
    var major, length := if v.Array? then ARRAY else MAP, if v.Array? then |v.items| else |v.items| / 2;
    var unit := if v.Array? then 1 else 2;
    HoldsParts(src.message, offset, EncodeHeader(major, length), EncodeAll(v.items));
    var token := ScanHeader(src, offset, major, length, depth, mayBreak);
    ScanEncodedAll(src, DataOffset(token), v.items, depth - 1);
    FixedGivenHeader(src, offset, token, depth, v.items, unit);
    ScanGivenHeader(src, offset, token, depth, mayBreak);
  }

  lemma OpenGivenHeader(src: Source, offset: nat, token: Token, depth: nat, vs: seq<Value>, unit: nat)
    requires src.Valid() && depth > 0 && (unit == 1 || unit == 2) && unit == Unit(token) && (forall v :: v in vs ==> Encodable(v))
    requires token.baseOffset == offset && Info(token.typeSpecifier) == 31
    requires ScanOpen(src, offset + 1, depth - 1, unit, 0) == Items(offset + 1 + |EncodeAll(vs)| + 1, TreesOf(vs, offset + 1))
    ensures ScanOpenItems(src, token, depth)
         == Item(offset + 1 + |EncodeAll(vs)| + 1,
                 Close(token.(typeParam := Entries(|vs|, unit)), TreesOf(vs, DataOffset(token))))
  {
    hide ScanOpen, EncodeAll, TreesOf, Close;
  }

  lemma FixedGivenHeader(src: Source, offset: nat, token: Token, depth: nat, vs: seq<Value>, unit: nat)
    requires src.Valid() && depth > 0 && (unit == 1 || unit == 2) && unit == Unit(token) && (forall v :: v in vs ==> Encodable(v))
    requires |vs| == ItemCount(token.typeParam, unit) && token.typeParam < src.fast8 && token.typeParam <= MAX_ARRAY_SIZE
    requires ScanMany(src, DataOffset(token), depth - 1, |vs|)
          == Items(DataOffset(token) + |EncodeAll(vs)|, TreesOf(vs, DataOffset(token)))
    ensures ScanFixedItems(src, token, depth)
         == Item(DataOffset(token) + |EncodeAll(vs)|, Close(token, TreesOf(vs, DataOffset(token))))
  {
    hide ScanMany, EncodeAll, TreesOf, Close, DataOffset;
    RemainderIs(token.typeParam, src.fast8, 0, token.typeParam);
  }

  lemma ScanEncodedAll(src: Source, offset: nat, vs: seq<Value>, depth: nat)
    requires src.Valid() && (forall v :: v in vs ==> Encodable(v) && Within(v, depth, src.fast8))
    requires Holds(src.message, offset, EncodeAll(vs))
    ensures ScanMany(src, offset, depth, |vs|) == Items(offset + |EncodeAll(vs)|, TreesOf(vs, offset))
    decreases vs
  {
    hide ScanItem, ScanMany, Holds, Encode, TreeOf, Encodable, Within, EncodeAll, TreesOf;
    if vs == [] {
      NoneEncoded(offset);
      ManyEnds(src, offset, depth);
    } else {
      OneEncoded(vs, offset);
      HoldsParts(src.message, offset, Encode(vs[0]), EncodeAll(vs[1..]));
      ScanEncoded(src, offset, vs[0], depth, false);
      ManyGoesOn(src, offset, depth, |vs|);
      ScanEncodedAll(src, offset + |Encode(vs[0])|, vs[1..], depth);
    }
  }

  lemma ManyEnds(src: Source, offset: nat, depth: nat)
    requires src.Valid()
    ensures ScanMany(src, offset, depth, 0) == Items(offset, [])
  {
  }

  lemma ManyGoesOn(src: Source, offset: nat, depth: nat, n: nat)
    requires src.Valid() && n > 0 && ScanItem(src, offset, depth, false).Item?
    ensures var item := ScanItem(src, offset, depth, false);
            ScanMany(src, offset, depth, n) == ConsItem(item.tree, ScanMany(src, item.next, depth, n - 1))
  {
    hide ScanItem;
  }

  lemma ScanEncodedOpen(src: Source, offset: nat, vs: seq<Value>, depth: nat, unit: nat, seen: nat)
    requires src.Valid() && (forall v :: v in vs ==> Encodable(v) && Within(v, depth, src.fast8))
    requires Holds(src.message, offset, EncodeAll(vs) + [BREAK_CODE])
    requires (unit == 1 || unit == 2) && (unit == 2 ==> |vs| % 2 == 0) && Entries(|vs|, unit) + seen <= MAX_ARRAY_SIZE
    ensures ScanOpen(src, offset, depth, unit, seen) == Items(offset + |EncodeAll(vs)| + 1, TreesOf(vs, offset))
    decreases vs
  {
    hide ScanItem, ScanOpen, Holds, Encode, TreeOf, Encodable, Within, EncodeAll, TreesOf;
    if vs == [] {
      NoneEncoded(offset);
      ScanBreak(src, offset, depth);
      OpenEnds(src, offset, depth, unit, seen);
    } else {
      var n := |Encode(vs[0])|;
      OneEncoded(vs, offset);
      HoldsParts(src.message, offset, Encode(vs[0]), EncodeAll(vs[1..]) + [BREAK_CODE]);
      ScanEncoded(src, offset, vs[0], depth, true);
      if unit == 1 {
        OpenArrayGoesOn(src, offset, depth, seen);
        ScanEncodedOpen(src, offset + n, vs[1..], depth, unit, seen + 1);
      } else {
        ScanEncodedValue(src, offset, vs, depth, seen);
      }
    }
  }

  /** In a map, the value that follows a key. */
  lemma ScanEncodedValue(src: Source, offset: nat, vs: seq<Value>, depth: nat, seen: nat)
    requires src.Valid() && (forall v :: v in vs ==> Encodable(v) && Within(v, depth, src.fast8))
    requires |vs| > 0 && |vs| % 2 == 0 && |vs| / 2 + seen <= MAX_MAP_SIZE
    requires Holds(src.message, offset + |Encode(vs[0])|, EncodeAll(vs[1..]) + [BREAK_CODE])
    requires ScanItem(src, offset, depth, true) == Item(offset + |Encode(vs[0])|, TreeOf(vs[0], offset))
    ensures ScanOpen(src, offset, depth, 2, seen) == Items(offset + |EncodeAll(vs)| + 1, TreesOf(vs, offset))
    decreases vs, 0
  {
    hide ScanItem, ScanOpen, Holds, Encode, TreeOf, Encodable, Within, EncodeAll, TreesOf;
    var here, us := offset + |Encode(vs[0])|, vs[1..];
    OneEncoded(vs, offset);
    OneEncoded(us, here);
    HoldsParts(src.message, here, Encode(us[0]), EncodeAll(us[1..]) + [BREAK_CODE]);
    ScanEncoded(src, here, us[0], depth, false);
    OpenMapGoesOn(src, offset, depth, seen);
    ScanEncodedOpen(src, here + |Encode(us[0])|, us[1..], depth, 2, seen + 1);
  }

  lemma NoneEncoded(offset: nat)
    ensures EncodeAll([]) == [] && TreesOf([], offset) == [] && EncodeAll([]) + [BREAK_CODE] == [BREAK_CODE]
  {
  }

  lemma OneEncoded(vs: seq<Value>, offset: nat)
    requires vs != [] && forall v :: v in vs ==> Encodable(v)
    ensures vs[0] in vs && forall v :: v in vs[1..] ==> v in vs
    ensures EncodeAll(vs) == Encode(vs[0]) + EncodeAll(vs[1..])
    ensures EncodeAll(vs) + [BREAK_CODE] == Encode(vs[0]) + (EncodeAll(vs[1..]) + [BREAK_CODE])
    ensures TreesOf(vs, offset) == [TreeOf(vs[0], offset)] + TreesOf(vs[1..], offset + |Encode(vs[0])|)
  {
    hide Encode, TreeOf, Encodable;
  }

  // ---- the search for the end of an indefinite length array or map, one step at a time

  lemma OpenEnds(src: Source, offset: nat, depth: nat, unit: nat, seen: nat)
    requires src.Valid() && (unit == 1 || unit == 2) && seen <= MAX_ARRAY_SIZE
    requires ScanItem(src, offset, depth, true).Break?
    ensures ScanOpen(src, offset, depth, unit, seen) == Items(ScanItem(src, offset, depth, true).next, [])
  {
    hide ScanItem;
  }

  lemma OpenArrayGoesOn(src: Source, offset: nat, depth: nat, seen: nat)
    requires src.Valid() && seen < MAX_ARRAY_SIZE && ScanItem(src, offset, depth, true).Item?
    ensures var item := ScanItem(src, offset, depth, true);
            ScanOpen(src, offset, depth, 1, seen) == ConsItem(item.tree, ScanOpen(src, item.next, depth, 1, seen + 1))
  {
    hide ScanItem;
  }

  lemma OpenMapGoesOn(src: Source, offset: nat, depth: nat, seen: nat)
    requires src.Valid() && seen < MAX_MAP_SIZE && ScanItem(src, offset, depth, true).Item?
    requires ScanItem(src, ScanItem(src, offset, depth, true).next, depth, false).Item?
    ensures ScanOpen(src, offset, depth, 2, seen)
         == ConsItem(ScanItem(src, offset, depth, true).tree,
                     ConsItem(ScanItem(src, ScanItem(src, offset, depth, true).next, depth, false).tree,
                              ScanOpen(src, ScanItem(src, ScanItem(src, offset, depth, true).next, depth, false).next,
                                       depth, 2, seen + 1)))
  {
    hide ScanItem;
  }

  lemma ScanBreak(src: Source, offset: nat, depth: nat)
    requires src.Valid() && Holds(src.message, offset, [BREAK_CODE])
    ensures ScanItem(src, offset, depth, true) == Break(offset + 1)
  {
    HeaderOfOneByte(src.message, offset, BREAK_CODE);
  }
}
