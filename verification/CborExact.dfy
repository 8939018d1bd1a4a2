/** Which values survive a scan, exactly, and that the tokens found determine the value. */
module CborExact {
  import opened Words
  import opened CborFormat
  import opened CborTree
  import opened CborRoundTrip

  /** What holds of every scanned tree: each token stands for a header in the message that is no break code; each
      count covers its subtree, the nesting is limited, and each array and map has the number of children that the
      scanner's loop counter allowed; and each string has a definite length, and its end, as the scanner's offsets
      wrap, is within the message. */
  predicate Sound(t: Tree, depth: nat, src: Source)
    requires src.Valid()
    decreases t
  {
    var major, info := Major(t.token.typeSpecifier), Info(t.token.typeSpecifier);
    && t.token.tokenCount == |Preorder(t)| && Stands(t.token, src.message)
    && if major == ARRAY || major == MAP then
         var length := if info == 31 then t.token.typeParam else t.token.typeParam % src.fast8;
         && depth > 0 && t.token.typeParam <= MAX_ARRAY_SIZE
         && |t.children| == ItemCount(length, Unit(t.token))
         && forall c :: c in t.children ==> Sound(c, depth - 1, src)
       else if major == TAG then
         depth > 0 && |t.children| == 1 && Sound(t.children[0], depth - 1, src)
       else t.children == [] && (major == STR_BYTE || major == STR_TEXT ==> info != 31 && EndsWithin(t.token, src))
  }

  predicate Stands(token: Token, message: seq<byte>) {
    && token.typeSpecifier != BREAK_CODE
    && DataOffset(token) <= |message| && message[token.baseOffset] == token.typeSpecifier
  }

  predicate EndsWithin(token: Token, src: Source)
    requires src.Valid()
  {
    0 < (DataOffset(token) + token.typeParam) % src.fast16 <= |src.message|
  }

  /** A scanned string lies inside the message if and only if adding up its end did not wrap. */
  lemma ScannedString(t: Tree, depth: nat, src: Source)
    requires src.Valid() && Sound(t, depth, src) && Major(t.token.typeSpecifier) in {STR_BYTE, STR_TEXT}
    ensures var end := DataOffset(t.token) + t.token.typeParam; end <= |src.message| <==> end < src.fast16
  {
    var end := DataOffset(t.token) + t.token.typeParam;
    if end < src.fast16 {
      RemainderIs(end, src.fast16, 0, end);
    }
  }

  /** It can wrap: here the string that a message announces reaches far beyond it, but seems to end at its last byte. */
  lemma StringBeyondMessage(fast8: nat, fast16: Param)
    requires fast8 >= 0x100 && fast16 >= 0x1_0000
    ensures var message := EncodeHeader(STR_TEXT, fast16 - 1);
            && |message| >= 3 && |message| + (fast16 - 1) > |message|
            && ScanItem(Source(message, fast8, fast16), 0, 0, false)
            == Item(|message| - 1, Tree(Token(fast16 - 1, 0, 1, Specifier(STR_TEXT, InfoFor(fast16 - 1))), []))
  {
    hide Header;
    var message := EncodeHeader(STR_TEXT, fast16 - 1);
    assert Holds(message, 0, message);
    HeaderRoundTrip(message, 0, STR_TEXT, fast16 - 1);
    RemainderIs(|message| + (fast16 - 1), fast16, 1, |message| - 1);
  }

  lemma ScannedIsSound(src: Source, offset: nat, depth: nat, mayBreak: bool)
    requires src.Valid()
    ensures var r := ScanItem(src, offset, depth, mayBreak); r.Item? ==> Sound(r.tree, depth, src)
    decreases depth, 0, 0
  {
    hide Header, ScanMany, ScanOpen, PreorderAll, Stands;
    var header := Header(src.message, offset);
    if header.Some? {
      var token := header.value;
      var major, info := Major(token.typeSpecifier), Info(token.typeSpecifier);
      LeafSize(token);
      HeaderStands(src.message, offset);
      if depth > 0 {
        if (major == ARRAY || major == MAP) && info == 31 {
          ScannedOpenIsSound(src, DataOffset(token), depth - 1, Unit(token), 0);
        } else if major == ARRAY || major == MAP {
          ScannedManyIsSound(src, DataOffset(token), depth - 1, ItemCount(token.typeParam % src.fast8, Unit(token)));
        } else if major == TAG {
          ScannedIsSound(src, DataOffset(token), depth - 1, false);
        }
      }
    }
  }

  lemma HeaderStands(message: seq<byte>, offset: nat)
    requires Header(message, offset).Some?
    ensures var header := Header(message, offset).value;
            header.typeSpecifier != BREAK_CODE ==>
              forall token: Token :: token.baseOffset == offset && token.typeSpecifier == header.typeSpecifier ==>
                                       Stands(token, message)
  {
  }

  lemma LeafSize(token: Token)
    ensures |Preorder(Tree(token, []))| == 1
  {
  }

  lemma ScannedManyIsSound(src: Source, offset: nat, depth: nat, n: nat)
    requires src.Valid()
    ensures var r := ScanMany(src, offset, depth, n); r.Items? ==> forall t :: t in r.trees ==> Sound(t, depth, src)
    decreases depth, 1, n
  {
    hide ScanItem, Sound;
    if n > 0 {
      ScannedIsSound(src, offset, depth, false);
      var item := ScanItem(src, offset, depth, false);
      if item.Item? {
        ScannedManyIsSound(src, item.next, depth, n - 1);
      }
    }
  }

  lemma ScannedOpenIsSound(src: Source, offset: nat, depth: nat, unit: nat, seen: nat)
    requires src.Valid() && (unit == 1 || unit == 2) && seen <= MAX_ARRAY_SIZE
    ensures var r := ScanOpen(src, offset, depth, unit, seen);
            r.Items? ==> forall t :: t in r.trees ==> Sound(t, depth, src)
    decreases depth, 2, MAX_ARRAY_SIZE - seen
  {
    hide ScanItem, Sound;
    ScannedIsSound(src, offset, depth, true);
    var item := ScanItem(src, offset, depth, true);
    if item.Item? && seen < MAX_ARRAY_SIZE {
      if unit == 1 {
        ScannedOpenIsSound(src, item.next, depth, unit, seen + 1);
      } else {
        ScannedIsSound(src, item.next, depth, false);
        var value := ScanItem(src, item.next, depth, false);
        if value.Item? {
          ScannedOpenIsSound(src, value.next, depth, unit, seen + 1);
        }
      }
    }
  }

  /** A value whose tokens could have been scanned is within the scanner's limits. */
  lemma SoundIsWithin(v: Value, offset: nat, depth: nat, src: Source)
    requires src.Valid() && Encodable(v) && Sound(TreeOf(v, offset), depth, src)
    ensures Within(v, depth, src.fast8)
    decreases v
  {
    hide Sound, TreeOf, TreesOf, Preorder;
    if v.Array? || v.Map? {
      SoundEnclosed(v, offset, depth, src);
      SoundAreWithin(v.items, DataOffset(TreeOf(v, offset).token), depth - 1, src);
    } else if v.Tag? {
      SoundTag(v, offset, depth, src);
      SoundIsWithin(v.item, DataOffset(TreeOf(v, offset).token), depth - 1, src);
    }
  }

  lemma SoundEnclosed(v: Value, offset: nat, depth: nat, src: Source)
    requires src.Valid() && (v.Array? || v.Map?) && Encodable(v) && Sound(TreeOf(v, offset), depth, src)
    ensures var n := if v.Array? then |v.items| else |v.items| / 2;
            depth > 0 && n <= MAX_ARRAY_SIZE && (!v.open ==> n < src.fast8)
    ensures forall t :: t in TreesOf(v.items, DataOffset(TreeOf(v, offset).token)) ==> Sound(t, depth - 1, src)
  {
    hide Preorder, PreorderAll, TreesOf, InfoFor, Stands, EndsWithin;
  }

  lemma SoundTag(v: Value, offset: nat, depth: nat, src: Source)
    requires src.Valid() && v.Tag? && Encodable(v) && Sound(TreeOf(v, offset), depth, src)
    ensures depth > 0 && Sound(TreeOf(v.item, DataOffset(TreeOf(v, offset).token)), depth - 1, src)
  {
    hide Sound, TreeOf;
    TagTree(v, offset);
    SoundContent(TreeOf(v, offset), depth, src);
  }

  lemma TagTree(v: Value, offset: nat)
    requires v.Tag? && Encodable(v)
    ensures var t := TreeOf(v, offset);
            Major(t.token.typeSpecifier) == TAG && t.children == [TreeOf(v.item, DataOffset(t.token))]
  {
    hide Preorder, PreorderAll, TreesOf, InfoFor;
  }

  lemma SoundContent(t: Tree, depth: nat, src: Source)
    requires src.Valid() && Sound(t, depth, src) && Major(t.token.typeSpecifier) == TAG
    ensures depth > 0 && |t.children| == 1 && Sound(t.children[0], depth - 1, src)
  {
    hide Preorder, Stands, EndsWithin;
  }

  lemma SoundAreWithin(vs: seq<Value>, offset: nat, depth: nat, src: Source)
    requires src.Valid() && (forall v :: v in vs ==> Encodable(v))
    requires forall t :: t in TreesOf(vs, offset) ==> Sound(t, depth, src)
    ensures forall v :: v in vs ==> Within(v, depth, src.fast8)
    decreases vs
  {
    hide Sound, Within, Encodable, TreeOf, Encode;
    if vs != [] {
      var ts := TreesOf(vs, offset);
      assert ts[0] == TreeOf(vs[0], offset) && ts[1..] == TreesOf(vs[1..], offset + |Encode(vs[0])|);
      assert ts[0] in ts && forall t :: t in ts[1..] ==> t in ts;
      SoundIsWithin(vs[0], offset, depth, src);
      SoundAreWithin(vs[1..], offset + |Encode(vs[0])|, depth, src);
      assert forall v :: v in vs ==> v == vs[0] || v in vs[1..];
    }
  }

  /** The scanner finds the tokens of an encoded value exactly when the value is within its limits. */
  lemma ScansExactly(v: Value, depth: nat, fast8: nat, fast16: nat)
    requires Encodable(v) && Source(Encode(v), fast8, fast16).Valid()
    ensures ScanItem(Source(Encode(v), fast8, fast16), 0, depth, false) == Item(|Encode(v)|, TreeOf(v, 0))
       <==> Within(v, depth, fast8)
  {
    hide ScanItem, Encode, TreeOf, Within, Sound;
    var src := Source(Encode(v), fast8, fast16);
    if Within(v, depth, fast8) {
      assert Holds(src.message, 0, Encode(v));
      ScanEncoded(src, 0, v, depth, false);
    }
    ScannedIsSound(src, 0, depth, false);
    if Sound(TreeOf(v, 0), depth, src) {
      SoundIsWithin(v, 0, depth, src);
    }
  }

  /** With an 8-bit uint_fast8_t an array of 256 entries is scanned as an empty one. */
  lemma ArrayOf256(zeros: seq<Value>, fast16: nat)
    requires |zeros| == 256 && (forall z :: z in zeros ==> z == Uint(0))
    requires Source(Encode(Array(zeros, false)), 0x100, fast16).Valid()
    ensures ScanItem(Source(Encode(Array(zeros, false)), 0x100, fast16), 0, 1, false)
         == Item(3, Tree(Token(256, 0, 1, Specifier(ARRAY, 25)), []))
  {
    hide EncodeAll, Header;
    var v := Array(zeros, false);
    var src := Source(Encode(v), 0x100, fast16);
    assert Holds(src.message, 0, Encode(v));
    HoldsParts(src.message, 0, EncodeHeader(ARRAY, 256), EncodeAll(zeros));
    HeaderRoundTrip(src.message, 0, ARRAY, 256);
    ManyEnds(src, 3, 0);
  }

  /** What the tokens of a tree say, with the message for the contents of strings. */
  predicate Denotes(t: Tree, message: seq<byte>, v: Value)
    decreases v
  {
    var major, info, param := Major(t.token.typeSpecifier), Info(t.token.typeSpecifier), t.token.typeParam;
    match v
    case Uint(n) => major == INT_POS && param == n
    case Nint(n) => major == INT_NEG && param == n
    case Bytes(b) => major == STR_BYTE && info != 31 && param == |b| && (b == [] || Holds(message, DataOffset(t.token), b))
    case Text(b) => major == STR_TEXT && info != 31 && param == |b| && (b == [] || Holds(message, DataOffset(t.token), b))
    case Array(items, open) => major == ARRAY && open == (info == 31) && DenoteAll(t.children, message, items)
    case Map(items, open) => major == MAP && open == (info == 31) && DenoteAll(t.children, message, items)
    case Tag(number, item) => major == TAG && param == number && |t.children| == 1 && Denotes(t.children[0], message, item)
    case Simple(code) => major == SIMPLE && info == code && code < 24
    case Float32(bits) => major == SIMPLE && info == 26 && param == bits
    case Float64(wide) => major == SIMPLE && info == 27 && param == wide
  }

  predicate DenoteAll(ts: seq<Tree>, message: seq<byte>, vs: seq<Value>)
    decreases vs
  {
    |ts| == |vs| && (vs == [] || (Denotes(ts[0], message, vs[0]) && DenoteAll(ts[1..], message, vs[1..])))
  }

  /** A tree of tokens stands for at most one value. */
  lemma DenotesOne(t: Tree, message: seq<byte>, v: Value, w: Value)
    requires Denotes(t, message, v) && Denotes(t, message, w)
    ensures v == w
    decreases v
  {
    match v
    case Array(items, _) => DenoteAllOne(t.children, message, items, w.items);
    case Map(items, _) => DenoteAllOne(t.children, message, items, w.items);
    case Tag(_, item) => DenotesOne(t.children[0], message, item, w.item);
    case _ =>
  }

  lemma DenoteAllOne(ts: seq<Tree>, message: seq<byte>, vs: seq<Value>, ws: seq<Value>)
    requires DenoteAll(ts, message, vs) && DenoteAll(ts, message, ws)
    ensures vs == ws
    decreases vs
  {
    hide Denotes;
    if vs != [] {
      DenotesOne(ts[0], message, vs[0], ws[0]);
      DenoteAllOne(ts[1..], message, vs[1..], ws[1..]);
      assert vs == [vs[0]] + vs[1..] && ws == [ws[0]] + ws[1..];
    }
  }

  /** The tokens of an encoded value stand for it. */
  lemma TreeOfDenotes(v: Value, offset: nat, message: seq<byte>)
    requires Encodable(v) && Holds(message, offset, Encode(v))
    ensures Denotes(TreeOf(v, offset), message, v)
    decreases v
  {
    hide TreesOf, EncodeAll, EncodeHeader, Be, Holds, DenoteAll, PreorderAll, InfoFor, Header;
    match v
    case Bytes(b) => StringDenotes(message, offset, STR_BYTE, b);
    case Text(b) => StringDenotes(message, offset, STR_TEXT, b);
    case Array(items, open) => EnclosedDenotes(v, offset, message);
    case Map(items, open) => EnclosedDenotes(v, offset, message);
    case Tag(number, item) =>
      TagHolds(message, offset, number, Encode(item));
      TreeOfDenotes(item, offset + |EncodeHeader(TAG, number)|, message);
    case _ =>
  }

  lemma TagHolds(message: seq<byte>, offset: nat, number: Param, content: seq<byte>)
    requires Holds(message, offset, EncodeHeader(TAG, number) + content)
    ensures Holds(message, offset + |EncodeHeader(TAG, number)|, content)
    ensures DataOffset(Leaf(TAG, number, offset).token) == offset + |EncodeHeader(TAG, number)|
  {
    hide Holds;
    HoldsParts(message, offset, EncodeHeader(TAG, number), content);
    HeaderRoundTrip(message, offset, TAG, number);
  }

  lemma StringDenotes(message: seq<byte>, offset: nat, major: nat, b: seq<byte>)
    requires major < 8 && |b| <= MAX_STRING_SIZE && Holds(message, offset, EncodeHeader(major, |b|) + b)
    ensures Holds(message, DataOffset(Leaf(major, |b|, offset).token), b)
  {
    hide Holds;
    HoldsParts(message, offset, EncodeHeader(major, |b|), b);
    HeaderRoundTrip(message, offset, major, |b|);
  }

  lemma EnclosedDenotes(v: Value, offset: nat, message: seq<byte>)
    requires (v.Array? || v.Map?) && Encodable(v) && Holds(message, offset, Encode(v))
    ensures DenoteAll(TreesOf(v.items, DataOffset(TreeOf(v, offset).token)), message, v.items)
    decreases v, 0
  {
    hide TreesOf, EncodeAll, Holds, DenoteAll, PreorderAll, InfoFor;
    var major, length := if v.Array? then ARRAY else MAP, if v.Array? then |v.items| else |v.items| / 2;
    var contents := EncodeAll(v.items);
    if v.open {
      assert Encode(v) == [Specifier(major, 31)] + (contents + [BREAK_CODE]);
      HoldsParts(message, offset, [Specifier(major, 31)], contents + [BREAK_CODE]);
      HoldsParts(message, offset + 1, contents, [BREAK_CODE]);
      TreesDenote(v.items, offset + 1, message);
    } else {
      HoldsParts(message, offset, EncodeHeader(major, length), contents);
      HeaderRoundTrip(message, offset, major, length);
      TreesDenote(v.items, offset + |EncodeHeader(major, length)|, message);
    }
  }

  lemma TreesDenote(vs: seq<Value>, offset: nat, message: seq<byte>)
    requires (forall v :: v in vs ==> Encodable(v)) && Holds(message, offset, EncodeAll(vs))
    ensures DenoteAll(TreesOf(vs, offset), message, vs)
    decreases vs
  {
    hide Encode, TreeOf, Holds, Denotes, Encodable;
    if vs != [] {
      OneEncoded(vs, offset);
      HoldsParts(message, offset, Encode(vs[0]), EncodeAll(vs[1..]));
      TreeOfDenotes(vs[0], offset, message);
      TreesDenote(vs[1..], offset + |Encode(vs[0])|, message);
      assert TreesOf(vs, offset)[1..] == TreesOf(vs[1..], offset + |Encode(vs[0])|);
    }
  }

  /** Scanning an encoding gives back the value that was encoded, and no other. */
  lemma RoundTrip(v: Value, w: Value, depth: nat, fast8: nat, fast16: nat)
    requires Encodable(v) && Within(v, depth, fast8) && Source(Encode(v), fast8, fast16).Valid()
    ensures var r := ScanItem(Source(Encode(v), fast8, fast16), 0, depth, false);
            r.Item? && r.next == |Encode(v)| && (Denotes(r.tree, Encode(v), w) <==> w == v)
  {
    hide ScanItem, Encode, TreeOf, Within, Denotes;
    ScansExactly(v, depth, fast8, fast16);
    assert Holds(Encode(v), 0, Encode(v));
    TreeOfDenotes(v, 0, Encode(v));
    if Denotes(TreeOf(v, 0), Encode(v), w) {
      DenotesOne(TreeOf(v, 0), Encode(v), v, w);
    }
  }
}
