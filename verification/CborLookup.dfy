/** Reading integers, strings, arrays and maps back from a token buffer. */
module CborLookup {
  import opened Words
  import opened CborFormat
  import opened CborTree
  import opened CborParser
  import opened CborRoundTrip
  import opened CborExact

  /** The tokens of a tree stand at an index of a token buffer. */
  ghost predicate Placed(tokens: seq<Token>, index: nat, t: Tree) {
    index + |Preorder(t)| <= |tokens| && tokens[index..index + |Preorder(t)|] == Preorder(t)
  }

  /** An array or map with all the children it announces, each counted right. */
  ghost predicate Whole(t: Tree) {
    var major := Major(t.token.typeSpecifier);
    && (major == ARRAY || major == MAP ==>
          t.token.typeParam <= MAX_ARRAY_SIZE && |t.children| == ItemCount(t.token.typeParam, Unit(t.token)))
    && forall c :: c in t.children ==> c.token.tokenCount == |Preorder(c)|
  }

  /** Every scanned array and map is whole, unless the loop counter was too narrow for its length. */
  lemma SoundIsWhole(t: Tree, depth: nat, src: Source)
    requires src.Valid() && Sound(t, depth, src)
    requires t.token.typeParam < src.fast8 || Info(t.token.typeSpecifier) == 31
    ensures Whole(t) && forall c :: c in t.children ==> depth > 0 && Sound(c, depth - 1, src)
    ensures Placed(Preorder(t), 0, t)
  {
    hide Preorder;
    if t.token.typeParam < src.fast8 {
      RemainderIs(t.token.typeParam, src.fast8, 0, t.token.typeParam);
    }
  }

  /** Where a child stands, for a tree at an index. */
  ghost function ChildIndex(t: Tree, index: nat, k: nat): (i: nat)
    requires k <= |t.children|
  {
    index + 1 + |PreorderAll(t.children[..k])|
  }

  lemma ChildPlaced(tokens: seq<Token>, index: nat, t: Tree, k: nat)
    requires Placed(tokens, index, t) && k < |t.children|
    ensures Placed(tokens, ChildIndex(t, index, k), t.children[k])
    ensures ChildIndex(t, index, k + 1) == ChildIndex(t, index, k) + |Preorder(t.children[k])|
    ensures ChildIndex(t, index, k) < |tokens| && tokens[ChildIndex(t, index, k)] == t.children[k].token
  {
    hide PreorderAll;
    var before, c, after := t.children[..k], t.children[k], t.children[k + 1..];
    assert t.children[..k + 1] == before + [c] && t.children == (before + [c]) + after;
    PreorderWithLast(before, c);
    PreorderOfConcat(before + [c], after);
    var all, here := Preorder(t), ChildIndex(t, index, k);
    assert all == [t.token] + (PreorderAll(before) + Preorder(c) + PreorderAll(after));
    assert all[1 + |PreorderAll(before)|..][..|Preorder(c)|] == Preorder(c);
    assert tokens[index..index + |all|][1 + |PreorderAll(before)|..][..|Preorder(c)|]
        == tokens[here..here + |Preorder(c)|];
    assert tokens[here] == tokens[here..here + |Preorder(c)|][0];
  }

  lemma FirstPlaced(tokens: seq<Token>, index: nat, t: Tree)
    requires Placed(tokens, index, t)
    ensures index < |tokens| && tokens[index] == t.token
    ensures ChildIndex(t, index, 0) == index + 1
  {
    assert tokens[index] == tokens[index..index + |Preorder(t)|][0];
  }

  method ReadToken(p: Parser, tokenIndex: nat) returns (token: Option<Token>)
    ensures token == if tokenIndex < |p.tokenBuffer| then Some(p.tokenBuffer[tokenIndex]) else None
  {
    token := if tokenIndex < |p.tokenBuffer| then Some(p.tokenBuffer[tokenIndex]) else None;
  }

  /** The token at an index stands, by itself, for a value. */
  ghost predicate StandsFor(p: Parser, tokenIndex: nat, v: Value)
    reads p
  {
    tokenIndex < |p.tokenBuffer| && Denotes(Tree(p.tokenBuffer[tokenIndex], []), p.messageBuffer, v)
  }

  /** For no other than one. */
  lemma StandsForOne(p: Parser, tokenIndex: nat, v: Value, w: Value)
    requires StandsFor(p, tokenIndex, v) && StandsFor(p, tokenIndex, w)
    ensures v == w
  {
    DenotesOne(Tree(p.tokenBuffer[tokenIndex], []), p.messageBuffer, v, w);
  }

  // ---- integers

  const TWO_31: int := 0x8000_0000
  const TWO_32: nat := 0x1_0000_0000
  const TWO_63: int := 0x8000_0000_0000_0000
  const TWO_64: nat := 0x1_0000_0000_0000_0000

  /** What a width of low order bits means as a signed number when all bits of the word are inverted. */
  function Inverted(param: nat, modulus: nat): (n: int)
    requires param < TWO_64 && (modulus == TWO_32 || modulus == TWO_64)
  {
    var bits := (TWO_64 - 1 - param) % modulus;
    if bits >= modulus / 2 then bits - modulus else bits
  }

  method DecodeUint32(p: Parser, tokenIndex: nat) returns (ok: bool, value: int)
    ensures ok ==> 0 <= value < TWO_32 && StandsFor(p, tokenIndex, Uint(value))
    ensures !ok ==> forall n: Param :: n < TWO_32 ==> !StandsFor(p, tokenIndex, Uint(n))
  {
    var token := ReadToken(p, tokenIndex);
    ok, value := false, 0;
    if token.Some? && Major(token.value.typeSpecifier) == INT_POS && token.value.typeParam <= 0xFFFF_FFFF {
      ok, value := true, token.value.typeParam % TWO_32;
    }
  }

  method DecodeInt32(p: Parser, tokenIndex: nat) returns (ok: bool, value: int)
    ensures ok ==> -TWO_31 <= value < TWO_31 && StandsFor(p, tokenIndex, Integer(value))
    ensures !ok ==> forall n :: -TWO_31 <= n < TWO_31 ==> !StandsFor(p, tokenIndex, Integer(n))
  {
    var token := ReadToken(p, tokenIndex);
    ok, value := false, 0;
    if token.Some? {
      if Major(token.value.typeSpecifier) == INT_POS && token.value.typeParam <= 0x7FFF_FFFF {
        ok, value := true, token.value.typeParam;
      } else if Major(token.value.typeSpecifier) == INT_NEG && token.value.typeParam <= 0x7FFF_FFFF {
        ok, value := true, Inverted(token.value.typeParam, TWO_32);
      }
    }
  }

  method DecodeUint64(p: Parser, tokenIndex: nat) returns (ok: bool, value: int)
    ensures ok ==> 0 <= value < TWO_64 && StandsFor(p, tokenIndex, Uint(value))
    ensures !ok ==> forall n: Param :: !StandsFor(p, tokenIndex, Uint(n))
  {
    var token := ReadToken(p, tokenIndex);
    ok, value := false, 0;
    if token.Some? && Major(token.value.typeSpecifier) == INT_POS && token.value.typeParam <= 0xFFFF_FFFF_FFFF_FFFF {
      ok, value := true, token.value.typeParam;
    }
  }

  method DecodeInt64(p: Parser, tokenIndex: nat) returns (ok: bool, value: int)
    ensures ok ==> -TWO_63 <= value < TWO_63 && StandsFor(p, tokenIndex, Integer(value))
    ensures !ok ==> forall n :: -TWO_63 <= n < TWO_63 ==> !StandsFor(p, tokenIndex, Integer(n))
  {
    var token := ReadToken(p, tokenIndex);
    ok, value := false, 0;
    if token.Some? {
      if Major(token.value.typeSpecifier) == INT_POS && token.value.typeParam <= 0x7FFF_FFFF_FFFF_FFFF {
        ok, value := true, token.value.typeParam;
      } else if Major(token.value.typeSpecifier) == INT_NEG && token.value.typeParam <= 0x7FFF_FFFF_FFFF_FFFF {
        ok, value := true, Inverted(token.value.typeParam, TWO_64);
      }
    }
  }

  // ---- strings

  /** Compares a text string with the one that a token stands for, a block at a time. */
  method MatchTextString(p: Parser, tokenIndex: nat, text: seq<byte>) returns (matchOk: bool)
    ensures matchOk <==> |text| <= MAX_STRING_SIZE && StandsFor(p, tokenIndex, Text(text))
  {
    matchOk := false;
    var length := |text|;
    var token := ReadToken(p, tokenIndex);
    if length <= MAX_STRING_SIZE && token.Some? {
      matchOk := Major(token.value.typeSpecifier) == STR_TEXT && Info(token.value.typeSpecifier) != 31
                 && token.value.typeParam == length;
    }
    if !matchOk {
      return;
    }
    var start := DataOffset(token.value);
    var matchOffset := 0;
    while matchOk && matchOffset < length
      invariant 0 <= matchOffset <= length
      invariant matchOk ==> matchOffset == 0 || Holds(p.messageBuffer, start, text[..matchOffset])
      invariant !matchOk ==> text != [] && !Holds(p.messageBuffer, start, text)
      decreases length - matchOffset
    {
      var blockSize := if length - matchOffset < 16 then length - matchOffset else 16;
      var block := text[matchOffset..matchOffset + blockSize];
      matchOk := MatchBlock(p, start + matchOffset, block);
      BlockExtends(p.messageBuffer, start, text, matchOffset, blockSize);
      matchOffset := matchOffset + blockSize;
    }
    assert text[..length] == text;
  }

  method MatchBlock(p: Parser, offset: nat, block: seq<byte>) returns (matchOk: bool)
    ensures matchOk == Holds(p.messageBuffer, offset, block)
  {
    var readOk, blockData := p.Read(offset, |block|);
    if !readOk {
      return false;
    }
    matchOk := true;
    for i := 0 to |block|
      invariant matchOk <==> forall k :: 0 <= k < i ==> blockData[k] == block[k]
    {
      if blockData[i] != block[i] {
        matchOk := false;
      }
    }
  }

  lemma BlockExtends(message: seq<byte>, start: nat, text: seq<byte>, done: nat, n: nat)
    requires done + n <= |text| && (done == 0 || Holds(message, start, text[..done]))
    ensures Holds(message, start + done, text[done..done + n]) ==> Holds(message, start, text[..done + n])
    ensures Holds(message, start, text) ==> Holds(message, start + done, text[done..done + n])
  {
    if Holds(message, start + done, text[done..done + n]) {
      var a, b := message[start..start + done], message[start + done..start + done + n];
      assert text[..done + n] == text[..done] + text[done..done + n];
      assert message[start..start + done + n] == a + b;
    }
    if Holds(message, start, text) {
      PartOfSlice(message, start, |text|, done, n);
    }
  }

  // ---- arrays and maps

  method DecodeTokenCount(p: Parser, tokenIndex: nat) returns (ok: bool, tokenCount: nat)
    ensures ok == (tokenIndex < |p.tokenBuffer|) && (ok ==> tokenCount == p.tokenBuffer[tokenIndex].tokenCount)
  {
    var token := ReadToken(p, tokenIndex);
    ok, tokenCount := token.Some?, if token.Some? then token.value.tokenCount else 0;
  }

  /** The length of an array or map. */
  method DecodeLength(p: Parser, tokenIndex: nat, major: nat) returns (ok: bool, length: nat)
    requires major == ARRAY || major == MAP
    ensures ok <==> tokenIndex < |p.tokenBuffer| && Major(p.tokenBuffer[tokenIndex].typeSpecifier) == major
                    && p.tokenBuffer[tokenIndex].typeParam <= MAX_ARRAY_SIZE
    ensures ok ==> length == p.tokenBuffer[tokenIndex].typeParam
  {
    var token := ReadToken(p, tokenIndex);
    ok, length := false, 0;
    if token.Some? && Major(token.value.typeSpecifier) == major
       && token.value.typeParam <= (if major == ARRAY then MAX_ARRAY_SIZE else MAX_MAP_SIZE) {
      ok, length := true, token.value.typeParam;
    }
  }

  /** Finds an array entry by its index. */
  method LookupArrayEntry(p: Parser, tokenIndex: nat, arrayIndex: nat, ghost t: Tree) returns (ok: bool, valueIndex: nat)
    requires Placed(p.tokenBuffer, tokenIndex, t) && Whole(t)
    ensures ok <==> Major(t.token.typeSpecifier) == ARRAY && arrayIndex < |t.children|
    ensures ok ==> Placed(p.tokenBuffer, valueIndex, t.children[arrayIndex])
                   && valueIndex == ChildIndex(t, tokenIndex, arrayIndex)
  {
    hide Preorder, PreorderAll, ChildIndex, Placed;
    FirstPlaced(p.tokenBuffer, tokenIndex, t);
    valueIndex := 0;
    var arrayLength;
    ok, arrayLength := DecodeLength(p, tokenIndex, ARRAY);
    if !ok || arrayIndex >= arrayLength {
      return false, 0;
    }
    valueIndex := tokenIndex + 1;
    for i := 0 to arrayIndex
      invariant ok && valueIndex == ChildIndex(t, tokenIndex, i)
    {
      ChildPlaced(p.tokenBuffer, tokenIndex, t, i);
      assert t.children[i] in t.children;
      var tokenCount;
      ok, tokenCount := DecodeTokenCount(p, valueIndex);
      valueIndex := valueIndex + tokenCount;
    }
    ChildPlaced(p.tokenBuffer, tokenIndex, t, arrayIndex);
  }

  /** A map whose keys are single tokens. */
  ghost predicate SingleTokenKeys(t: Tree) {
    forall j :: 0 <= j < |t.children| && j % 2 == 0 ==> |Preorder(t.children[j])| == 1
  }

  /** The entries before n have other keys. */
  ghost predicate NoKey(t: Tree, message: seq<byte>, key: Value, n: nat)
    requires |t.children| >= 2 * n
  {
    forall j :: 0 <= j < n ==> !Denotes(t.children[2 * j], message, key)
  }

  /** The result of a lookup in a map: the place of the value of the first entry with the key, or nothing if there
      is none. */
  ghost predicate Finds(p: Parser, tokenIndex: nat, t: Tree, key: Value, ok: bool, valueIndex: nat)
    reads p
  {
    if Major(t.token.typeSpecifier) != MAP || |t.children| % 2 != 0 then !ok
    else if !ok then NoKey(t, p.messageBuffer, key, |t.children| / 2)
    else exists k ::
           && 0 <= k < |t.children| / 2 && NoKey(t, p.messageBuffer, key, k)
           && Denotes(t.children[2 * k], p.messageBuffer, key)
           && valueIndex == ChildIndex(t, tokenIndex, 2 * k + 1)
           && Placed(p.tokenBuffer, valueIndex, t.children[2 * k + 1])
  }

  /** For a map of certain items: the first of the keys that is the one looked for, and its value. */
  lemma FindsInMap(p: Parser, tokenIndex: nat, t: Tree, items: seq<Value>, open: bool, key: Value, ok: bool, valueIndex: nat)
    requires Whole(t) && Denotes(t, p.messageBuffer, Map(items, open)) && Finds(p, tokenIndex, t, key, ok, valueIndex)
    ensures |t.children| == |items|
    ensures ok <==> exists j: nat :: 2 * j + 1 < |items| && items[2 * j] == key
    ensures ok ==> exists k: nat ::
                     && 2 * k + 1 < |items| && items[2 * k] == key && (forall j: nat :: j < k ==> items[2 * j] != key)
                     && Denotes(t.children[2 * k + 1], p.messageBuffer, items[2 * k + 1])
                     && valueIndex == ChildIndex(t, tokenIndex, 2 * k + 1)
                     && Placed(p.tokenBuffer, valueIndex, t.children[2 * k + 1])
  {
    hide Preorder, PreorderAll, ChildIndex, Placed, Denotes;
    var message := p.messageBuffer;
    MapDenotesAll(t, message, items, open);
    forall j: nat | 2 * j + 1 < |items|
      ensures Denotes(t.children[2 * j], message, key) <==> items[2 * j] == key
    {
      DenoteAllAt(t.children, message, items, 2 * j);
      if Denotes(t.children[2 * j], message, key) {
        DenotesOne(t.children[2 * j], message, key, items[2 * j]);
      }
    }
    if ok {
      var k :| 0 <= k < |t.children| / 2 && NoKey(t, message, key, k) && Denotes(t.children[2 * k], message, key)
               && valueIndex == ChildIndex(t, tokenIndex, 2 * k + 1) && Placed(p.tokenBuffer, valueIndex, t.children[2 * k + 1]);
      DenoteAllAt(t.children, message, items, 2 * k + 1);
      assert items[2 * k] == key;
    }
  }

  lemma MapDenotesAll(t: Tree, message: seq<byte>, items: seq<Value>, open: bool)
    requires Denotes(t, message, Map(items, open))
    ensures Major(t.token.typeSpecifier) == MAP && |t.children| == |items| && DenoteAll(t.children, message, items)
  {
  }

  lemma {:induction false} DenoteAllAt(ts: seq<Tree>, message: seq<byte>, vs: seq<Value>, i: nat)
    requires DenoteAll(ts, message, vs) && i < |vs|
    ensures |ts| == |vs| && Denotes(ts[i], message, vs[i])
    decreases i
  {
    hide Denotes;
    if i > 0 {
      DenoteAllAt(ts[1..], message, vs[1..], i - 1);
    }
  }

  /** A key that is a single token is what the token stands for. */
  lemma KeyStands(p: Parser, t: Tree, k: nat, here: nat, key: Value)
    requires SingleTokenKeys(t) && 2 * k < |t.children| && here < |p.tokenBuffer|
    requires p.tokenBuffer[here] == t.children[2 * k].token
    ensures StandsFor(p, here, key) <==> Denotes(t.children[2 * k], p.messageBuffer, key)
  {
    hide Denotes;
    assert 2 * k % 2 == 0;
    assert t.children[2 * k] == Tree(t.children[2 * k].token, []);
  }

  /** Finds a map entry by an integer key. */
  method LookupMapIntKey(p: Parser, tokenIndex: nat, key: int, ghost t: Tree) returns (matchOk: bool, valueIndex: nat)
    requires Placed(p.tokenBuffer, tokenIndex, t) && Whole(t) && SingleTokenKeys(t) && -TWO_63 <= key < TWO_63
    ensures Finds(p, tokenIndex, t, Integer(key), matchOk, valueIndex)
  {
    hide Preorder, PreorderAll, ChildIndex, Placed, Denotes, StandsFor;
    FirstPlaced(p.tokenBuffer, tokenIndex, t);
    matchOk, valueIndex := false, 0;
    var mapOk, mapLength := DecodeLength(p, tokenIndex, MAP);
    if mapOk {
      var here := tokenIndex + 1;
      for i := 0 to mapLength
        invariant here == ChildIndex(t, tokenIndex, 2 * i)
        invariant NoKey(t, p.messageBuffer, Integer(key), i)
      {
        EntryPlaced(p.tokenBuffer, tokenIndex, t, i);
        KeyStands(p, t, i, here, Integer(key));
        var keyOk, matchKey := DecodeInt64(p, here);
        if keyOk && key == matchKey {
          return true, here + 1;
        }
        if keyOk && StandsFor(p, here, Integer(key)) {
          StandsForOne(p, here, Integer(key), Integer(matchKey));
        }
        var countOk, tokenCount := DecodeTokenCount(p, here + 1);
        here := here + 1 + tokenCount;
      }
    }
  }

  /** Finds a map entry by a text string key. */
  method LookupMapTextKey(p: Parser, tokenIndex: nat, key: seq<byte>, ghost t: Tree) returns (matchOk: bool, valueIndex: nat)
    requires Placed(p.tokenBuffer, tokenIndex, t) && Whole(t) && SingleTokenKeys(t)
    ensures |key| <= MAX_STRING_SIZE ==> Finds(p, tokenIndex, t, Text(key), matchOk, valueIndex)
    ensures |key| > MAX_STRING_SIZE ==> !matchOk
  {
    hide Preorder, PreorderAll, ChildIndex, Placed, Denotes, StandsFor;
    FirstPlaced(p.tokenBuffer, tokenIndex, t);
    matchOk, valueIndex := false, 0;
    if |key| <= MAX_STRING_SIZE {
      var mapOk, mapLength := DecodeLength(p, tokenIndex, MAP);
      if mapOk {
        var here := tokenIndex + 1;
        for i := 0 to mapLength
          invariant here == ChildIndex(t, tokenIndex, 2 * i)
          invariant NoKey(t, p.messageBuffer, Text(key), i)
        {
          EntryPlaced(p.tokenBuffer, tokenIndex, t, i);
          KeyStands(p, t, i, here, Text(key));
          var keyOk := MatchTextString(p, here, key);
          if keyOk {
            return true, here + 1;
          }
          var countOk, tokenCount := DecodeTokenCount(p, here + 1);
          here := here + 1 + tokenCount;
        }
      }
    }
  }

  /** Where the key and the value of an entry stand, and the entry after it. */
  lemma EntryPlaced(tokens: seq<Token>, index: nat, t: Tree, k: nat)
    requires Placed(tokens, index, t) && Whole(t) && SingleTokenKeys(t)
    requires Major(t.token.typeSpecifier) == MAP && 2 * k < |t.children|
    ensures var here := ChildIndex(t, index, 2 * k);
            && here + 1 < |tokens| && tokens[here] == t.children[2 * k].token
            && tokens[here + 1].tokenCount == |Preorder(t.children[2 * k + 1])|
            && Placed(tokens, here + 1, t.children[2 * k + 1])
            && here + 1 == ChildIndex(t, index, 2 * k + 1)
            && ChildIndex(t, index, 2 * (k + 1)) == here + 1 + |Preorder(t.children[2 * k + 1])|
  {
    hide Preorder, PreorderAll, ChildIndex, Placed;
    ChildPlaced(tokens, index, t, 2 * k);
    ChildPlaced(tokens, index, t, 2 * k + 1);
    assert t.children[2 * k + 1] in t.children;
  }

  // ---- reading back what was encoded

  /** Decoding a signed integer that was encoded and scanned gives that integer, if it has the width for it. */
  method DecodeEncoded(p: Parser, value: int, ghost depth: nat)
    returns (ok64: bool, value64: int, ok32: bool, value32: int)
    requires -TWO_63 <= value < TWO_63 && p.Src().Valid() && p.messageBuffer == Encode(Integer(value))
    requires var r := ScanItem(p.Src(), 0, depth, false); r.Item? && p.tokenBuffer == Preorder(r.tree)
    ensures ok64 && value64 == value
    ensures (ok32 <==> -TWO_31 <= value < TWO_31) && (ok32 ==> value32 == value)
  {
    hide ScanItem, StandsFor, Encode;
    LeafStands(p, Integer(value), depth);
    ok64, value64 := DecodeInt64(p, 0);
    ok32, value32 := DecodeInt32(p, 0);
    if ok64 {
      StandsForOne(p, 0, Integer(value), Integer(value64));
    }
    if ok32 {
      StandsForOne(p, 0, Integer(value), Integer(value32));
    }
  }

  /** A text that was encoded and scanned matches itself and no other. */
  method MatchEncoded(p: Parser, text: seq<byte>, wanted: seq<byte>, ghost depth: nat) returns (matchOk: bool)
    requires |text| <= MAX_STRING_SIZE && p.Src().Valid() && p.messageBuffer == Encode(Text(text))
    requires var r := ScanItem(p.Src(), 0, depth, false); r.Item? && p.tokenBuffer == Preorder(r.tree)
    ensures matchOk <==> wanted == text
  {
    hide ScanItem, StandsFor, Encode;
    LeafStands(p, Text(text), depth);
    matchOk := MatchTextString(p, 0, wanted);
    if matchOk {
      StandsForOne(p, 0, Text(text), Text(wanted));
    }
  }

  lemma LeafStands(p: Parser, v: Value, depth: nat)
    requires (v.Uint? || v.Nint? || v.Text?) && Encodable(v) && p.Src().Valid() && p.messageBuffer == Encode(v)
    requires var r := ScanItem(p.Src(), 0, depth, false); r.Item? && p.tokenBuffer == Preorder(r.tree)
    ensures StandsFor(p, 0, v)
  {
    hide ScanItem, Encode, Denotes;
    ScansExactly(v, depth, p.Src().fast8, p.Src().fast16);
    assert Holds(Encode(v), 0, Encode(v));
    TreeOfDenotes(v, 0, Encode(v));
    assert TreeOf(v, 0).children == [];
  }
}
