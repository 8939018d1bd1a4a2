/** The CBOR token scanner: recursive descent over a message, appending to a token buffer and
    patching the enclosing tokens once their contents are known. */
module CborParser {
  import opened Words
  import opened CborFormat
  import opened CborTree

  class Parser {
    var messageBuffer: seq<byte>
    var tokenBuffer: seq<Token>
    /** How many tokens there is memory for. */
    const capacity: nat
    /** How many values a uint_fast8_t and a uint_fast16_t have. */
    const fast8: nat
    const fast16: nat

    constructor (capacity: nat, fast8: nat, fast16: nat)
      requires fast8 >= 0x100 && fast16 >= 0x1_0000
      ensures messageBuffer == [] && tokenBuffer == []
      ensures this.capacity == capacity && this.fast8 == fast8 && this.fast16 == fast16
    {
      messageBuffer, tokenBuffer := [], [];
      this.capacity, this.fast8, this.fast16 := capacity, fast8, fast16;
    }

    function Src(): Source
      reads this
    {
      Source(messageBuffer, fast8, fast16)
    }

    ghost predicate Valid()
      reads this
    {
      Src().Valid() && |tokenBuffer| <= capacity
    }

    /** The message is unchanged, and so are the tokens there were. */
    ghost predicate Extends(src: Source, was: seq<Token>)
      reads this
    {
      Valid() && Src() == src && was <= tokenBuffer
    }

    /** What a scan step must have done to the tokens there were, given what it should find. */
    ghost predicate Did(r: Scanned, was: seq<Token>, next: nat)
      reads this
    {
      match r
      case Failed => next == 0
      case Break(e) => next == e && tokenBuffer == was
      case Item(e, t) =>
        if |was| + |Preorder(t)| <= capacity then next == e && tokenBuffer == was + Preorder(t) else next == 0
    }

    /** Reads bytes of the message, if they are there. */
    method Read(offset: nat, size: nat) returns (ok: bool, data: seq<byte>)
      ensures ok == (offset + size <= |messageBuffer|)
      ensures ok ==> data == messageBuffer[offset..offset + size]
    {
      ok, data := offset + size <= |messageBuffer|, [];
      if ok {
        data := messageBuffer[offset..offset + size];
      }
    }

    /** Appends a token if there is memory for it. */
    method AppendToken(token: Token) returns (ok: bool)
      requires Valid()
      modifies this
      ensures Valid() && Src() == old(Src()) && ok == (|old(tokenBuffer)| < capacity)
      ensures tokenBuffer == if ok then old(tokenBuffer) + [token] else old(tokenBuffer)
    {
      ok := |tokenBuffer| < capacity;
      if ok {
        tokenBuffer := tokenBuffer + [token];
      }
    }

    /** Decodes the header at an offset. */
    method DecodeWithParameter(offset: nat) returns (token: Option<Token>)
      ensures token == Header(messageBuffer, offset)
    {
      hide FromBe;
      var ok, bytes := Read(offset, 1);
      if !ok {
        return None;
      }
      var firstByte: byte := bytes[0];
      var additionalInfo := Info(firstByte);
      var typeParam: nat := 0;
      var d: seq<byte> := [];
      if additionalInfo < 24 {
        typeParam := additionalInfo;
      } else if additionalInfo == 24 {
        ok, d := Read(offset + 1, 1);
        if !ok {
          return None;
        }
        typeParam := d[0];
        ShiftIn(d);
      } else if additionalInfo == 25 {
        ok, d := Read(offset + 1, 2);
        if !ok {
          return None;
        }
        typeParam := d[0];
        typeParam := typeParam * 0x100 + d[1];
        ShiftIn(d);
      } else if additionalInfo == 26 {
        ok, d := Read(offset + 1, 4);
        if !ok {
          return None;
        }
        typeParam := d[0];
        typeParam := typeParam * 0x100 + d[1];
        typeParam := typeParam * 0x100 + d[2];
        typeParam := typeParam * 0x100 + d[3];
        ShiftIn(d);
      } else if additionalInfo == 27 {
        ok, d := Read(offset + 1, 8);
        if !ok {
          return None;
        }
        typeParam := d[0];
        typeParam := typeParam * 0x100 + d[1];
        typeParam := typeParam * 0x100 + d[2];
        typeParam := typeParam * 0x100 + d[3];
        typeParam := typeParam * 0x100 + d[4];
        typeParam := typeParam * 0x100 + d[5];
        typeParam := typeParam * 0x100 + d[6];
        typeParam := typeParam * 0x100 + d[7];
        ShiftIn(d);
      } else if additionalInfo != 31 {
        return None;
      }
      return Some(Token(typeParam, offset, 1, firstByte));
    }

    /** Replaces an enclosing token, with a count of the tokens from it on. */
    method CloseToken(token: Token, tokenLocation: nat, ghost was: seq<Token>, ghost ts: seq<Tree>)
      requires Valid() && tokenLocation == |was| && was <= tokenBuffer
      requires |tokenBuffer| == |was| + 1 + |PreorderAll(ts)| && tokenBuffer[|was| + 1..] == PreorderAll(ts)
      modifies this
      ensures Extends(old(Src()), was) && tokenBuffer == was + Preorder(Close(token, ts))
    {
      hide PreorderAll;
      var tokenCount := |tokenBuffer| - tokenLocation;
      tokenBuffer := tokenBuffer[tokenLocation := token.(tokenCount := tokenCount)];
    }

    /** An array or a map that announces its length: as many items as ScanMany finds. */
    method ScanFixed(token: Token, scanDepth: nat) returns (next: nat)
      requires Valid()
      modifies this
      ensures Extends(old(Src()), old(tokenBuffer))
      ensures Did(if scanDepth == 0 then Failed else ScanFixedItems(old(Src()), token, scanDepth), old(tokenBuffer), next)
      decreases scanDepth, 0
    {
      hide ScanItem, Preorder, PreorderAll, Unit, DataOffset, After, ConsItem;
      var unit := Unit(token);
      // too deep or too long: the specification fails as well
      if scanDepth == 0 || token.typeParam > (if unit == 2 then MAX_MAP_SIZE else MAX_ARRAY_SIZE) {
        return 0;
      }
      ghost var src, was, depth := Src(), tokenBuffer, scanDepth - 1;
      var count := ItemCount(token.typeParam % fast8, unit);
      // the token takes its place before its contents are known
      var tokenLocation := |tokenBuffer|;
      var appendOk := AppendToken(token);
      if !appendOk {
        return 0;
      }
      next := DataOffset(token);
      ghost var all := ScanMany(src, next, depth, count);
      ghost var done: seq<Tree> := [];
      StartEmpty(all);
      for i := 0 to count
        invariant Extends(src, was) && next > 0 && |was| == tokenLocation
        invariant |tokenBuffer| == |was| + 1 + |PreorderAll(done)| && tokenBuffer[|was| + 1..] == PreorderAll(done)
        invariant all == After(done, ScanMany(src, next, depth, count - i))
      {
        ghost var item, rest := ScanItem(src, next, depth, false), count - i - 1;
        var breakDetect;
        next, breakDetect := ScanNextToken(next, scanDepth - 1, false);
        if item.Item? {
          AfterItem(done, item.tree, ScanMany(src, item.next, depth, rest), all);
        }
        if next == 0 {
          assert After(done, NoItems) == NoItems by { AfterNothing(done); }
          return 0;
        }
        done := done + [item.tree];
      }
      AfterEnd(done, next);
      // all children are there: the count becomes that of the tree
      CloseToken(token, tokenLocation, was, done);
    }

    /** An array that goes on until a break code: the items that ScanOpen finds. */
    method ScanIndefArray(token: Token, scanDepth: nat) returns (next: nat)
      requires Valid() && Major(token.typeSpecifier) == ARRAY
      modifies this
      ensures Extends(old(Src()), old(tokenBuffer))
      ensures Did(if scanDepth == 0 then Failed else ScanOpenItems(old(Src()), token, scanDepth), old(tokenBuffer), next)
      decreases scanDepth, 0
    {
      hide ScanItem, Preorder, PreorderAll, Source.Valid, DataOffset, After, ConsItem;
      // too deep: the specification fails as well
      if scanDepth == 0 {
        return 0;
      }
      ghost var src, was, depth := Src(), tokenBuffer, scanDepth - 1;
      // the token takes its place before its contents are known
      var tokenLocation := |tokenBuffer|;
      var appendOk := AppendToken(token);
      if !appendOk {
        return 0;
      }
      next := DataOffset(token);
      ghost var all := ScanOpen(src, next, depth, 1, 0);
      ghost var done: seq<Tree> := [];
      StartEmpty(all);
      var arraySize := 0;
      // what is done and what ScanOpen makes of the rest always make up the whole
      while true
        invariant Extends(src, was) && next > 0 && |was| == tokenLocation
        invariant |done| == arraySize <= MAX_ARRAY_SIZE
        invariant |tokenBuffer| == |was| + 1 + |PreorderAll(done)| && tokenBuffer[|was| + 1..] == PreorderAll(done)
        invariant all == After(done, ScanOpen(src, next, depth, 1, arraySize))
        decreases MAX_ARRAY_SIZE - arraySize
      {
        ghost var item := ScanItem(src, next, depth, true);
        AfterNothing(done);
        var breakDetect;
        next, breakDetect := ScanNextToken(next, scanDepth - 1, true);
        if item.Item? && arraySize < MAX_ARRAY_SIZE {
          AfterItem(done, item.tree, ScanOpen(src, item.next, depth, 1, arraySize + 1), all);
        }
        if next == 0 {
          return 0;
        } else if breakDetect {
          break;
        } else if arraySize >= MAX_ARRAY_SIZE {
          return 0;
        } else {
          arraySize := arraySize + 1;
        }
        done := done + [item.tree];
      }
      AfterEnd(done, next);
      // all children are there: length and count become those of the tree
      CloseToken(token.(typeParam := arraySize), tokenLocation, was, done);
    }

    /** A map that goes on until a break code: the pairs that ScanOpen finds. */
    method ScanIndefMap(token: Token, scanDepth: nat) returns (next: nat)
      requires Valid() && Major(token.typeSpecifier) == MAP
      modifies this
      ensures Extends(old(Src()), old(tokenBuffer))
      ensures Did(if scanDepth == 0 then Failed else ScanOpenItems(old(Src()), token, scanDepth), old(tokenBuffer), next)
      decreases scanDepth, 0
    {
      hide ScanItem, Preorder, PreorderAll, Source.Valid, DataOffset, After, ConsItem, ScanOpen;
      // too deep: the specification fails as well
      if scanDepth == 0 {
        return 0;
      }
      ghost var src, was, depth := Src(), tokenBuffer, scanDepth - 1;
      // the token takes its place before its contents are known
      var tokenLocation := |tokenBuffer|;
      var appendOk := AppendToken(token);
      if !appendOk {
        return 0;
      }
      next := DataOffset(token);
      ghost var all := ScanOpen(src, next, depth, 2, 0);
      ghost var done: seq<Tree> := [];
      StartEmpty(all);
      var mapSize := 0;
      // pairs that are done and what ScanOpen makes of the rest always make up the whole
      while true
        invariant Extends(src, was) && next > 0 && |was| == tokenLocation
        invariant |done| == 2 * mapSize && mapSize <= MAX_MAP_SIZE
        invariant |tokenBuffer| == |was| + 1 + |PreorderAll(done)| && tokenBuffer[|was| + 1..] == PreorderAll(done)
        invariant all == After(done, ScanOpen(src, next, depth, 2, mapSize))
        decreases MAX_MAP_SIZE - mapSize
      {
        ghost var key := ScanItem(src, next, depth, true);
        ghost var value := if key.Item? then ScanItem(src, key.next, depth, false) else Failed;
        NextEntry(src, next, depth, mapSize, key, value);
        AfterNothing(done);
        if key.Item? && value.Item? && mapSize < MAX_MAP_SIZE {
          ghost var rest := ScanOpen(src, value.next, depth, 2, mapSize + 1);
          AfterPair(done, key.tree, value.tree, rest, all);
        }
        ghost var before := tokenBuffer;
        var breakDetect;
        next, breakDetect := ScanNextToken(next, scanDepth - 1, true);
        if next == 0 {
          return 0;
        } else if breakDetect {
          break;
        } else if mapSize >= MAX_MAP_SIZE {
          return 0;
        } else {
          mapSize := mapSize + 1;
        }
        assert tokenBuffer == before + Preorder(key.tree);
        next, breakDetect := ScanNextToken(next, scanDepth - 1, false);
        if next == 0 {
          return 0;
        }
        assert tokenBuffer == before + Preorder(key.tree) + Preorder(value.tree);
        done := done + [key.tree] + [value.tree];
      }
      AfterEnd(done, next);
      // all children are there: length and count become those of the tree
      CloseToken(token.(typeParam := mapSize), tokenLocation, was, done);
    }

    /** Scans a fixed length string, which must not exceed the message. */
    method ScanFixedString(token: Token) returns (next: nat)
      requires Valid() && Header(messageBuffer, token.baseOffset) == Some(token)
      requires Major(token.typeSpecifier) in {STR_BYTE, STR_TEXT} && Info(token.typeSpecifier) != 31
      modifies this
      ensures Extends(old(Src()), old(tokenBuffer))
      ensures Did(ScanItem(old(Src()), token.baseOffset, 0, false), old(tokenBuffer), next)
    {
      hide Header, PreorderAll;
      LeafOrder(token);
      next := (DataOffset(token) + token.typeParam) % fast16;
      if next > |messageBuffer| {
        next := 0;
      } else {
        var appendOk := AppendToken(token);
        if !appendOk {
          next := 0;
        }
      }
    }

    /** Scans a tagged data item. */
    method ScanTag(token: Token, scanDepth: nat) returns (next: nat)
      requires Valid()
      modifies this
      ensures Extends(old(Src()), old(tokenBuffer))
      ensures Did(if scanDepth == 0 then Failed else ScanTagged(old(Src()), token, scanDepth), old(tokenBuffer), next)
      decreases scanDepth, 0
    {
      hide ScanItem, Source.Valid, DataOffset, PreorderAll;
      // too deep: the specification fails as well
      if scanDepth == 0 {
        return 0;
      }
      ghost var src, was, item := Src(), tokenBuffer, ScanItem(Src(), DataOffset(token), scanDepth - 1, false);
      // the token takes its place before its contents are known
      var tokenLocation := |tokenBuffer|;
      var appendOk := AppendToken(token);
      if !appendOk {
        return 0;
      }
      // the one child of the tag
      next := DataOffset(token);
      var breakDetect;
      next, breakDetect := ScanNextToken(next, scanDepth - 1, false);
      if item.Item? {
        PreorderOfOne(item.tree);
      }
      // all children are there: the count becomes that of the tree
      var tokenCount := |tokenBuffer| - tokenLocation;
      tokenBuffer := tokenBuffer[tokenLocation := token.(tokenCount := tokenCount)];
      assert next > 0 ==> tokenBuffer == was + Preorder(Close(token, [item.tree]));
    }

    /** The item at an offset, with everything in it. */
    method ScanNextToken(tokenOffset: nat, scanDepth: nat, mayBreak: bool) returns (next: nat, breakDetect: bool)
      requires Valid()
      modifies this
      ensures Extends(old(Src()), old(tokenBuffer))
      ensures Did(ScanItem(old(Src()), tokenOffset, scanDepth, mayBreak), old(tokenBuffer), next)
      ensures next > 0 ==> breakDetect == ScanItem(old(Src()), tokenOffset, scanDepth, mayBreak).Break?
      decreases scanDepth, 1
    {
      hide Header, PreorderAll, ScanOpenItems, ScanFixedItems, ScanTagged;
      next, breakDetect := 0, false;
      // no header: no item
      var header := DecodeWithParameter(tokenOffset);
      if header.None? {
        return;
      }
      var token := header.value;
      LeafOrder(token);
      var major, info := Major(token.typeSpecifier), Info(token.typeSpecifier);
      // one case of ScanItem each
      if major == ARRAY {
        if info == 31 {
          next := ScanIndefArray(token, scanDepth);
        } else {
          next := ScanFixed(token, scanDepth);
        }
      } else if major == MAP {
        if info == 31 {
          next := ScanIndefMap(token, scanDepth);
        } else {
          next := ScanFixed(token, scanDepth);
        }
      } else if major == STR_BYTE || major == STR_TEXT {
        if info != 31 {
          next := ScanFixedString(token);
        }
      } else if major == INT_POS || major == INT_NEG {
        var appendOk := AppendToken(token);
        if appendOk {
          next := DataOffset(token);
        }
      } else if major == TAG {
        next := ScanTag(token, scanDepth);
      } else if token.typeSpecifier == BREAK_CODE {
        if mayBreak {
          next, breakDetect := DataOffset(token), true;
        }
      } else {
        var appendOk := AppendToken(token);
        if appendOk {
          next := DataOffset(token);
        }
      }
    }

    /** Scans a message.  It is accepted if one data item takes up all of it. */
    method Scan(message: seq<byte>, maxScanDepth: nat) returns (ok: bool)
      requires Source(message, fast8, fast16).Valid()
      modifies this
      ensures var r := ScanItem(Source(message, fast8, fast16), 0, maxScanDepth, false);
              && ok == (r.Item? && |Preorder(r.tree)| <= capacity && r.next == |message|)
              && messageBuffer == (if ok then message else [])
              && tokenBuffer == if ok then Preorder(r.tree) else []
    {
      hide ScanItem, Preorder;
      messageBuffer, tokenBuffer := message, [];
      var nextTokenOffset, breakDetect := ScanNextToken(0, maxScanDepth, false);
      ok := nextTokenOffset != 0 && nextTokenOffset == |messageBuffer|;
      if !ok {
        messageBuffer, tokenBuffer := [], [];
      }
    }
  }

  lemma LeafOrder(token: Token)
    ensures Preorder(Tree(token, [])) == [token]
  {
  }

  /** Bytes shifted in one after the other make up the big-endian number. */
  lemma ShiftIn(d: seq<byte>)
    requires |d| == 1 || |d| == 2 || |d| == 4 || |d| == 8
    ensures |d| == 1 ==> FromBe(d) == d[0]
    ensures |d| == 2 ==> FromBe(d) == Push(d[0], d[1])
    ensures |d| == 4 ==> FromBe(d) == Push(Push(Push(d[0], d[1]), d[2]), d[3])
    ensures |d| == 8 ==>
              FromBe(d) == Push(Push(Push(Push(Push(Push(Push(d[0], d[1]), d[2]), d[3]), d[4]), d[5]), d[6]), d[7])
  {
    hide FromBe;
    ShiftOne(d, 0);
    if |d| > 1 {
      ShiftOne(d, 1);
    }
    if |d| > 2 {
      ShiftOne(d, 2);
      ShiftOne(d, 3);
    }
    if |d| > 4 {
      ShiftOne(d, 4);
      ShiftOne(d, 5);
      ShiftOne(d, 6);
      ShiftOne(d, 7);
    }
    assert d[..|d|] == d;
  }

  function Push(n: nat, b: byte): nat {
    n * 0x100 + b
  }

  lemma ShiftOne(d: seq<byte>, i: nat)
    requires i < |d|
    ensures FromBe(d[..0]) == 0 && FromBe(d[..i + 1]) == Push(FromBe(d[..i]), d[i])
  {
    assert d[..i + 1][..i] == d[..i];
  }

  lemma StartEmpty(all: ScannedAll)
    ensures After([], all) == all && PreorderAll([]) == []
  {
    if all.Items? {
      assert [] + all.trees == all.trees;
    }
  }

  lemma AfterNothing(done: seq<Tree>)
    ensures After(done, NoItems) == NoItems
  {
  }

  lemma AfterEnd(done: seq<Tree>, next: nat)
    ensures After(done, Items(next, [])) == Items(next, done)
  {
    assert done + [] == done;
  }

  /** One more item scanned: if all goes well, it is among the trees there are in the end. */
  lemma AfterItem(done: seq<Tree>, t: Tree, rest: ScannedAll, all: ScannedAll)
    requires all == After(done, ConsItem(t, rest))
    ensures all == After(done + [t], rest)
    ensures PreorderAll(done + [t]) == PreorderAll(done) + Preorder(t)
    ensures all.Items? ==> |PreorderAll(all.trees)| >= |PreorderAll(done)| + |Preorder(t)|
  {
    hide Preorder, PreorderAll;
    AfterOneMore(done, t, rest);
    PreorderWithLast(done, t);
    if rest.Items? {
      PreorderOfConcat(done + [t], rest.trees);
    }
  }

  lemma AfterPair(done: seq<Tree>, k: Tree, v: Tree, rest: ScannedAll, all: ScannedAll)
    requires all == After(done, ConsItem(k, ConsItem(v, rest)))
    ensures all == After(done + [k] + [v], rest)
    ensures PreorderAll(done + [k] + [v]) == PreorderAll(done) + Preorder(k) + Preorder(v)
    ensures all.Items? ==> |PreorderAll(all.trees)| >= |PreorderAll(done)| + |Preorder(k)| + |Preorder(v)|
  {
    hide Preorder, PreorderAll, ConsItem, After;
    AfterItem(done, k, ConsItem(v, rest), all);
    AfterItem(done + [k], v, rest, all);
  }

  /** What the next entry of an indefinite length map comes to. */
  lemma NextEntry(src: Source, offset: nat, depth: nat, seen: nat, key: Scanned, value: Scanned)
    requires src.Valid() && seen <= MAX_MAP_SIZE && key == ScanItem(src, offset, depth, true)
    requires value == if key.Item? then ScanItem(src, key.next, depth, false) else Failed
    ensures ScanOpen(src, offset, depth, 2, seen)
         == if key.Break? then Items(key.next, [])
            else if value.Item? && seen < MAX_MAP_SIZE
            then ConsItem(key.tree, ConsItem(value.tree, ScanOpen(src, value.next, depth, 2, seen + 1)))
            else NoItems
  {
    hide ScanItem;
  }
}
