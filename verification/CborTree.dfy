/** What scanning a CBOR message means: a tree of tokens, laid out in preorder. */
module CborTree {
  import opened Words
  import opened CborFormat

  datatype Tree = Tree(token: Token, children: seq<Tree>)

  /** The tokens of a tree, each before those it encloses. */
  function Preorder(t: Tree): (tokens: seq<Token>)
    ensures |tokens| >= 1 && tokens[0] == t.token
    decreases t
  {
    [t.token] + PreorderAll(t.children)
  }

  function PreorderAll(ts: seq<Tree>): (tokens: seq<Token>)
    ensures |tokens| >= |ts|
    decreases ts
  {
    if ts == [] then [] else Preorder(ts[0]) + PreorderAll(ts[1..])
  }

  lemma {:induction false} PreorderOfConcat(a: seq<Tree>, b: seq<Tree>)
    ensures PreorderAll(a + b) == PreorderAll(a) + PreorderAll(b)
    decreases |a|
  {
    if a == [] {
      assert a + b == b;
    } else {
      PreorderOfConcat(a[1..], b);
      assert (a + b)[1..] == a[1..] + b;
    }
  }

  lemma PreorderOfOne(t: Tree)
    ensures PreorderAll([t]) == Preorder(t)
  {
    assert [t][1..] == [];
    assert Preorder(t) + PreorderAll([]) == Preorder(t);
  }

  lemma PreorderWithLast(ts: seq<Tree>, t: Tree)
    ensures PreorderAll(ts + [t]) == PreorderAll(ts) + Preorder(t)
  {
    PreorderOfConcat(ts, [t]);
    PreorderOfOne(t);
  }

  /** A token closed over the trees it encloses: its count covers itself and all their tokens. */
  function Close(token: Token, children: seq<Tree>): (t: Tree)
    ensures |Preorder(t)| == t.token.tokenCount
  {
    Tree(token.(tokenCount := 1 + |PreorderAll(children)|), children)
  }

  /** A message, and how many values the platform's uint_fast8_t and uint_fast16_t have. */
  datatype Source = Source(message: seq<byte>, fast8: nat, fast16: nat) {
    predicate Valid() {
      |message| <= 0xFFFF && fast8 >= 0x100 && fast16 >= 0x1_0000
    }
  }

  /** One scanned item, or the break code that ends a sequence of items. */
  datatype Scanned = Failed | Break(next: nat) | Item(next: nat, tree: Tree)

  datatype ScannedAll = NoItems | Items(next: nat, trees: seq<Tree>)

  /** The data item at an offset. */
  function ScanItem(src: Source, offset: nat, depth: nat, mayBreak: bool): (r: Scanned)
    requires src.Valid()
    ensures r.Item? ==> r.next > 0
    ensures r.Break? ==> r.next > 0 && mayBreak
    decreases depth, 0, 0
  {
    match Header(src.message, offset)
    case None => Failed
    case Some(token) =>
      var major, info := Major(token.typeSpecifier), Info(token.typeSpecifier);
      if major == ARRAY || major == MAP then
        if depth == 0 then Failed
        else if info == 31 then ScanOpenItems(src, token, depth)
        else ScanFixedItems(src, token, depth)
      else if major == STR_BYTE || major == STR_TEXT then
        if info == 31 then Failed
        else
          var next := (DataOffset(token) + token.typeParam) % src.fast16;
          if next > |src.message| || next == 0 then Failed else Item(next, Tree(token, []))
      else if major == TAG then
        if depth == 0 then Failed else ScanTagged(src, token, depth)
      else if token.typeSpecifier == BREAK_CODE then
        if mayBreak then Break(DataOffset(token)) else Failed
      else Item(DataOffset(token), Tree(token, []))
  }

  function ScanTagged(src: Source, token: Token, depth: nat): (r: Scanned)
    requires src.Valid() && depth > 0
    ensures r.Item? ==> r.next > 0
    ensures !r.Break?
    decreases depth - 1, 3, 0
  {
    match ScanItem(src, DataOffset(token), depth - 1, false)
    case Item(next, content) => Item(next, Close(token, [content]))
    case _ => Failed
  }

  /** How many items make up one entry of an array or a map. */
  function Unit(token: Token): (unit: nat)
    ensures unit == 1 || unit == 2
  {
    if Major(token.typeSpecifier) == MAP then 2 else 1
  }

  /** How many entries a number of items makes up. */
  function Entries(n: nat, unit: nat): nat {
    if unit == 2 then n / 2 else n
  }

  function ItemCount(entries: nat, unit: nat): nat {
    if unit == 2 then 2 * entries else entries
  }

  /** A fixed length array or map: the parameter, narrowed to a uint_fast8_t, is the length. */
  function ScanFixedItems(src: Source, token: Token, depth: nat): (r: Scanned)
    requires src.Valid() && depth > 0
    ensures r.Item? ==> r.next > 0
    ensures !r.Break?
    decreases depth - 1, 3, 0
  {
    if token.typeParam > (if Unit(token) == 2 then MAX_MAP_SIZE else MAX_ARRAY_SIZE) then Failed
    else
      match ScanMany(src, DataOffset(token), depth - 1, ItemCount(token.typeParam % src.fast8, Unit(token)))
      case Items(next, ts) => Item(next, Close(token, ts))
      case NoItems => Failed
  }

  /** An indefinite length array or map: the number of entries found becomes the parameter. */
  function ScanOpenItems(src: Source, token: Token, depth: nat): (r: Scanned)
    requires src.Valid() && depth > 0
    ensures r.Item? ==> r.next > 0
    ensures !r.Break?
    decreases depth - 1, 3, 0
  {
    match ScanOpen(src, DataOffset(token), depth - 1, Unit(token), 0)
    case Items(next, ts) => Item(next, Close(token.(typeParam := Entries(|ts|, Unit(token))), ts))
    case NoItems => Failed
  }

  /** A number of items in sequence. */
  function ScanMany(src: Source, offset: nat, depth: nat, n: nat): (r: ScannedAll)
    requires src.Valid()
    ensures r.Items? ==> |r.trees| == n && (offset > 0 ==> r.next > 0)
    decreases depth, 1, n
  {
    if n == 0 then Items(offset, [])
    else
      match ScanItem(src, offset, depth, false)
      case Item(next, t) => ConsItem(t, ScanMany(src, next, depth, n - 1))
      case _ => NoItems
  }

  /** Entries of one or two items up to a break code. */
  function ScanOpen(src: Source, offset: nat, depth: nat, unit: nat, seen: nat): (r: ScannedAll)
    requires src.Valid() && (unit == 1 || unit == 2) && seen <= MAX_ARRAY_SIZE == MAX_MAP_SIZE
    ensures r.Items? ==> r.next > 0 && (unit == 2 ==> |r.trees| % 2 == 0)
    ensures r.Items? ==> Entries(|r.trees|, unit) + seen <= MAX_ARRAY_SIZE
    decreases depth, 2, MAX_ARRAY_SIZE - seen
  {
    match ScanItem(src, offset, depth, true)
    case Failed => NoItems
    case Break(next) => Items(next, [])
    case Item(next, t) =>
      if seen >= MAX_ARRAY_SIZE then NoItems
      else if unit == 1 then ConsItem(t, ScanOpen(src, next, depth, unit, seen + 1))
      else
        match ScanItem(src, next, depth, false)
        case Item(next', t') => ConsItem(t, ConsItem(t', ScanOpen(src, next', depth, unit, seen + 1)))
        case _ => NoItems
  }

  function ConsItem(t: Tree, r: ScannedAll): (r': ScannedAll)
    ensures r'.Items? ==> r.Items? && r'.next == r.next && |r'.trees| == |r.trees| + 1
  {
    match r
    case NoItems => NoItems
    case Items(next, ts) => Items(next, [t] + ts)
  }

  /** Items scanned before others. */
  function After(ts: seq<Tree>, r: ScannedAll): (r': ScannedAll) {
    match r
    case NoItems => NoItems
    case Items(next, us) => Items(next, ts + us)
  }

  lemma AfterOneMore(ts: seq<Tree>, t: Tree, r: ScannedAll)
    ensures After(ts, ConsItem(t, r)) == After(ts + [t], r)
  {
    if r.Items? {
      assert ts + ([t] + r.trees) == (ts + [t]) + r.trees;
    }
  }
}
