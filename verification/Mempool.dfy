/** The memory pool: one static set of fixed size segments, linked into lists. */
module Mempool {
  import opened Words

  const SEG: nat := 64

  /** The bytes embedded in a segment. */
  type Data = d: seq<byte> | |d| == 64 witness seq(64, _ => 0)

  class Segment {
    var next: Segment?
    var bytes: Data

    constructor ()
      ensures next == null
    {
      next := null;
      bytes := seq(64, _ => 0);
    }
  }

  /** The list that starts at head runs through the segments of ss, in order, and ends. */
  ghost predicate IsList(head: Segment?, ss: seq<Segment>)
    reads ss
  {
    && head == At(ss, 0)
    && (forall i {:trigger ss[i].next} :: 0 <= i < |ss| ==> ss[i].next == At(ss, i + 1))
  }

  /** Segment k of a list, or the null reference that ends it. */
  ghost function At(ss: seq<Segment>, k: nat): Segment? {
    if k < |ss| then ss[k] else null
  }

  ghost predicate Distinct(ss: seq<Segment>) {
    forall i, j :: 0 <= i < j < |ss| ==> ss[i] != ss[j]
  }

  ghost predicate Disjoint(a: seq<Segment>, b: seq<Segment>) {
    forall s :: s in a ==> s !in b
  }

  ghost function Owned(ss: seq<Segment>): set<Segment> {
    set s | s in ss
  }

  lemma OwnedJoin(a: seq<Segment>, b: seq<Segment>)
    ensures Owned(a + b) == Owned(a) + Owned(b)
  {
  }

  /** The data of the segments of a list, in order. */
  ghost function Datas(ss: seq<Segment>): (ds: seq<Data>)
    reads ss
    ensures |ds| == |ss|
    ensures forall i :: 0 <= i < |ss| ==> ds[i] == ss[i].bytes
  {
    seq(|ss|, i requires 0 <= i < |ss| reads ss => ss[i].bytes)
  }

  /** Cutting a list before one of its segments. */
  lemma TailIsList(head: Segment?, ss: seq<Segment>, k: nat)
    requires IsList(head, ss) && k <= |ss|
    ensures IsList(At(ss, k), ss[k..])
  {
    var tail := ss[k..];
    forall i {:trigger tail[i].next} | 0 <= i < |tail|
      ensures tail[i].next == At(tail, i + 1)
    {
      assert tail[i] == ss[k + i] && ss[k + i].next == At(ss, k + i + 1);
    }
  }

  class Pool {
    var freeList: Segment?
    var freeCount: nat
    ghost var free: seq<Segment>

    ghost predicate Valid()
      reads this, free
    {
      IsList(freeList, free) && Distinct(free) && freeCount == |free|
    }

    /** Links all the segments of the pool into the free list. */
    constructor (segments: seq<Segment>)
      requires Distinct(segments)
      modifies segments
      ensures Valid() && free == segments
    {
      freeList := if segments == [] then null else segments[0];
      freeCount := |segments|;
      free := segments;
      new;
      for i := 0 to |segments|
        invariant freeList == At(segments, 0) && freeCount == |segments| && free == segments
        invariant forall k {:trigger segments[k].next} :: 0 <= k < i ==> segments[k].next == At(segments, k + 1)
      {
        segments[i].next := if i + 1 < |segments| then segments[i + 1] else null;
      }
    }

    method SegmentsAvailable() returns (n: nat)
      requires Valid()
      ensures n == |free|
    {
      n := freeCount;
    }

    /** Takes one segment from the free list. */
    method Alloc() returns (segment: Segment?)
      requires Valid()
      modifies this, free
      ensures Valid()
      ensures old(free) == [] ==> segment == null && free == []
      ensures old(free) != [] ==>
                segment == old(free)[0] && segment.next == null && free == old(free)[1..]
      ensures forall s :: s in old(free) ==> s.bytes == old(s.bytes)
    {
      segment := freeList;
      if segment != null {
        TailIsList(freeList, free, 1);
        freeList := segment.next;
        segment.next := null;
        freeCount := freeCount - 1;
        free := free[1..];
      }
    }

    /** Returns one segment to the free list. */
    method Free(segment: Segment?)
      requires Valid() && (segment != null ==> segment !in free)
      modifies this, segment
      ensures Valid()
      ensures free == if segment == null then old(free) else [segment] + old(free)
      ensures segment != null ==> segment.bytes == old(segment.bytes)
    {
      if segment != null {
        segment.next := freeList;
        freeList := segment;
        freeCount := freeCount + 1;
        free := [segment] + free;
        assert forall i {:trigger free[i].next} :: 0 < i < |free| ==> free[i].next == At(old(free), i);
      }
    }

    /** Takes a list of segments from the front of the free list, or nothing if there are too few. */
    method AllocSegments(count: nat) returns (result: Segment?)
      requires Valid() && count >= 1
      modifies this, free
      ensures Valid()
      ensures result == null <==> count > |old(free)|
      ensures result == null ==> free == old(free) && freeList == old(freeList)
                                 && forall s :: s in free ==> s.next == old(s.next)
      ensures result != null ==> IsList(result, old(free)[..count]) && free == old(free)[count..]
      ensures result != null ==> Distinct(old(free)[..count]) && Disjoint(old(free)[..count], free)
      ensures forall s :: s in old(free) ==> s.bytes == old(s.bytes)
    {
      result := null;
      if count <= freeCount {
        var segment := freeList;
        for i := 1 to count
          invariant segment == free[i - 1]
        {
          segment := segment.next;
        }
        TailIsList(freeList, free, count);
        result := freeList;
        freeList := segment.next;
        segment.next := null;
        freeCount := freeCount - count;
        free := free[count..];
        CutList(old(free), count);
        CutDistinct(old(free), count);
      }
    }

    /** Returns a list of segments to the front of the free list. */
    method FreeSegments(freeSegments: Segment?, ghost ss: seq<Segment>)
      requires Valid() && IsList(freeSegments, ss) && Distinct(ss) && Disjoint(ss, free)
      modifies this, ss
      ensures Valid() && free == ss + old(free)
      ensures forall s :: s in ss ==> s.bytes == old(s.bytes)
    {
      var segmentCount := 0;
      if freeSegments != null {
        segmentCount := 1;
        var segment := freeSegments;
        while segment.next != null
          invariant 1 <= segmentCount <= |ss| && segment == ss[segmentCount - 1]
          decreases |ss| - segmentCount
        {
          segmentCount := segmentCount + 1;
          segment := segment.next;
        }
        assert segment in ss && forall i :: 0 <= i < |free| ==> free[i] != segment;
        segment.next := freeList;
        freeList := freeSegments;
        JoinLists(ss, free);
      } else {
        assert ss + free == free;
      }
      JoinDistinct(ss, free);
      freeCount := freeCount + segmentCount;
      free := ss + free;
    }
  }

  lemma CutList(ss: seq<Segment>, k: nat)
    requires 0 < k <= |ss| && Distinct(ss)
    requires forall i {:trigger ss[i].next} :: 0 <= i < k - 1 ==> ss[i].next == ss[i + 1]
    requires ss[k - 1].next == null
    ensures IsList(ss[0], ss[..k])
  {
  }

  /** Linking the end of one list to the start of another. */
  lemma JoinLists(a: seq<Segment>, b: seq<Segment>)
    requires a != [] && a[|a| - 1].next == At(b, 0)
    requires forall i {:trigger a[i].next} :: 0 <= i < |a| - 1 ==> a[i].next == a[i + 1]
    requires forall i {:trigger b[i].next} :: 0 <= i < |b| ==> b[i].next == At(b, i + 1)
    ensures IsList(a[0], a + b)
  {
    var ss := a + b;
    forall i {:trigger ss[i].next} | 0 <= i < |ss|
      ensures ss[i].next == At(ss, i + 1)
    {
      if i >= |a| {
        assert ss[i] == b[i - |a|] && b[i - |a|].next == At(b, i - |a| + 1);
      } else {
        assert ss[i] == a[i];
      }
    }
  }

  lemma JoinDistinct(a: seq<Segment>, b: seq<Segment>)
    requires Distinct(a) && Distinct(b) && Disjoint(a, b)
    ensures Distinct(a + b)
    ensures Owned(a + b) == Owned(a) + Owned(b)
  {
    forall i, j | 0 <= i < j < |a + b|
      ensures (a + b)[i] != (a + b)[j]
    {
      if i < |a| <= j {
        assert a[i] in a && b[j - |a|] in b;
      }
    }
  }

  lemma CutDistinct(ss: seq<Segment>, k: nat)
    requires Distinct(ss) && k <= |ss|
    ensures Distinct(ss[..k]) && Distinct(ss[k..])
    ensures Disjoint(ss[..k], ss[k..]) && Disjoint(ss[k..], ss[..k])
    ensures ss == ss[..k] + ss[k..] && Owned(ss) == Owned(ss[..k]) + Owned(ss[k..])
  {
  }

  lemma EmptyList()
    ensures IsList(null, []) && Distinct([]) && Owned([]) == {}
    ensures forall ss :: Disjoint([], ss) && Disjoint(ss, [])
  {
  }

  lemma DisjointCut(a: seq<Segment>, ss: seq<Segment>, k: nat)
    requires Disjoint(a, ss) && k <= |ss|
    ensures Disjoint(a, ss[..k]) && Disjoint(a, ss[k..])
    ensures Disjoint(ss[..k], a) && Disjoint(ss[k..], a)
  {
    forall s | s in ss[..k] || s in ss[k..]
      ensures s !in a
    {
    }
  }

  lemma DisjointJoin(a: seq<Segment>, b: seq<Segment>, c: seq<Segment>)
    requires Disjoint(a, c) && Disjoint(b, c)
    ensures Disjoint(a + b, c) && Disjoint(c, a + b)
  {
  }

  /** Counts the segments of a list and finds the last one. */
  method CountSegments(list: Segment?, ghost ss: seq<Segment>) returns (count: nat, last: Segment?)
    requires IsList(list, ss)
    ensures count == |ss| && last == if ss == [] then null else ss[|ss| - 1]
  {
    count, last := 0, null;
    var cursor := list;
    while cursor != null
      invariant count <= |ss| && cursor == At(ss, count)
      invariant last == if count == 0 then null else ss[count - 1]
      decreases |ss| - count
    {
      last, cursor, count := cursor, cursor.next, count + 1;
    }
  }

  /** Links one list to the end of another. */
  method LinkAfter(list: Segment?, ghost a: seq<Segment>, last: Segment, more: Segment?, ghost b: seq<Segment>)
    requires IsList(list, a) && Distinct(a) && a != [] && last == a[|a| - 1]
    requires IsList(more, b) && Distinct(b) && Disjoint(a, b)
    modifies last`next
    ensures IsList(list, a + b) && Distinct(a + b)
  {
    assert last in a && forall i :: 0 <= i < |b| ==> b[i] != last;
    last.next := more;
    JoinLists(a, b);
    JoinDistinct(a, b);
  }

  lemma AtIs(ss: seq<Segment>)
    ensures forall k: nat :: At(ss, k) == if k < |ss| then ss[k] else null
  {
  }
}
