/** Walking the tail list of metadata pairs, with Brent's algorithm to detect cycles. */
module LfsTail {
  import opened Words

  const BLOCK_NULL: uint32 := 0xFFFF_FFFF

  /** A metadata pair, whose two blocks may come in either order. */
  datatype Pair = Pair(a: uint32, b: uint32)

  predicate IsNull(p: Pair) {
    p.a == BLOCK_NULL || p.b == BLOCK_NULL
  }

  predicate IsSync(p: Pair, q: Pair) {
    (p.a == q.a && p.b == q.b) || (p.a == q.b && p.b == q.a)
  }

  /** The order of the blocks forgotten. */
  function Sorted(p: Pair): (q: Pair)
    ensures forall r :: IsSync(p, r) <==> q == if r.a <= r.b then r else Pair(r.b, r.a)
  {
    if p.a <= p.b then p else Pair(p.b, p.a)
  }

  /** The tail that each pair of a disk holds: every pair that is not null can be fetched, in either order. */
  ghost predicate Closed(tails: map<Pair, Pair>) {
    forall p :: p in tails ==> Fetchable(tails, tails[p])
  }

  predicate Fetchable(tails: map<Pair, Pair>, p: Pair) {
    IsNull(p) || Sorted(p) in tails
  }

  function Fetch(tails: map<Pair, Pair>, p: Pair): (q: Pair)
    requires Sorted(p) in tails
  {
    tails[Sorted(p)]
  }

  /** The pair after n steps; the null pair has no successor but itself. */
  ghost function Walk(tails: map<Pair, Pair>, start: Pair, n: nat): (p: Pair)
    requires Closed(tails) && Fetchable(tails, start)
    ensures Fetchable(tails, p)
  {
    if n == 0 then start
    else
      var p := Walk(tails, start, n - 1);
      if IsNull(p) then p else Fetch(tails, p)
  }

  lemma WalkStep(tails: map<Pair, Pair>, start: Pair, n: nat)
    requires Closed(tails) && Fetchable(tails, start)
    ensures Walk(tails, start, 0) == start
    ensures IsNull(Walk(tails, start, n)) ==> Walk(tails, start, n + 1) == Walk(tails, start, n)
    ensures !IsNull(Walk(tails, start, n)) ==>
              && Sorted(Walk(tails, start, n)) in tails
              && Walk(tails, start, n + 1) == Fetch(tails, Walk(tails, start, n))
  {
    hide IsNull, Sorted, Closed;
  }

  lemma SyncAlike(p: Pair, q: Pair)
    requires IsSync(p, q)
    ensures IsSync(q, p) && IsNull(p) == IsNull(q) && Sorted(p) == Sorted(q)
  {
  }

  lemma SyncSelf(p: Pair)
    ensures IsSync(p, p)
  {
  }

  /** Pairs in sync stay in sync. */
  lemma {:induction false} WalksAlike(tails: map<Pair, Pair>, start: Pair, i: nat, j: nat, d: nat)
    requires Closed(tails) && Fetchable(tails, start) && IsSync(Walk(tails, start, i), Walk(tails, start, j))
    ensures IsSync(Walk(tails, start, i + d), Walk(tails, start, j + d))
  {
    hide Walk, IsSync, IsNull, Sorted, Closed;
    if d > 0 {
      WalksAlike(tails, start, i, j, d - 1);
      var p, q := Walk(tails, start, i + d - 1), Walk(tails, start, j + d - 1);
      SyncAlike(p, q);
      WalkStep(tails, start, i + d - 1);
      WalkStep(tails, start, j + d - 1);
      if !IsNull(p) {
        SyncSelf(Fetch(tails, p));
      }
    }
  }

  lemma {:induction false} NullStays(tails: map<Pair, Pair>, start: Pair, i: nat, j: nat)
    requires Closed(tails) && Fetchable(tails, start) && i <= j && IsNull(Walk(tails, start, i))
    ensures Walk(tails, start, j) == Walk(tails, start, i)
  {
    hide Walk, IsNull, Closed;
    if i < j {
      NullStays(tails, start, i, j - 1);
      WalkStep(tails, start, j - 1);
    }
  }

  /** A list with a pair that comes again never ends. */
  lemma {:induction false} RepeatNeverEnds(tails: map<Pair, Pair>, start: Pair, i: nat, j: nat, n: nat)
    requires Closed(tails) && Fetchable(tails, start) && i < j
    requires IsSync(Walk(tails, start, i), Walk(tails, start, j)) && !IsNull(Walk(tails, start, j))
    ensures !IsNull(Walk(tails, start, n))
    decreases n
  {
    hide Walk, IsNull, IsSync, Closed, Fetchable;
    if IsNull(Walk(tails, start, n)) {
      if n <= j {
        NullStays(tails, start, n, j);
      } else {
        var d := n - j;
        WalksAlike(tails, start, i, j, d);
        SyncAlike(Walk(tails, start, i + d), Walk(tails, start, j + d));
        RepeatNeverEnds(tails, start, i, j, i + d);
      }
    }
  }

  /** More distinct elements than a set has do not fit in it. */
  lemma {:induction false} TooMany(s: seq<Pair>, a: set<Pair>)
    requires forall i :: 0 <= i < |s| ==> s[i] in a
    requires forall i, j :: 0 <= i < j < |s| ==> s[i] != s[j]
    ensures |s| <= |a|
    decreases |s|
  {
    if s != [] {
      var last := s[|s| - 1];
      TooMany(s[..|s| - 1], a - {last});
    }
  }

  /** A list that goes on for long enough repeats a pair. */
  lemma SomePairRepeats(tails: map<Pair, Pair>, start: Pair) returns (i: nat, j: nat)
    requires Closed(tails) && Fetchable(tails, start)
    requires forall k :: 0 <= k <= |tails| ==> !IsNull(Walk(tails, start, k))
    ensures i < j <= |tails| && IsSync(Walk(tails, start, i), Walk(tails, start, j))
  {
    hide Walk, Closed;
    var s := seq(|tails| + 1, k requires 0 <= k => Sorted(Walk(tails, start, k)));
    if forall i, j :: 0 <= i < j < |s| ==> s[i] != s[j] {
      assert forall k :: 0 <= k < |s| ==> s[k] in tails.Keys;
      TooMany(s, tails.Keys);
      assert false;
    }
    i, j :| 0 <= i < j < |s| && s[i] == s[j];
  }

  /** Between m and n no pair is in sync with the one at m. */
  ghost predicate NoneLike(tails: map<Pair, Pair>, start: Pair, m: nat, n: nat)
    requires Closed(tails) && Fetchable(tails, start)
  {
    forall k: nat :: m < k < n ==> !IsSync(Walk(tails, start, k), Walk(tails, start, m))
  }

  lemma OneMoreUnlike(tails: map<Pair, Pair>, start: Pair, m: nat, n: nat)
    requires Closed(tails) && Fetchable(tails, start) && m <= n
    requires m < n ==> NoneLike(tails, start, m, n) && !IsSync(Walk(tails, start, n), Walk(tails, start, m))
    ensures NoneLike(tails, start, m, n + 1)
  {
    hide Walk, IsSync, Closed, Fetchable;
  }

  /** The pairs visited are those of the walk. */
  ghost predicate Visits(tails: map<Pair, Pair>, start: Pair, visited: seq<Pair>)
    requires Closed(tails) && Fetchable(tails, start)
  {
    forall k {:trigger visited[k]} :: 0 <= k < |visited| ==>
      visited[k] == Walk(tails, start, k) && !IsNull(visited[k])
  }

  lemma VisitsNone(tails: map<Pair, Pair>, start: Pair)
    requires Closed(tails) && Fetchable(tails, start)
    ensures Visits(tails, start, [])
  {
  }

  lemma VisitsMore(tails: map<Pair, Pair>, start: Pair, visited: seq<Pair>)
    requires Closed(tails) && Fetchable(tails, start)
    requires Visits(tails, start, visited) && !IsNull(Walk(tails, start, |visited|))
    ensures Visits(tails, start, visited + [Walk(tails, start, |visited|)])
  {
    hide Walk, IsNull, Closed, Fetchable;
  }

  /** If no pair is like that at m, up to n, then n is not far from m, or m not far from the start. */
  lemma NotForLong(tails: map<Pair, Pair>, start: Pair, m: nat, n: nat)
    requires Closed(tails) && Fetchable(tails, start) && |tails| <= m < n && !IsNull(Walk(tails, start, n - 1))
    requires NoneLike(tails, start, m, n)
    ensures n <= m + |tails|
  {
    hide Walk, IsSync, Closed, Fetchable;
    if n > m + |tails| {
      forall k: nat | k <= |tails|
        ensures !IsNull(Walk(tails, start, k))
      {
        if IsNull(Walk(tails, start, k)) {
          NullStays(tails, start, k, n - 1);
        }
      }
      var i, j := SomePairRepeats(tails, start);
      var k := j + (m - i);
      WalksAlike(tails, start, i, j, m - i);
      assert i + (m - i) == m;
      SyncAlike(Walk(tails, start, m), Walk(tails, start, k));
    }
  }

  /** The tortoise waits at the pair it has been put on, and nothing since then is in sync with that. */
  ghost predicate Watching(tails: map<Pair, Pair>, start: Pair, pair: Pair, i: nat, period: nat, n: nat)
    requires Closed(tails) && Fetchable(tails, start)
  {
    && 1 <= i <= period && n == period - 2 + i
    && if period == 1 then IsNull(pair)
       else
         && period >= 2 && period - 2 <= 2 * |tails|
         && pair == Walk(tails, start, period - 2) && NoneLike(tails, start, period - 2, n)
  }

  /** One step of a watch that catches nothing: it has not gone on for long. */
  lemma StillWatching(tails: map<Pair, Pair>, start: Pair, pair: Pair, i: nat, period: nat, n: nat)
    requires Closed(tails) && Fetchable(tails, start) && Watching(tails, start, pair, i, period, n)
    requires var tail := Walk(tails, start, n); !IsNull(tail) && !IsSync(tail, pair)
    ensures n + 1 <= 3 * |tails| + 2
    ensures if i == period then Watching(tails, start, Walk(tails, start, n), 1, 2 * period, n + 1)
            else Watching(tails, start, pair, i + 1, period, n + 1)
  {
    hide Walk, IsSync, Closed, Fetchable, IsNull, NoneLike;
    var m := period - 2;
    if m >= 0 {
      OneMoreUnlike(tails, start, m, n);
      if m >= |tails| {
        NotForLong(tails, start, m, n + 1);
      }
    }
    OneMoreUnlike(tails, start, n, n);
  }

  lemma Caught(tails: map<Pair, Pair>, start: Pair, pair: Pair, i: nat, period: nat, visited: seq<Pair>)
    requires Closed(tails) && Fetchable(tails, start) && Watching(tails, start, pair, i, period, |visited|)
    requires Visits(tails, start, visited)
    requires var tail := Walk(tails, start, |visited|); !IsNull(tail) && IsSync(tail, pair)
    ensures exists i :: 0 <= i < |visited| && IsSync(visited[i], Walk(tails, start, |visited|))
    ensures forall n: nat :: !IsNull(Walk(tails, start, n))
  {
    hide Walk, IsSync, Closed, Fetchable, IsNull, NoneLike;
    SyncAlike(Walk(tails, start, |visited|), pair);
    RepeatForever(tails, start, period - 2, |visited|);
    assert IsSync(visited[period - 2], Walk(tails, start, |visited|));
  }

  class Tortoise {
    var pair: Pair
    var i: nat
    var period: nat

    constructor ()
      ensures pair == Pair(BLOCK_NULL, BLOCK_NULL) && i == 1 && period == 1
    {
      pair := Pair(BLOCK_NULL, BLOCK_NULL);
      i, period := 1, 1;
    }

    /** One step of the detection. */
    method DetectCycles(tail: Pair) returns (corrupt: bool)
      modifies this
      ensures corrupt == IsSync(tail, old(pair))
      ensures corrupt ==> pair == old(pair) && i == old(i) && period == old(period)
      ensures !corrupt && old(i) == old(period) ==> pair == tail && i == 1 && period == 2 * old(period)
      ensures !corrupt && old(i) != old(period) ==> pair == old(pair) && i == old(i) + 1 && period == old(period)
    {
      if IsSync(tail, pair) {
        return true;
      }
      if i == period {
        pair := tail;
        i := 0;
        period := period * 2;
      }
      i := i + 1;
      corrupt := false;
    }
  }

  /** Walks the tail list as a mount does.  It always ends: with every pair of the list visited once, or
      with an error exactly if the list never ends. */
  method Traverse(tails: map<Pair, Pair>, start: Pair) returns (corrupt: bool, visited: seq<Pair>)
    requires Closed(tails) && Fetchable(tails, start)
    ensures Visits(tails, start, visited)
    ensures !corrupt ==> IsNull(Walk(tails, start, |visited|))
                         && forall i, j :: 0 <= i < j < |visited| ==> !IsSync(visited[i], visited[j])
    ensures corrupt ==> exists i :: 0 <= i < |visited| && IsSync(visited[i], Walk(tails, start, |visited|))
    ensures corrupt <==> forall n: nat :: !IsNull(Walk(tails, start, n))
    ensures |visited| <= 3 * |tails| + 2
  {
    hide Walk, IsSync, Closed, Fetchable, IsNull, Sorted, Watching, Visits;
    var tail := start;
    WalkStep(tails, start, 0);
    StartsWatching(tails, start);
    visited, corrupt := [], false;
    VisitsNone(tails, start);
    var tortoise := new Tortoise();
    while !IsNull(tail)
      invariant tail == Walk(tails, start, |visited|)
      invariant Visits(tails, start, visited)
      invariant Watching(tails, start, tortoise.pair, tortoise.i, tortoise.period, |visited|)
      invariant |visited| <= 3 * |tails| + 2
      decreases 3 * |tails| + 2 - |visited|
    {
      ghost var n, pair, i, period := |visited|, tortoise.pair, tortoise.i, tortoise.period;
      var detected := tortoise.DetectCycles(tail);
      if detected {
        Caught(tails, start, pair, i, period, visited);
        return true, visited;
      }
      StillWatching(tails, start, pair, i, period, n);
      WalkStep(tails, start, n);
      VisitsMore(tails, start, visited);
      visited := visited + [tail];
      tail := Fetch(tails, tail);
    }
    EndsWithoutRepeats(tails, start, visited);
  }

  lemma EndsWithoutRepeats(tails: map<Pair, Pair>, start: Pair, visited: seq<Pair>)
    requires Closed(tails) && Fetchable(tails, start) && IsNull(Walk(tails, start, |visited|))
    requires Visits(tails, start, visited)
    ensures forall i, j :: 0 <= i < j < |visited| ==> !IsSync(visited[i], visited[j])
  {
    hide Walk, IsSync, Closed, Fetchable, IsNull;
    forall i, j | 0 <= i < j < |visited|
      ensures !IsSync(visited[i], visited[j])
    {
      assert visited[i] == Walk(tails, start, i) && visited[j] == Walk(tails, start, j);
      NoRepeat(tails, start, i, j, |visited|);
    }
  }

  lemma NoRepeat(tails: map<Pair, Pair>, start: Pair, i: nat, j: nat, n: nat)
    requires Closed(tails) && Fetchable(tails, start) && i < j
    requires IsNull(Walk(tails, start, n)) && !IsNull(Walk(tails, start, j))
    ensures !IsSync(Walk(tails, start, i), Walk(tails, start, j))
  {
    hide *;
    if IsSync(Walk(tails, start, i), Walk(tails, start, j)) {
      RepeatNeverEnds(tails, start, i, j, n);
    }
  }

  lemma StartsWatching(tails: map<Pair, Pair>, start: Pair)
    requires Closed(tails) && Fetchable(tails, start)
    ensures Watching(tails, start, Pair(BLOCK_NULL, BLOCK_NULL), 1, 1, 0)
  {
  }

  lemma RepeatForever(tails: map<Pair, Pair>, start: Pair, i: nat, j: nat)
    requires Closed(tails) && Fetchable(tails, start) && i < j
    requires IsSync(Walk(tails, start, i), Walk(tails, start, j)) && !IsNull(Walk(tails, start, j))
    ensures forall n: nat :: !IsNull(Walk(tails, start, n))
  {
    forall n: nat
      ensures !IsNull(Walk(tails, start, n))
    {
      RepeatNeverEnds(tails, start, i, j, n);
    }
  }
}
