/** Compaction of a littlefs metadata log: which tags it keeps, and that no lookup can tell. */
module LfsCompact {
  import opened Words
  import opened LfsLog

  /** Does the later tag t make the tag f, whose id is the one f has just before t, superfluous? */
  predicate Redundant(f: Entry, t: Entry) {
    var mask := if t.Type1() % 2 == 1 then M7FF else M700;
    || (Masked(mask, t.kind) == Masked(mask, f.kind) && t.id == f.id)
    || f.IsDelete()
    || (t.kind == TYPE_DELETE && t.id == f.id)
  }

  /** The tag f after passing one later tag: dropped, renumbered or unchanged. */
  function FilterStep(f: Entry, t: Entry): Option {
    if Redundant(f, t) then None
    else if t.IsSplice() && t.id <= f.id then Some(f.(id := f.id + t.Splice()))
    else Some(f)
  }

  /** The tag f after passing all the later tags, oldest first. */
  function Survive(f: Entry, later: seq<Entry>): Option
    decreases |later|
  {
    if later == [] then Some(f)
    else
      match FilterStep(f, later[0])
      case None => None
      case Some(f') => Survive(f', later[1..])
  }

  predicate InRange(f: Option, begin: nat, end: nat) {
    f.Some? && begin <= f.value.id < end
  }

  /** What compaction writes for the oldest tag of a log. */
  function Emitted(log: seq<Entry>, begin: nat, end: nat): seq<Entry>
    requires log != []
  {
    if log[0].kind >= 0x400 then []
    else
      var f := Survive(log[0], log[1..]);
      if InRange(f, begin, end) then [f.value.(id := f.value.id - begin)] else []
  }

  /** The compacted log: entries begin to end, renumbered from zero, without splices. */
  function Compacted(log: seq<Entry>, begin: nat, end: nat): seq<Entry> {
    if log == [] then [] else Emitted(log, begin, end) + Compacted(log[1..], begin, end)
  }

  // ---- classes: what the filter treats as the same value

  predicate IsClass(k: Query) {
    (k.mask == M700 && (k.kind == 0 || k.kind == 0x200)) || (k.mask == M7FF && k.kind / 0x100 == 3)
  }

  /** Names and structs form one class each, every user attribute its own. */
  function ClassOf(kind: nat): (k: Query)
    ensures Matches(k, kind)
  {
    if kind / 0x100 == 3 then Query(M7FF, kind) else Query(M700, kind / 0x100 * 0x100)
  }

  /** Query q asks for some of the values of class k. */
  predicate Within(q: Query, k: Query) {
    Matches(k, q.kind) && (k.mask == M7FF ==> q.mask == M7FF)
  }

  lemma WithinClass(q: Query, k: Query, kind: nat)
    requires IsClass(k) && Within(q, k)
    ensures Matches(q, kind) ==> Matches(k, kind)
    ensures Matches(k, kind) <==> ClassOf(kind) == k
  {
  }

  lemma BackConcat(older: seq<Entry>, newer: seq<Entry>, id: int, q: Query)
    ensures Back(older + newer, id, q) ==
            match Back(newer, id, q)
            case Pass(id') => Back(older, id', q)
            case t => t
    decreases |newer|
  {
    if newer == [] {
      assert older + newer == older;
    } else {
      var n := |newer| - 1;
      assert (older + newer)[..|older| + n] == older + newer[..n];
      var t := BackStep(newer[n], id, q);
      if t.Pass? {
        BackConcat(older, newer[..n], t.id, q);
      }
    }
  }

  /** A tag as the filter sees it: its id may have been moved, even past the ids a log can hold. */
  predicate Filterable(f: Entry) {
    f.id >= 0 && f.kind < 0x400 && f.Type1() != 1
  }

  lemma BackStepFacts(t: Entry, id: nat, q: Query)
    requires Loggable(t) && ValidQuery(q)
    ensures BackStep(t, id, q).Pass? ==> BackStep(t, id, q).id >= 0
    ensures t.kind == TYPE_CREATE ==> t.Splice() == 1
    ensures t.kind == TYPE_DELETE ==> t.Splice() == -1
    ensures t.Type1() >= 4 ==> !Matches(q, t.kind)
  {
  }

  /** One tag: the filter moves forward exactly as the search moves backward. */
  lemma FilterStepInverse(f: Entry, t: Entry)
    requires Filterable(f) && Loggable(t) && !f.IsDelete()
    ensures var r := FilterStep(f, t);
            && (r.Some? ==> Filterable(r.value) && r.value == f.(id := r.value.id))
            && forall id: nat :: r == Some(f.(id := id)) <==> BackStep(t, id, ClassOf(f.kind)) == Pass(f.id)
  {
    BackStepFacts(t, f.id, ClassOf(f.kind));
  }

  lemma {:induction false} BackStaysNatural(log: seq<Entry>, id: nat, q: Query)
    requires LoggableAll(log) && ValidQuery(q)
    ensures Back(log, id, q).Pass? ==> Back(log, id, q).id >= 0
    decreases |log|
  {
    if log != [] {
      BackStepFacts(log[|log| - 1], id, q);
      var t := BackStep(log[|log| - 1], id, q);
      if t.Pass? {
        BackStaysNatural(log[..|log| - 1], t.id, q);
      }
    }
  }

  /** A tag survives as the value of entry id exactly when the search for that entry, started
      from the newest tag, gets to it. */
  lemma {:induction false} SurviveInverse(f: Entry, later: seq<Entry>, id: nat)
    requires Filterable(f) && LoggableAll(later)
    ensures Survive(f, later) == Some(f.(id := id))
            <==> Back(later, id, ClassOf(f.kind)) == Pass(f.id) && (later == [] || !f.IsDelete())
    decreases |later|
  {
    if later != [] && !f.IsDelete() {
      var t, rest := later[0], later[1..];
      var k := ClassOf(f.kind);
      assert later == [t] + rest;
      BackConcat([t], rest, id, k);
      BackStaysNatural(rest, id, k);
      FilterStepInverse(f, t);
      var back := Back(rest, id, k);
      assert back.Pass? ==> Back([t], back.id, k) == BackStep(t, back.id, k);
      var r := FilterStep(f, t);
      if r.Some? {
        SurviveInverse(r.value, rest, id);
        assert r.value.(id := id) == f.(id := id);
      }
    }
  }

  lemma {:induction false} SurviveKeeps(f: Entry, later: seq<Entry>)
    requires Filterable(f) && LoggableAll(later)
    ensures var s := Survive(f, later); s.Some? ==> s.value.id >= 0 && s.value == f.(id := s.value.id)
    decreases |later|
  {
    if later != [] && !f.IsDelete() {
      FilterStepInverse(f, later[0]);
      var r := FilterStep(f, later[0]);
      if r.Some? {
        SurviveKeeps(r.value, later[1..]);
      }
    }
  }

  /** Compaction writes tags that a log may hold. */
  lemma {:induction false} CompactedLoggable(log: seq<Entry>, begin: nat, end: nat)
    requires LoggableAll(log) && begin <= end <= NO_ID
    ensures LoggableAll(Compacted(log, begin, end))
    ensures forall e :: e in Compacted(log, begin, end) ==> e.kind < 0x400 && 0 <= e.id < end - begin
    decreases |log|
  {
    if log != [] {
      CompactedLoggable(log[1..], begin, end);
      if log[0].kind < 0x400 {
        SurviveKeeps(log[0], log[1..]);
      }
    }
  }

  /** How the search in the compacted log relates to the search, for the whole class, in the log. */
  ghost predicate Agree(x: Trail, y: Trail, id: nat, begin: nat, q: Query)
    requires begin <= id
  {
    && !x.Created?
    && (x.Pass? ==> x.id == id - begin)
    && (x.Hit? ==> y.Hit? && Matches(q, y.e.kind) && x.e == y.e.(id := id - begin))
    && (y.Hit? && Matches(q, y.e.kind) && !y.e.IsDelete() ==> x.Hit?)
  }

  /** The search inside what one tag leaves behind. */
  lemma EmittedAgrees(log: seq<Entry>, begin: nat, end: nat, id: nat, q: Query, k: Query)
    requires log != [] && LoggableAll(log) && begin <= id < end
    requires ValidQuery(q) && IsClass(k) && Within(q, k)
    requires Back(log[1..], id, k).Pass?
    ensures Agree(Back(Emitted(log, begin, end), id - begin, q), Back(log, id, k), id, begin, q)
  {
    var t, rest := log[0], log[1..];
    var back := Back(rest, id, k);
    assert log == [t] + rest;
    BackConcat([t], rest, id, k);
    BackStaysNatural(rest, id, k);
    assert Back([t], back.id, k) == BackStep(t, back.id, k);
    BackStepFacts(t, back.id, k);
    var c := Emitted(log, begin, end);
    if t.kind >= 0x400 {
      assert c == [];
    } else {
      WithinClass(q, k, t.kind);
      SurviveInverse(t, rest, id);
      SurviveKeeps(t, rest);
      if c != [] {
        assert Back(c, id - begin, q) == BackStep(c[0], id - begin, q);
      }
    }
  }

  lemma EmittedMissed(log: seq<Entry>, begin: nat, end: nat, id: nat, q: Query, k: Query)
    requires log != [] && LoggableAll(log) && begin <= id < end
    requires ValidQuery(q) && IsClass(k) && Within(q, k)
    requires !Back(log[1..], id, k).Pass?
    ensures Back(Emitted(log, begin, end), id - begin, q) == Pass(id - begin)
  {
    var t, rest := log[0], log[1..];
    var c := Emitted(log, begin, end);
    if c != [] {
      WithinClass(q, k, t.kind);
      SurviveInverse(t, rest, id);
      SurviveKeeps(t, rest);
      assert Back(c, id - begin, q) == BackStep(c[0], id - begin, q);
    }
  }

  /** The search past what one tag leaves behind. */
  lemma EmittedThenRest(log: seq<Entry>, begin: nat, end: nat, id: nat, q: Query, k: Query)
    requires log != [] && LoggableAll(log) && begin <= id < end
    requires ValidQuery(q) && IsClass(k) && Within(q, k)
    requires Agree(Back(Compacted(log[1..], begin, end), id - begin, q), Back(log[1..], id, k), id, begin, q)
    ensures Agree(Back(Compacted(log, begin, end), id - begin, q), Back(log, id, k), id, begin, q)
  {
    hide Emitted, BackStep, Back, Matches, Loggable, ValidQuery, IsClass, Within;
    var rest := log[1..];
    BackConcat(Emitted(log, begin, end), Compacted(rest, begin, end), id - begin, q);
    assert log == log[..1] + rest;
    BackConcat(log[..1], rest, id, k);
    if Back(rest, id, k).Pass? {
      EmittedAgrees(log, begin, end, id, q, k);
    } else {
      EmittedMissed(log, begin, end, id, q, k);
    }
  }

  lemma {:induction false} CompactionAgrees(log: seq<Entry>, begin: nat, end: nat, id: nat, q: Query, k: Query)
    requires LoggableAll(log) && begin <= id < end
    requires ValidQuery(q) && IsClass(k) && Within(q, k)
    ensures Agree(Back(Compacted(log, begin, end), id - begin, q), Back(log, id, k), id, begin, q)
    decreases |log|
  {
    if log != [] {
      hide Agree, Loggable, Back, Compacted, Within, IsClass, ValidQuery;
      CompactionAgrees(log[1..], begin, end, id, q, k);
      EmittedThenRest(log, begin, end, id, q, k);
    }
  }

  /** A value as lookups report it: the tag with the id that was asked for. */
  function At(f: Option, id: int): Option {
    match f
    case None => None
    case Some(e) => Some(e.(id := id))
  }

  /** Compaction preserves meaning: every name, struct and user attribute lookup of an entry in
      the kept range returns what it returned before, for the renumbered entry. */
  lemma CompactionPreservesLookups(log: seq<Entry>, begin: nat, end: nat, id: nat, k: Query)
    requires LoggableAll(log) && begin <= id < end && IsClass(k)
    ensures Found(Back(Compacted(log, begin, end), id - begin, k)) == At(Found(Back(log, id, k)), id - begin)
  {
    CompactionAgrees(log, begin, end, id, k, k);
    BackHitMatches(log, id, k);
  }

  /** A lookup with a finer mask than the class it belongs to (a name through 0x780, or one exact
      struct type) finds, after compaction, the newest value of the class if that matches; so it
      is unchanged exactly when the newest value of the class matches, or nothing was found. */
  lemma FinerLookupAfterCompaction(log: seq<Entry>, begin: nat, end: nat, id: nat, q: Query, k: Query)
    requires LoggableAll(log) && begin <= id < end
    requires ValidQuery(q) && IsClass(k) && Within(q, k)
    ensures var newest := Found(Back(log, id, k));
            var before := Found(Back(log, id, q));
            var after := Found(Back(Compacted(log, begin, end), id - begin, q));
            && after == (if newest.Some? && Matches(q, newest.value.kind) then At(newest, id - begin) else None)
            && (after == At(before, id - begin) <==>
                before == None || (newest.Some? && Matches(q, newest.value.kind)))
  {
    CompactionAgrees(log, begin, end, id, q, k);
    FinerSearch(log, id, q, k);
  }

  /** The same, said of the entries themselves: replaying the compacted log gives entry id - begin
      the newest name, struct and user attributes that replaying the log gives entry id. */
  lemma CompactionPreservesReplay(log: seq<Entry>, begin: nat, end: nat, id: nat, k: Query)
    requires LoggableAll(log) && begin <= id < end <= NO_ID && IsClass(k)
    ensures LoggableAll(Compacted(log, begin, end))
    ensures Newest(HistoryOf(Replay(Compacted(log, begin, end)), id - begin), k)
         == At(Newest(HistoryOf(Replay(log), id), k), id - begin)
  {
    hide Compacted, Back, Found, Newest, HistoryOf, Replay, At, Loggable;
    CompactedLoggable(log, begin, end);
    BackwardSearchIsReplay(log, id, k);
    BackwardSearchIsReplay(Compacted(log, begin, end), id - begin, k);
    CompactionPreservesLookups(log, begin, end, id, k);
  }

  /** The masks differ in earnest: an inline struct replaced by another kind of struct is still
      found by its exact type, until the log is compacted. */
  lemma StaleStructIsForgotten()
    ensures var log := [Entry(0x201, 0, 0, []), Entry(0x202, 0, 0, [])];
            var q := Query(M7FF, 0x201);
            && LoggableAll(log) && Within(q, Query(M700, 0x200))
            && Found(Back(log, 0, q)) == Some(log[0])
            && Found(Back(Compacted(log, 0, 1), 0, q)) == None
  {
    hide Compacted, Emitted, Survive;
    var log := [Entry(0x201, 0, 0, []), Entry(0x202, 0, 0, [])];
    var q, k := Query(M7FF, 0x201), Query(M700, 0x200);
    assert log[..1] == [log[0]];
    assert BackStep(log[1], 0, q) == Pass(0) && BackStep(log[0], 0, q) == Hit(log[0]);
    assert BackStep(log[1], 0, k) == Hit(log[1]);
    FinerLookupAfterCompaction(log, 0, 1, 0, q, k);
  }

  lemma {:induction false} BackHitMatches(log: seq<Entry>, id: int, q: Query)
    ensures Back(log, id, q).Hit? ==> Matches(q, Back(log, id, q).e.kind)
    decreases |log|
  {
    if log != [] {
      var t := BackStep(log[|log| - 1], id, q);
      if t.Pass? {
        BackHitMatches(log[..|log| - 1], t.id, q);
      }
    }
  }

  /** If the newest value of a class matches a finer query, it is what that query finds. */
  lemma {:induction false} FinerSearch(log: seq<Entry>, id: int, q: Query, k: Query)
    requires Within(q, k) && IsClass(k)
    ensures var t := Back(log, id, k); t.Hit? && Matches(q, t.e.kind) ==> Back(log, id, q) == t
    decreases |log|
  {
    if log != [] {
      var t := BackStep(log[|log| - 1], id, k);
      if t.Pass? {
        FinerSearch(log[..|log| - 1], t.id, q, k);
      }
    }
  }
}
