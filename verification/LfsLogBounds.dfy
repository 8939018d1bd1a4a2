/** Ids are ten bits wide on disk.  A log that never holds more entries than ids, and that
    numbers an entry into being only before anything was deleted, keeps every id in range, so
    that adding to the id field of a packed tag never carries into the type. */
module LfsLogBounds {
  import opened Words
  import opened LfsLog
  import opened LfsCompact

  predicate NoDeletes(log: seq<Entry>) {
    forall i :: 0 <= i < |log| ==> log[i].kind != TYPE_DELETE
  }

  predicate WellFormed(log: seq<Entry>)
    requires LoggableAll(log)
  {
    log == [] ||
    var older, e := log[..|log| - 1], log[|log| - 1];
    var n := |Replay(older)|;
    && WellFormed(older)
    && |Replay(log)| <= NO_ID
    && (e.id != NO_ID && (if e.kind == TYPE_CREATE then e.id > n else e.kind != TYPE_DELETE && e.id >= n)
        ==> NoDeletes(older))
  }

  /** Entry id of the directory, or an id that no splice ever moved upwards. */
  predicate InBounds(log: seq<Entry>, id: nat)
    requires LoggableAll(log)
  {
    id < |Replay(log)| || (id < NO_ID && NoDeletes(log))
  }

  /** A backward search stays in bounds. */
  lemma BackStepInBounds(log: seq<Entry>, id: nat, q: Query)
    requires log != [] && LoggableAll(log) && WellFormed(log) && InBounds(log, id) && ValidQuery(q)
    ensures id < NO_ID
    ensures var t := BackStep(log[|log| - 1], id, q);
            t.Pass? ==> t.id >= 0 && InBounds(log[..|log| - 1], t.id)
  {
    var e := log[|log| - 1];
    BackStepFacts(e, id, q);
  }

  /** A tag passed through a later tag stays within the entries of the directory. */
  lemma FilterStepInBounds(s: seq<History>, f: Entry, t: Entry)
    requires Loggable(t) && 0 <= f.id <= |s|
    ensures var r := FilterStep(f, t); r.Some? ==> 0 <= r.value.id <= |Apply(s, t)|
  {
    BackStepFacts(t, f.id, Query(M7FF, 0));
  }

  lemma {:induction false} WellFormedPrefix(log: seq<Entry>, n: nat)
    requires LoggableAll(log) && WellFormed(log) && n <= |log|
    ensures WellFormed(log[..n]) && |Replay(log[..n])| <= NO_ID
    decreases |log|
  {
    if n < |log| {
      var older := log[..|log| - 1];
      assert older[..n] == log[..n];
      WellFormedPrefix(older, n);
    } else {
      assert log[..n] == log;
    }
  }

  lemma ReplayOneMore(log: seq<Entry>, n: nat)
    requires LoggableAll(log) && n < |log|
    ensures Replay(log[..n + 1]) == Apply(Replay(log[..n]), log[n])
  {
    assert log[..n + 1][..n] == log[..n];
  }

  /** A log without splices whose ids stay below a bound is well formed. */
  lemma {:induction false} PlainLogWellFormed(log: seq<Entry>, n: nat)
    requires LoggableAll(log) && n <= NO_ID
    requires forall e :: e in log ==> e.kind < 0x400 && e.id < n
    ensures WellFormed(log) && NoDeletes(log) && |Replay(log)| <= n
    decreases |log|
  {
    if log != [] {
      PlainLogWellFormed(log[..|log| - 1], n);
    }
  }
}
