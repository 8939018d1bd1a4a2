/** Runs of messages over a stream: what is received is what was sent, in order. */
module StreamMessages {
  import opened Words
  import opened Mempool
  import opened SegmentLists
  import opened Streams

  datatype Op = Send(message: seq<byte>) | Receive(limit: nat)

  function Framed(messages: seq<seq<byte>>): (bytes: seq<byte>) {
    if messages == [] then [] else Frame(messages[0]) + Framed(messages[1..])
  }

  lemma {:induction false} FramedMore(messages: seq<seq<byte>>, m: seq<byte>)
    ensures Framed(messages + [m]) == Framed(messages) + Frame(m)
  {
    if messages == [] {
      assert messages + [m] == [m] && [m][1..] == [];
    } else {
      assert (messages + [m])[1..] == messages[1..] + [m];
      FramedMore(messages[1..], m);
    }
  }

  /** Messages that can be in a stream: not empty, and with room for the header. */
  predicate Sendable(messages: seq<seq<byte>>) {
    forall m :: m in messages ==> 0 < |m| <= 0xFFFD
  }

  /** The first message of a stream is found as it was framed. */
  lemma FirstMessage(messages: seq<seq<byte>>)
    requires Sendable(messages)
    ensures messages == [] ==> !HasMessage(Framed(messages))
    ensures messages != [] ==> HasMessage(Framed(messages)) && MessageSize(Framed(messages)) == |messages[0]|
  {
    if messages != [] {
      assert messages[0] in messages;
      var n := |messages[0]|;
      assert n == n / 0x100 % 0x100 * 0x100 + n % 0x100;
    }
  }

  lemma SameMessage(messages: seq<seq<byte>>, m: seq<byte>, rest: seq<byte>)
    requires messages != [] && Framed(messages) == Frame(m) + rest && |m| == |messages[0]|
    ensures m == messages[0] && rest == Framed(messages[1..])
  {
    var bytes, n := Framed(messages), |m|;
    assert bytes[2..2 + n] == m && bytes[2..2 + n] == messages[0];
    assert bytes[2 + n..] == rest && bytes[2 + n..] == Framed(messages[1..]);
  }

  /** An operation, whether a message was sent or received, and the message received. */
  datatype Event = Event(op: Op, ok: bool, message: seq<byte>)

  /** An event takes the messages in the stream from one state to the next.  A message is refused only if there
      is no room for it; the first message is received unless it is longer than the receiver allows. */
  predicate Explains(e: Event, s: seq<seq<byte>>, t: seq<seq<byte>>, room: int) {
    match e.op
    case Send(m) =>
      (|Framed(s)| + |m| + 2 <= room ==> e.ok) && e.message == [] && t == if e.ok && m != [] then s + [m] else s
    case Receive(limit) =>
      e.ok == (s != [] && |s[0]| <= limit)
      && if e.ok then e.message == s[0] && t == s[1..] else e.message == [] && t == s
  }

  predicate IsRun(events: seq<Event>, states: seq<seq<seq<byte>>>, room: int) {
    && |states| == |events| + 1 && states[0] == []
    && forall i {:trigger events[i]} :: 0 <= i < |events| ==> Explains(events[i], states[i], states[i + 1], room)
  }

  /** The messages sent, and the messages received. */
  function Sent(events: seq<Event>): seq<seq<byte>> {
    if events == [] then []
    else
      var before, e := Sent(events[..|events| - 1]), events[|events| - 1];
      if e.op.Send? && e.ok && e.op.message != [] then before + [e.op.message] else before
  }

  function Received(events: seq<Event>): seq<seq<byte>> {
    if events == [] then []
    else
      var before, e := Received(events[..|events| - 1]), events[|events| - 1];
      if e.op.Receive? && e.ok then before + [e.message] else before
  }

  /** Nothing is lost, changed or overtaken: the messages sent are those received followed by those still in
      the stream. */
  lemma {:induction false} ReceivedInOrder(events: seq<Event>, states: seq<seq<seq<byte>>>, room: int)
    requires IsRun(events, states, room)
    ensures Sent(events) == Received(events) + states[|events|]
    decreases |events|
  {
    hide Framed;
    if events != [] {
      var n := |events| - 1;
      ReceivedInOrder(events[..n], states[..n + 1], room);
      assert Explains(events[n], states[n], states[n + 1], room);
      assert states[n] != [] ==> states[n] == [states[n][0]] + states[n][1..];
    }
  }

  lemma {:induction false} OwnedSize(ss: seq<Segment>)
    requires Distinct(ss)
    ensures |Owned(ss)| == |ss|
    decreases |ss|
  {
    if ss != [] {
      OwnedSize(ss[1..]);
      assert Owned(ss) == {ss[0]} + Owned(ss[1..]) && ss[0] !in ss[1..];
    }
  }

  /** What a stream can hold: it is limited by its greatest size and by the memory there is. */
  ghost function Room(pool: Pool, stream: Stream): int
    reads stream, pool
  {
    Min(stream.maxSize, if stream.Total(pool) == {} then 0 else 64 * |stream.Total(pool)| - 63)
  }

  /** The room that is left takes all segments into account, but for the part of one that has been read. */
  lemma RoomLeft(pool: Pool, stream: Stream)
    requires stream.With(pool)
    ensures Room(pool, stream) - stream.size <= Min(stream.Space(pool), stream.maxSize - stream.size)
  {
    hide IsList;
    OwnedSize(pool.free);
    OwnedSize(stream.segs);
    assert Owned(stream.segs) * Owned(pool.free) == {};
  }

  method Send(pool: Pool, stream: Stream, m: seq<byte>, ghost s: seq<seq<byte>>) returns (ok: bool, ghost t: seq<seq<byte>>)
    requires stream.With(pool) && stream.Contents() == Framed(s) && Sendable(s) && |m| <= 0xFFFF
    modifies stream, pool, stream.Total(pool)
    ensures stream.With(pool) && stream.Total(pool) == old(stream.Total(pool))
    ensures stream.Contents() == Framed(t) && Sendable(t) && t == if ok && m != [] then s + [m] else s
    ensures |Framed(s)| + |m| + 2 <= old(Room(pool, stream)) ==> ok
  {
    hide Linked, Frame, Framed, Room, Stream.Total, Stream.Space;
    t := s;
    RoomLeft(pool, stream);
    ok := stream.WriteMessage(pool, m);
    if ok && m != [] {
      FramedMore(s, m);
      t := s + [m];
    }
  }

  method Receive(pool: Pool, stream: Stream, limit: nat, ghost s: seq<seq<byte>>)
    returns (ok: bool, message: seq<byte>, ghost t: seq<seq<byte>>)
    requires stream.With(pool) && stream.Contents() == Framed(s) && Sendable(s) && limit <= 0xFFFF
    modifies stream, pool, stream.Total(pool)
    ensures stream.With(pool) && stream.Total(pool) == old(stream.Total(pool))
    ensures stream.Contents() == Framed(t) && Sendable(t) && ok == (s != [] && |s[0]| <= limit)
    ensures if ok then message == s[0] && t == s[1..] else message == [] && t == s
  {
    hide Linked, Frame, Framed;
    FirstMessage(s);
    var count;
    count, message := stream.ReadMessage(pool, limit);
    ok, t := count != 0 && count != 0xFFFF, s;
    if ok {
      SameMessage(s, message, stream.Contents());
      t := s[1..];
    }
  }

  /** The stream holds messages, and nothing else. */
  ghost predicate Carries(pool: Pool, stream: Stream, messages: seq<seq<byte>>)
    reads stream, stream.segs, pool, pool.free
  {
    stream.With(pool) && stream.Contents() == Framed(messages) && Sendable(messages)
  }

  /** One operation on a stream that holds messages. */
  method Step(pool: Pool, stream: Stream, op: Op, ghost s: seq<seq<byte>>) returns (e: Event, ghost t: seq<seq<byte>>)
    requires Carries(pool, stream, s)
    requires if op.Send? then |op.message| <= 0xFFFF else op.limit <= 0xFFFF
    modifies stream, pool, stream.Total(pool)
    ensures Carries(pool, stream, t) && stream.Total(pool) == old(stream.Total(pool))
    ensures Room(pool, stream) == old(Room(pool, stream))
    ensures e.op == op && Explains(e, s, t, Room(pool, stream))
  {
    hide Linked, Framed, Stream.With, Stream.Contents;
    if op.Send? {
      var ok;
      ok, t := Send(pool, stream, op.message, s);
      e := Event(op, ok, []);
    } else {
      var ok, message;
      ok, message, t := Receive(pool, stream, op.limit, s);
      e := Event(op, ok, message);
    }
  }

  lemma LongerRun(events: seq<Event>, states: seq<seq<seq<byte>>>, e: Event, t: seq<seq<byte>>, room: int)
    requires IsRun(events, states, room) && Explains(e, states[|events|], t, room)
    ensures IsRun(events + [e], states + [t], room)
  {
    hide Explains;
  }

  lemma EmptyRun(pool: Pool, stream: Stream, room: int)
    requires stream.With(pool) && stream.Contents() == []
    ensures Carries(pool, stream, []) && IsRun([], [[]], room)
  {
  }

  /** Sends and receives in any order: what happens is a run of the message queue. */
  method Exchange(pool: Pool, stream: Stream, ops: seq<Op>)
    returns (events: seq<Event>, ghost states: seq<seq<seq<byte>>>)
    requires stream.With(pool) && stream.Contents() == []
    requires forall op :: op in ops ==> if op.Send? then |op.message| <= 0xFFFF else op.limit <= 0xFFFF
    modifies stream, pool, stream.Total(pool)
    ensures stream.Total(pool) == old(stream.Total(pool))
    ensures |events| == |ops| && forall i :: 0 <= i < |ops| ==> events[i].op == ops[i]
    ensures IsRun(events, states, old(Room(pool, stream)))
    ensures Carries(pool, stream, states[|ops|]) && Sent(events) == Received(events) + states[|ops|]
  {
    hide Carries, Explains, Sent, Received, Room;
    events, states := [], [[]];
    ghost var room := Room(pool, stream);
    EmptyRun(pool, stream, room);
    for k := 0 to |ops|
      invariant |events| == k && forall i :: 0 <= i < k ==> events[i].op == ops[i]
      invariant IsRun(events, states, room) && Room(pool, stream) == room
      invariant Carries(pool, stream, states[k]) && stream.Total(pool) == old(stream.Total(pool))
    {
      assert ops[k] in ops;
      var e, t := Step(pool, stream, ops[k], states[k]);
      LongerRun(events, states, e, t, room);
      events, states := events + [e], states + [t];
    }
    ReceivedInOrder(events, states, room);
  }
}
