/** Events: flags with a consumer task, and the queue of those that occurred and wait to be handled. */
module Events {
  import opened TaskQueues

  class Event {
    var nextEvent: Event?
    const consumerTask: Task?
    var eventBits: bv32

    constructor (consumerTask: Task?)
      ensures this.consumerTask == consumerTask && eventBits == 0
    {
      nextEvent, eventBits := null, 0;
      this.consumerTask := consumerTask;
    }
  }

  /** Bits with those under a mask replaced. */
  function Masked(bits: bv32, mask: bv32, values: bv32): (r: bv32)
    ensures r & mask == values & mask && r & !mask == bits & !mask
  {
    (bits & !mask) | (values & mask)
  }

  ghost function EventAt(es: seq<Event>, k: nat): Event? {
    if k < |es| then es[k] else null
  }

  class EventQueue {
    var pendingEvents: Event?
    var pendingEventsReady: bool
    /** The events in the queue, in the order in which they occurred. */
    ghost var queue: seq<Event>

    ghost predicate Valid()
      reads this, queue
    {
      && pendingEvents == EventAt(queue, 0) && pendingEventsReady == (queue != [])
      && (forall i {:trigger queue[i].nextEvent} :: 0 <= i < |queue| ==>
            queue[i].nextEvent == EventAt(queue, i + 1))
      && (forall e :: e in queue ==> e.consumerTask != null)
      && forall i, j :: 0 <= i < j < |queue| ==> queue[i] != queue[j]
    }

    constructor ()
      ensures Valid() && queue == []
    {
      pendingEvents, pendingEventsReady, queue := null, false, [];
    }

    /** Appends an event to the queue, unless it is waiting already or has no consumer. */
    method Append(event: Event)
      requires Valid()
      modifies this, queue`nextEvent, event`nextEvent
      ensures Valid()
      ensures queue == if event.consumerTask == null || event in old(queue) then old(queue) else old(queue) + [event]
    {
      if event.consumerTask == null {
        return;
      }
      var prev: Event?, cursor := null, pendingEvents;
      ghost var k := 0;
      while cursor != null
        invariant k <= |queue| && cursor == EventAt(queue, k) && prev == (if k == 0 then null else queue[k - 1])
        invariant event !in queue[..k]
        decreases |queue| - k
      {
        if cursor == event {
          return;
        }
        prev, cursor, k := cursor, cursor.nextEvent, k + 1;
      }
      assert queue[..k] == queue;
      event.nextEvent := null;
      if prev == null {
        pendingEvents := event;
      } else {
        prev.nextEvent := event;
      }
      pendingEventsReady := true;
      ghost var was := queue;
      queue := queue + [event];
      forall i {:trigger queue[i].nextEvent} | 0 <= i < |queue|
        ensures queue[i].nextEvent == EventAt(queue, i + 1)
      {
        if i < |was| - 1 {
          assert queue[i] == was[i] && was[i] != was[|was| - 1];
        }
      }
    }

    /** Changes the bits under a mask and queues the event.  Setting, clearing and assigning are cases of this. */
    method AssignMaskedBits(event: Event, bitMask: bv32, bitValues: bv32) returns (eventBits: bv32)
      requires Valid()
      modifies this, queue`nextEvent, event`nextEvent, event`eventBits
      ensures Valid() && eventBits == old(event.eventBits)
      ensures event.eventBits == Masked(eventBits, bitMask, bitValues)
      ensures queue == if event.consumerTask == null || event in old(queue) then old(queue) else old(queue) + [event]
    {
      hide Masked;
      eventBits := event.eventBits;
      event.eventBits := Masked(event.eventBits, bitMask, bitValues);
      Append(event);
    }

    /** Takes the event that has waited longest and returns its consumer, or nothing if there is none. */
    method GetNextConsumer() returns (task: Task?)
      requires Valid()
      modifies this
      ensures Valid()
      ensures if old(queue) == [] then task == null && queue == []
              else task != null && task == old(queue)[0].consumerTask && queue == old(queue)[1..]
    {
      if !pendingEventsReady {
        return null;
      }
      var event: Event? := null;
      if pendingEvents != null {
        event := pendingEvents;
        pendingEvents := event.nextEvent;
        assert queue[0].nextEvent == EventAt(queue, 1);
        queue := queue[1..];
      }
      if pendingEvents == null {
        pendingEventsReady := false;
      }
      task := if event == null then null else event.consumerTask;
    }
  }
}
