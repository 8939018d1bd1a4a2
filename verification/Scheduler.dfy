/** The task scheduler: queues of ready, scheduled and background tasks, and one step of its loop. */
module Scheduler {
  import opened Words
  import opened TaskQueues
  import opened Events

  const RUN_IMMEDIATE: uint32 := 0
  const SUSPEND: uint32 := 0x8000_0000

  /** A queue without one of its tasks. */
  ghost function Without(ss: seq<Task>, t: Task): (r: seq<Task>)
    ensures forall u :: u in r ==> u in ss
    ensures forall u :: u in ss && u != t ==> u in r
  {
    if ss == [] then [] else if ss[0] == t then ss[1..] else [ss[0]] + Without(ss[1..], t)
  }

  lemma {:induction false} WithoutAt(ss: seq<Task>, t: Task, k: nat)
    requires Distinct(ss) && (k < |ss| ==> ss[k] == t) && (k >= |ss| ==> t !in ss)
    ensures Without(ss, t) == if k < |ss| then ss[..k] + ss[k + 1..] else ss
    decreases |ss|
  {
    if ss != [] && ss[0] != t {
      var rest := ss[1..];
      assert ss == [ss[0]] + rest;
      if k < |ss| {
        WithoutAt(rest, t, k - 1);
        CutInRest(ss, k);
      } else {
        WithoutAt(rest, t, |ss|);
      }
    }
  }

  lemma CutInRest(ss: seq<Task>, k: nat)
    requires 0 < k < |ss|
    ensures ss[..k] + ss[k + 1..] == [ss[0]] + (ss[1..][..k - 1] + ss[1..][k..])
  {
    assert ss[..k] == [ss[0]] + ss[1..][..k - 1] && ss[k + 1..] == ss[1..][k..];
  }

  lemma WithoutAbsent(ss: seq<Task>, t: Task)
    requires Distinct(ss) && t !in ss
    ensures Without(ss, t) == ss
  {
    WithoutAt(ss, t, |ss|);
  }

  /** A queue is linked, and holds tasks in one state; one task x may be on its way between queues. */
  ghost predicate Holds(head: Task?, ss: seq<Task>, state: TaskState, tasks: set<Task>, x: Task?)
    reads ss`nextTask, ss`taskState
  {
    && IsQueue(head, ss) && Distinct(ss)
    && (forall t :: t in ss ==> t in tasks && t.taskState == state && t != x)
  }

  /** Takes a task out of a queue. */
  method RemoveFrom(head: Task?, t: Task, ghost ss: seq<Task>, ghost state: TaskState, ghost tasks: set<Task>)
    returns (head': Task?)
    requires Holds(head, ss, state, tasks, null) && t in ss && state != Suspended && Sorted(ss)
    modifies Members(ss)`nextTask, t`taskState
    ensures Holds(head', Without(ss, t), state, tasks, null) && t.taskState == Suspended
    ensures t !in Without(ss, t) && Sorted(Without(ss, t))
  {
    hide Without, Distinct, Sorted;
    var prev, k := FindTask(head, t, ss);
    WithoutAt(ss, t, k);
    ghost var now := Without(ss, t);
    CutOut(ss, k, now);
    head' := UnlinkAt(head, prev, t, k, ss, now);
    t.taskState := Suspended;
  }

  /** The queues of the scheduler. */
  datatype Queues = Queues(ready: seq<Task>, scheduled: seq<Task>, background: seq<Task>)

  /** The queues once a task has been woken, wherever it waited. */
  ghost function Wake(q: Queues, t: Task?): (r: Queues)
    ensures Subset(r.scheduled, q.scheduled) && Subset(r.background, q.background)
  {
    if t == null || t in q.ready then q
    else Queues(q.ready + [t], Without(q.scheduled, t), Without(q.background, t))
  }

  /** The queues once the consumers of some events have been woken in turn. */
  ghost function WakeAll(q: Queues, es: seq<Event>): (r: Queues)
    ensures Subset(r.scheduled, q.scheduled) && Subset(r.background, q.background)
  {
    if es == [] then q else Wake(WakeAll(q, es[..|es| - 1]), es[|es| - 1].consumerTask)
  }

  /** The tasks at the front of a queue that are due, and the rest. */
  ghost function Due(ss: seq<Task>, now: int): seq<Task>
    reads ss`due
  {
    if ss == [] || ss[0].due > now then [] else [ss[0]] + Due(ss[1..], now)
  }

  ghost function Later(ss: seq<Task>, now: int): seq<Task>
    reads ss`due
  {
    if ss == [] || ss[0].due > now then ss else Later(ss[1..], now)
  }

  /** The queues once the tasks that are due have been made ready. */
  ghost function Release(q: Queues, now: int): Queues
    reads q.scheduled`due, q.background`due
  {
    Queues(q.ready + Due(q.scheduled, now) + Due(q.background, now), Later(q.scheduled, now), Later(q.background, now))
  }

  /** The time until the first of the tasks in a queue is due, or the greatest delay there is. */
  ghost function IdleTime(ss: seq<Task>, now: int): int
    reads ss`due
  {
    if ss == [] then TWO_31 - 1 else ss[0].due - now
  }

  class Scheduler {
    var scheduledTasks: Task?
    var backgroundTasks: Task?
    var readyTaskListHead: Task?
    var readyTaskListEnd: Task?
    var currentTask: Task?
    var stayAwakeCounter: nat
    /** The tasks of each queue, in order, and all the tasks there are. */
    ghost var scheduled: seq<Task>
    ghost var background: seq<Task>
    ghost var ready: seq<Task>
    ghost var tasks: set<Task>

    ghost predicate ValidBut(x: Task?)
      reads this, scheduled, background, ready, tasks
    {
      && Holds(scheduledTasks, scheduled, TaskState.Scheduled, tasks, x) && Sorted(scheduled)
      && Holds(backgroundTasks, background, TaskState.Background, tasks, x) && Sorted(background)
      && Holds(readyTaskListHead, ready, Ready, tasks, x)
      && (ready != [] ==> readyTaskListEnd == ready[|ready| - 1])
      && forall t :: t in tasks && t != x ==> InPlace(t)
    }

    ghost predicate InPlace(t: Task)
      reads this`scheduled, this`background, this`ready, this`currentTask, t`taskState
    {
      match t.taskState
      case Scheduled => t in scheduled
      case Background => t in background
      case Ready => t in ready
      case Active => t == currentTask
      case _ => true
    }

    /** The pieces of validity. */
    lemma Pieces(x: Task?)
      requires ValidBut(x)
      ensures Holds(scheduledTasks, scheduled, TaskState.Scheduled, tasks, x) && Sorted(scheduled)
      ensures Holds(backgroundTasks, background, TaskState.Background, tasks, x) && Sorted(background)
      ensures Holds(readyTaskListHead, ready, Ready, tasks, x)
      ensures ready != [] ==> readyTaskListEnd == ready[|ready| - 1]
      ensures forall t :: t in tasks && t != x ==> InPlace(t)
    {
      hide Holds, Sorted, InPlace;
    }

    lemma PiecesOfValid()
      requires Valid()
      ensures ValidBut(null)
      ensures Holds(scheduledTasks, scheduled, TaskState.Scheduled, tasks, null) && Sorted(scheduled)
      ensures Holds(backgroundTasks, background, TaskState.Background, tasks, null) && Sorted(background)
      ensures Holds(readyTaskListHead, ready, Ready, tasks, null)
      ensures ready != [] ==> readyTaskListEnd == ready[|ready| - 1]
      ensures forall t :: t in tasks ==> InPlace(t)
    {
      hide Holds, Sorted, InPlace;
    }

    lemma Assemble(x: Task?)
      requires Holds(scheduledTasks, scheduled, TaskState.Scheduled, tasks, x) && Sorted(scheduled)
      requires Holds(backgroundTasks, background, TaskState.Background, tasks, x) && Sorted(background)
      requires Holds(readyTaskListHead, ready, Ready, tasks, x)
      requires ready != [] ==> readyTaskListEnd == ready[|ready| - 1]
      requires forall t :: t in tasks && t != x ==> InPlace(t)
      ensures ValidBut(x) && (x == null ==> Valid())
    {
      hide Holds, Sorted, InPlace;
    }

    /** Every task is in the queue of its state, and in no other. */
    ghost predicate Valid()
      reads this, scheduled, background, ready, tasks
    {
      ValidBut(null)
    }

    constructor (ghost tasks: set<Task>)
      requires forall t :: t in tasks ==> t.taskState == Initialising
      ensures Valid() && this.tasks == tasks && currentTask == null && stayAwakeCounter == 0
      ensures scheduled == [] && background == [] && ready == []
    {
      scheduledTasks, backgroundTasks, readyTaskListHead, readyTaskListEnd, currentTask := null, null, null, null, null;
      stayAwakeCounter := 0;
      scheduled, background, ready := [], [], [];
      this.tasks := tasks;
    }

    /** Adds a task to the end of the ready queue. */
    method MakeTaskReady(t: Task)
      requires ValidBut(t) && t in tasks
      modifies `readyTaskListHead, `readyTaskListEnd, `ready, Members(ready)`nextTask, t`nextTask, t`taskState
      ensures Valid() && ready == old(ready) + [t] && t.taskState == Ready
    {
      hide Distinct, Sorted, IsQueue, Valid, ValidBut;
      Pieces(t);
      readyTaskListHead := AddToEnd(readyTaskListHead, readyTaskListEnd, t, ready, tasks);
      readyTaskListEnd := t;
      ready := ready + [t];
      Assemble(null);
    }

    /** Takes a task out of the scheduled or the background queue. */
    method RemoveTask(t: Task)
      requires Valid() && t in tasks
      modifies `scheduledTasks, `backgroundTasks, `scheduled, `background, Members(scheduled + background)`nextTask, t`taskState
      ensures Valid() && scheduled == Without(old(scheduled), t) && background == Without(old(background), t)
      ensures t.taskState == if old(t.taskState) in {TaskState.Scheduled, TaskState.Background} then Suspended else old(t.taskState)
    {
      hide Distinct, Sorted, IsQueue, Without, Valid, ValidBut;
      PiecesOfValid();
      if t !in scheduled {
        WithoutAbsent(scheduled, t);
      }
      if t !in background {
        WithoutAbsent(background, t);
      }
      if t.taskState == TaskState.Scheduled {
        scheduledTasks := RemoveFrom(scheduledTasks, t, scheduled, TaskState.Scheduled, tasks);
        scheduled := Without(scheduled, t);
        Assemble(null);
      } else if t.taskState == TaskState.Background {
        backgroundTasks := RemoveFrom(backgroundTasks, t, background, TaskState.Background, tasks);
        background := Without(background, t);
        Assemble(null);
      } else {
        Assemble(null);
      }
    }

    /** Puts a task that is in no queue where its status asks for: at the end of the ready queue, nowhere,
        or in order of its deadline in the scheduled or the background queue. */
    method InsertTask(t: Task, taskStatus: uint32, timer: int, ghost now: int)
      requires ValidBut(t) && t in tasks && timer == Signed(now)
      requires taskStatus != RUN_IMMEDIATE && taskStatus != SUSPEND ==>
                 InReach(if taskStatus < SUSPEND then scheduled else background, now, now + taskStatus % SUSPEND)
      modifies `readyTaskListHead, `readyTaskListEnd, `ready, `scheduledTasks, `scheduled, `backgroundTasks, `background
      modifies Members(ready + scheduled + background)`nextTask, t
      ensures Valid() && t.taskState != Active
      ensures ready == if taskStatus == RUN_IMMEDIATE then old(ready) + [t] else old(ready)
      ensures scheduled == if 0 < taskStatus < SUSPEND then Inserted(old(scheduled), t) else old(scheduled)
      ensures background == if taskStatus > SUSPEND then Inserted(old(background), t) else old(background)
      ensures taskStatus != RUN_IMMEDIATE && taskStatus != SUSPEND ==>
                t.due == now + taskStatus % SUSPEND && t.timestamp == Signed(t.due)
      ensures taskStatus == RUN_IMMEDIATE || taskStatus == SUSPEND ==> t.due == old(t.due) && t.timestamp == old(t.timestamp)
    {
      hide Distinct, Sorted, IsQueue, Valid, ValidBut, Inserted, Timely, Signed, InReach;
      if taskStatus == RUN_IMMEDIATE {
        MakeTaskReady(t);
        return;
      }
      Pieces(t);
      if taskStatus == SUSPEND {
        t.taskState := Suspended;
        Assemble(null);
        return;
      }
      var delay: nat := taskStatus % SUSPEND;
      SignedSum(now, delay);
      t.timestamp := Signed(timer + delay);
      t.due := now + delay;
      assert Sorted(scheduled) && Sorted(background);
      Assemble(t);
      if taskStatus < SUSPEND {
        InsertScheduled(t, now);
      } else {
        InsertBackground(t, now);
      }
    }

    method InsertScheduled(t: Task, ghost now: int)
      requires ValidBut(t) && t in tasks && InReach(scheduled, now, t.due) && Prompt(t, now)
      modifies `scheduledTasks, `scheduled, Members(scheduled)`nextTask, t`nextTask, t`taskState
      ensures Valid() && scheduled == Inserted(old(scheduled), t) && t.taskState == TaskState.Scheduled
    {
      hide Distinct, Sorted, IsQueue, Valid, ValidBut, Inserted, Timely, InReach, Prompt;
      Pieces(t);
      ReachTimely(scheduled, t, now);
      t.taskState := TaskState.Scheduled;
      scheduledTasks := InsertInto(scheduledTasks, t, scheduled, TaskState.Scheduled, tasks, now);
      scheduled := Inserted(scheduled, t);
      Assemble(null);
    }

    method InsertBackground(t: Task, ghost now: int)
      requires ValidBut(t) && t in tasks && InReach(background, now, t.due) && Prompt(t, now)
      modifies `backgroundTasks, `background, Members(background)`nextTask, t`nextTask, t`taskState
      ensures Valid() && background == Inserted(old(background), t) && t.taskState == TaskState.Background
    {
      hide Distinct, Sorted, IsQueue, Valid, ValidBut, Inserted, Timely, InReach, Prompt;
      Pieces(t);
      ReachTimely(background, t, now);
      t.taskState := TaskState.Background;
      backgroundTasks := InsertInto(backgroundTasks, t, background, TaskState.Background, tasks, now);
      background := Inserted(background, t);
      Assemble(null);
    }

    /** Takes the first scheduled task if it is due. */
    method GetScheduledTask(timer: int, ghost now: int) returns (pendingTask: Task?)
      requires Valid() && Timely(scheduled, now) && timer == Signed(now)
      modifies `scheduledTasks, `scheduled
      ensures pendingTask == null ==> Valid() && scheduled == old(scheduled) && forall u :: u in scheduled ==> u.due > now
      ensures pendingTask != null ==>
                && ValidBut(pendingTask) && pendingTask in tasks && pendingTask.due <= now
                && old(scheduled) == [pendingTask] + scheduled
    {
      hide Distinct, Sorted, IsQueue, Valid, ValidBut, Timely, Signed;
      PiecesOfValid();
      pendingTask := TakeDue(scheduledTasks, timer, scheduled, TaskState.Scheduled, tasks, now);
      if pendingTask != null {
        scheduledTasks := pendingTask.nextTask;
        scheduled := scheduled[1..];
        Assemble(pendingTask);
      }
    }

    /** Takes the first background task if it is due. */
    method GetBackgroundTask(timer: int, ghost now: int) returns (pendingTask: Task?)
      requires Valid() && Timely(background, now) && timer == Signed(now)
      modifies `backgroundTasks, `background
      ensures pendingTask == null ==> Valid() && background == old(background) && forall u :: u in background ==> u.due > now
      ensures pendingTask != null ==>
                && ValidBut(pendingTask) && pendingTask in tasks && pendingTask.due <= now
                && old(background) == [pendingTask] + background
    {
      hide Distinct, Sorted, IsQueue, Valid, ValidBut, Timely, Signed;
      PiecesOfValid();
      pendingTask := TakeDue(backgroundTasks, timer, background, TaskState.Background, tasks, now);
      if pendingTask != null {
        backgroundTasks := pendingTask.nextTask;
        background := background[1..];
        Assemble(pendingTask);
      }
    }

    /** The time of the queues: every deadline is less than 2^31 ticks from it and from any other. */
    ghost predicate OnTime(now: int)
      reads this`scheduled, this`background, scheduled`due, scheduled`timestamp, background`due, background`timestamp
    {
      Timely(scheduled, now) && Timely(background, now)
    }

    /** Queued tasks are known tasks. */
    lemma Known(x: Task?)
      requires ValidBut(x)
      ensures forall u :: u in scheduled || u in background || u in ready ==> u in tasks && u != x
    {
    }

    /** A task in none of the queues' states is in no queue. */
    lemma Loose(t: Task)
      requires Valid() && t.taskState !in {TaskState.Scheduled, TaskState.Background, TaskState.Ready}
      ensures ValidBut(t)
    {
    }

    /** Makes a task ready, wherever it waits. */
    method MoveToReady(t: Task)
      requires Valid() && t in tasks && t.taskState != Ready
      modifies this, tasks`nextTask, t`taskState
      ensures Valid() && ready == old(ready) + [t] && Kept(old(currentTask), old(tasks), old(stayAwakeCounter))
      ensures scheduled == Without(old(scheduled), t) && background == Without(old(background), t) && t.taskState == Ready
    {
      hide Valid, ValidBut, Without;
      KnownValid();
      RemoveTask(t);
      Loose(t);
      KnownValid();
      MakeTaskReady(t);
    }

    lemma KnownValid()
      requires Valid()
      ensures ValidBut(null)
      ensures forall u :: u in scheduled || u in background || u in ready ==> u in tasks
      ensures forall u :: u in scheduled || u in background || u in ready ==> u.taskState != Active
      ensures forall t :: t in tasks ==> (t.taskState == Ready <==> t in ready)
      ensures forall t :: t in tasks && t.taskState == Active ==> t == currentTask
    {
    }

    ghost function Waiting(): Queues
      reads this`ready, this`scheduled, this`background
    {
      Queues(ready, scheduled, background)
    }

    /** Makes the consumers of all queued events ready, unless they are already. */
    method WakeConsumers(events: EventQueue)
      requires Valid() && currentTask == null && events.Valid()
      requires forall e :: e in events.queue ==> e.consumerTask in tasks
      modifies this, tasks`nextTask, tasks`taskState, events
      ensures Valid() && events.Valid() && events.queue == [] && Kept(null, old(tasks), old(stayAwakeCounter))
      ensures Waiting() == old(WakeAll(Waiting(), events.queue))
    {
      hide Valid, ValidBut, Wake, EventQueue.Valid, WakeAll;
      ghost var was, p := events.queue, 0;
      WokenNone(Waiting(), was);
      var queuedTask := NextConsumer(events);
      while queuedTask != null
        invariant Valid() && events.Valid() && Kept(null, old(tasks), old(stayAwakeCounter))
        invariant if queuedTask == null then p == |was| && events.queue == []
                  else p < |was| && was[p].consumerTask == queuedTask && events.queue == was[p + 1..]
        invariant Waiting() == WakeAll(old(Waiting()), was[..p])
        decreases |was| - p
      {
        assert was[p] in was;
        WokenMore(old(Waiting()), was, p);
        WakeOne(queuedTask);
        p := p + 1;
        queuedTask := NextConsumer(events);
      }
      assert was[..p] == was;
    }

    method WakeOne(t: Task)
      requires Valid() && t in tasks
      modifies this, tasks`nextTask, t`taskState
      ensures Valid() && Waiting() == Wake(old(Waiting()), t)
      ensures Kept(old(currentTask), old(tasks), old(stayAwakeCounter))
    {
      hide Valid, ValidBut, Without;
      KnownValid();
      if t.taskState != Ready {
        MoveToReady(t);
      }
    }

    method NextConsumer(events: EventQueue) returns (task: Task?)
      requires events.Valid()
      modifies events
      ensures events.Valid()
      ensures if old(events.queue) == [] then task == null && events.queue == []
              else task != null && task == old(events.queue)[0].consumerTask && events.queue == old(events.queue)[1..]
    {
      task := events.GetNextConsumer();
    }

    ghost predicate Kept(current: Task?, tasks: set<Task>, stayAwakeCounter: nat)
      reads this`currentTask, this`tasks, this`stayAwakeCounter
    {
      this.currentTask == current && this.tasks == tasks && this.stayAwakeCounter == stayAwakeCounter
    }

    /** Makes all scheduled tasks that are due ready, in order. */
    method ReleaseScheduled(timer: int, ghost now: int)
      requires Valid() && Timely(scheduled, now) && timer == Signed(now)
      modifies `readyTaskListHead, `readyTaskListEnd, `ready, `scheduledTasks, `scheduled
      modifies tasks`nextTask, tasks`taskState
      ensures Valid() && Released(old(scheduled), scheduled, old(ready), ready, now)
    {
      hide Valid, ValidBut, Timely, Signed, Released, Releasing, Front;
      ghost var was, n := scheduled, 0;
      StartReleasing(was, ready, now);
      var queuedTask := GetScheduledTask(timer, now);
      FrontIs(queuedTask, scheduled);
      while queuedTask != null
        invariant if queuedTask == null then Valid() && (forall u :: u in scheduled ==> u.due > now)
                  else ValidBut(queuedTask) && queuedTask in tasks && queuedTask.due <= now
        invariant Releasing(was, n, Front(queuedTask, scheduled), old(ready), ready, now)
        decreases |was| - n
      {
        KeepReleasing(was, n, queuedTask, scheduled, old(ready), ready, now);
        queuedTask := ReleaseScheduledNext(queuedTask, timer, now);
        n := n + 1;
      }
      EndReleasing(was, n, scheduled, old(ready), ready, now);
    }

    method ReleaseScheduledNext(t: Task, timer: int, ghost now: int) returns (pendingTask: Task?)
      requires ValidBut(t) && t in tasks && Timely(scheduled, now) && timer == Signed(now)
      modifies `readyTaskListHead, `readyTaskListEnd, `ready, `scheduledTasks, `scheduled
      modifies tasks`nextTask, t`taskState
      ensures ready == old(ready) + [t] && old(scheduled) == Front(pendingTask, scheduled)
      ensures if pendingTask == null then Valid() && forall u :: u in scheduled ==> u.due > now
              else ValidBut(pendingTask) && pendingTask in tasks && pendingTask.due <= now
    {
      hide Valid, ValidBut, Timely, Signed;
      Known(t);
      MakeTaskReady(t);
      pendingTask := GetScheduledTask(timer, now);
    }

    /** Makes all background tasks that are due ready, in order. */
    method ReleaseBackground(timer: int, ghost now: int)
      requires Valid() && Timely(background, now) && timer == Signed(now)
      modifies `readyTaskListHead, `readyTaskListEnd, `ready, `backgroundTasks, `background
      modifies tasks`nextTask, tasks`taskState
      ensures Valid() && Released(old(background), background, old(ready), ready, now)
    {
      hide Valid, ValidBut, Timely, Signed, Released, Releasing, Front;
      ghost var was, n := background, 0;
      StartReleasing(was, ready, now);
      var queuedTask := GetBackgroundTask(timer, now);
      FrontIs(queuedTask, background);
      while queuedTask != null
        invariant if queuedTask == null then Valid() && (forall u :: u in background ==> u.due > now)
                  else ValidBut(queuedTask) && queuedTask in tasks && queuedTask.due <= now
        invariant Releasing(was, n, Front(queuedTask, background), old(ready), ready, now)
        decreases |was| - n
      {
        KeepReleasing(was, n, queuedTask, background, old(ready), ready, now);
        queuedTask := ReleaseBackgroundNext(queuedTask, timer, now);
        n := n + 1;
      }
      EndReleasing(was, n, background, old(ready), ready, now);
    }

    method ReleaseBackgroundNext(t: Task, timer: int, ghost now: int) returns (pendingTask: Task?)
      requires ValidBut(t) && t in tasks && Timely(background, now) && timer == Signed(now)
      modifies `readyTaskListHead, `readyTaskListEnd, `ready, `backgroundTasks, `background
      modifies tasks`nextTask, t`taskState
      ensures ready == old(ready) + [t] && old(background) == Front(pendingTask, background)
      ensures if pendingTask == null then Valid() && forall u :: u in background ==> u.due > now
              else ValidBut(pendingTask) && pendingTask in tasks && pendingTask.due <= now
    {
      hide Valid, ValidBut, Timely, Signed;
      Known(t);
      MakeTaskReady(t);
      pendingTask := GetBackgroundTask(timer, now);
    }

    /** Starts a task that is in no queue and does not run. */
    method TaskStart(t: Task)
      requires Valid() && t in tasks && t.taskState in {Initialising, Suspended}
      modifies this, tasks`nextTask, t`taskState
      ensures Valid() && ready == old(ready) + [t] && Kept(old(currentTask), old(tasks), old(stayAwakeCounter))
      ensures scheduled == old(scheduled) && background == old(background) && t.taskState == Ready
    {
      hide Valid, ValidBut;
      Loose(t);
      Known(t);
      MakeTaskReady(t);
    }

    /** Asks for the device to stay awake, or withdraws a request. */
    method StayAwake()
      requires Valid()
      modifies `stayAwakeCounter
      ensures Valid() && stayAwakeCounter == old(stayAwakeCounter) + 1
    {
      hide Valid, ValidBut, Holds, Sorted, InPlace;
      PiecesOfValid();
      stayAwakeCounter := stayAwakeCounter + 1;
      Assemble(null);
    }

    method CanSleep()
      requires Valid() && stayAwakeCounter > 0
      modifies `stayAwakeCounter
      ensures Valid() && stayAwakeCounter == old(stayAwakeCounter) - 1
    {
      hide Valid, ValidBut, Holds, Sorted, InPlace;
      PiecesOfValid();
      stayAwakeCounter := stayAwakeCounter - 1;
      Assemble(null);
    }

    /** Makes a suspended or delayed task ready; nothing changes for one that is ready or active. */
    method TaskResume(t: Task)
      requires Valid() && t in tasks
      modifies this, tasks`nextTask, t`taskState
      ensures Valid() && Kept(old(currentTask), old(tasks), old(stayAwakeCounter))
      ensures var waits := old(t.taskState) !in {Ready, Active};
              && t.taskState == (if waits then Ready else old(t.taskState))
              && ready == (if waits then old(ready) + [t] else old(ready))
              && scheduled == (if waits then Without(old(scheduled), t) else old(scheduled))
              && background == (if waits then Without(old(background), t) else old(background))
    {
      hide Valid, ValidBut, Without;
      if t.taskState != Ready && t.taskState != Active {
        MoveToReady(t);
      }
    }

    /** Wakes the consumers of events, and then the tasks that are due. */
    method WakeAndRelease(events: EventQueue, timer: int, ghost now: int)
      requires Valid() && currentTask == null && OnTime(now) && timer == Signed(now)
      requires events.Valid() && forall e :: e in events.queue ==> e.consumerTask in tasks
      modifies this, tasks`nextTask, tasks`taskState, events
      ensures Valid() && events.Valid() && events.queue == [] && Kept(null, old(tasks), old(stayAwakeCounter))
      ensures Waiting() == old(Release(WakeAll(Waiting(), events.queue), now))
    {
      hide Valid, ValidBut, Timely, Signed, Released, EventQueue.Valid, WakeAll, Due, Later;
      ghost var goal := Release(WakeAll(Waiting(), events.queue), now);
      ghost var scheduled0, background0 := scheduled, background;
      WakeConsumers(events);
      SubsetTimely(scheduled, scheduled0, now);
      SubsetTimely(background, background0, now);
      ghost var q := Waiting();
      ReleaseScheduled(timer, now);
      ReleasedAll(q.scheduled, scheduled, q.ready, ready, now);
      ghost var ready2 := ready;
      ReleaseBackground(timer, now);
      ReleasedAll(q.background, background, ready2, ready, now);
      assert goal == Release(q, now);
    }

    /** The first part of a step: wakes the consumers of events and the tasks that are due, and then makes the
        task at the head of the ready queue active, or works out how long to idle if there is none. */
    method BeginStep(events: EventQueue, timer: int, ghost now: int) returns (execDelay: nat)
      requires Valid() && currentTask == null && OnTime(now) && timer == Signed(now)
      requires events.Valid() && forall e :: e in events.queue ==> e.consumerTask in tasks
      modifies this, tasks`nextTask, tasks`taskState, events
      ensures Valid() && events.Valid() && events.queue == [] && tasks == old(tasks)
      ensures stayAwakeCounter == old(stayAwakeCounter)
      // the queues with consumers and due tasks woken, less the task that becomes active
      ensures Queues(Front(currentTask, ready), scheduled, background)
           == old(Release(WakeAll(Waiting(), events.queue), now))
      ensures currentTask == null ==> ready == []
      ensures currentTask != null ==> currentTask in tasks && currentTask.taskState == Active
      // the idle period ends when the next scheduled task is due
      ensures currentTask != null || stayAwakeCounter > 0 ==> execDelay == 0
      ensures currentTask == null && stayAwakeCounter == 0 ==>
                execDelay == IdleTime(scheduled, now) && forall u :: u in scheduled ==> now + execDelay <= u.due
    {
      hide Valid, ValidBut, Timely, Signed, EventQueue.Valid, WakeAll, Release, Sorted, Holds, InPlace;
      ghost var scheduled0 := scheduled;
      PiecesOfValid();
      NobodyIsLeft(Waiting(), events.queue, now);
      WakeAndRelease(events, timer, now);
      ghost var q := Waiting();
      execDelay := 0;
      if readyTaskListHead != null {
        ActivateFirst();
      } else {
        KnownValid();
        NoneReady();
        if stayAwakeCounter == 0 {
          execDelay := PendingDelay(timer, scheduled0, now);
        }
      }
      assert Queues(Front(currentTask, ready), scheduled, background) == q;
    }

    lemma NoneReady()
      requires Valid()
      ensures readyTaskListHead == At(ready, 0) && (readyTaskListHead == null <==> ready == [])
      ensures scheduledTasks == At(scheduled, 0) && Sorted(scheduled)
    {
    }

    /** Pops the first ready task and marks it as active. */
    method ActivateFirst()
      requires Valid() && readyTaskListHead != null && currentTask == null
      modifies `currentTask, `readyTaskListHead, `ready, tasks`taskState
      ensures Valid() && currentTask != null && currentTask in tasks && currentTask.taskState == Active
      ensures old(ready) == [currentTask] + ready
    {
      hide Distinct, Sorted, IsQueue, Valid, ValidBut;
      NoneReady();
      PiecesOfValid();
      TailOfQueue(readyTaskListHead, ready);
      FirstApart(ready);
      var t := readyTaskListHead;
      currentTask := t;
      readyTaskListHead := t.nextTask;
      ready := ready[1..];
      t.taskState := Active;
      Assemble(null);
    }

    /** The time until the first scheduled task is due, or the greatest there is. */
    method PendingDelay(timer: int, ghost was: seq<Task>, ghost now: int) returns (execDelay: nat)
      requires Valid() && timer == Signed(now) && Timely(was, now) && Subset(scheduled, was)
      requires forall u :: u in scheduled ==> u.due > now
      ensures execDelay == IdleTime(scheduled, now)
      ensures forall u :: u in scheduled ==> now + execDelay <= u.due
    {
      hide Valid, ValidBut, Timely, Signed;
      NoneReady();
      SubsetTimely(scheduled, was, now);
      var pendingTask := scheduledTasks;
      var delay := 0x7FFF_FFFF;
      if pendingTask != null {
        HeadDeadline(scheduled, now);
        delay := Signed(pendingTask.timestamp - timer);
      }
      execDelay := AtLeastZero(delay);
    }

    /** The last part of a step: puts the task that ran where its status asks for. */
    method EndStep(taskStatus: uint32, timer: int, ghost now: int)
      requires Valid() && currentTask != null && currentTask in tasks && currentTask.taskState == Active
      requires timer == Signed(now)
      requires taskStatus != RUN_IMMEDIATE && taskStatus != SUSPEND ==>
                 InReach(if taskStatus < SUSPEND then scheduled else background, now, now + taskStatus % SUSPEND)
      modifies this, tasks`nextTask, currentTask
      ensures Valid() && currentTask == null && tasks == old(tasks) && stayAwakeCounter == old(stayAwakeCounter)
      ensures ready == if taskStatus == RUN_IMMEDIATE then old(ready) + [old(currentTask)] else old(ready)
      ensures scheduled == if 0 < taskStatus < SUSPEND then Inserted(old(scheduled), old(currentTask)) else old(scheduled)
      ensures background == if taskStatus > SUSPEND then Inserted(old(background), old(currentTask)) else old(background)
      ensures taskStatus != RUN_IMMEDIATE && taskStatus != SUSPEND ==>
                old(currentTask).due == now + taskStatus % SUSPEND && old(currentTask).timestamp == Signed(old(currentTask).due)
      ensures taskStatus == RUN_IMMEDIATE || taskStatus == SUSPEND ==> old(currentTask).due == old(currentTask.due)
    {
      hide Valid, ValidBut, Inserted, InReach, Signed, Holds, Sorted;
      Loose(currentTask);
      Known(currentTask);
      InsertTask(currentTask, taskStatus, timer, now);
      PiecesOfValid();
      assert forall t :: t in tasks ==> t.taskState != Active;
      currentTask := null;
      Assemble(null);
    }
  }

  ghost predicate Subset(a: seq<Task>, b: seq<Task>) {
    forall u :: u in a ==> u in b
  }

  /** The tasks at the front of a queue that were due have gone to the end of the ready queue. */
  ghost predicate Released(was: seq<Task>, now: seq<Task>, ready: seq<Task>, ready': seq<Task>, time: int)
    reads was`due
  {
    exists n: nat :: n <= |was| && now == was[n..] && ready' == ready + was[..n]
                     && (forall u :: u in was[..n] ==> u.due <= time) && forall u :: u in was[n..] ==> u.due > time
  }

  function AtLeastZero(delay: int): nat {
    if delay < 0 then 0 else delay
  }

  lemma SubsetTimely(ss: seq<Task>, was: seq<Task>, now: int)
    requires Timely(was, now) && Subset(ss, was)
    ensures Timely(ss, now)
  {
    hide Signed;
  }

  /** Released tasks are ready, and the rest are not due. */
  lemma ReleasedAll(was: seq<Task>, rest: seq<Task>, ready: seq<Task>, ready': seq<Task>, now: int)
    requires Released(was, rest, ready, ready', now)
    ensures ready <= ready' && Subset(rest, was) && (forall u :: u in was ==> u in rest || u in ready')
    ensures forall u :: u in rest ==> u.due > now
    ensures ready' == ready + Due(was, now) && rest == Later(was, now)
  {
    hide Due, Later;
    var n: nat :| n <= |was| && rest == was[n..] && ready' == ready + was[..n]
                       && (forall u :: u in was[..n] ==> u.due <= now) && forall u :: u in was[n..] ==> u.due > now;
    assert was == was[..n] + was[n..];
    DueAre(was, n, now);
  }

  lemma {:induction false} DueAre(ss: seq<Task>, n: nat, now: int)
    requires n <= |ss| && (forall u :: u in ss[..n] ==> u.due <= now) && forall u :: u in ss[n..] ==> u.due > now
    ensures Due(ss, now) == ss[..n] && Later(ss, now) == ss[n..]
    decreases n
  {
    if n == 0 {
      assert ss[0..] == ss;
    } else {
      assert ss[0] in ss[..n] && ss[1..][..n - 1] == ss[..n][1..] && ss[1..][n - 1..] == ss[n..];
      DueAre(ss[1..], n - 1, now);
    }
  }

  /** Waking keeps those that were ready in front, and loses nobody. */
  lemma {:induction false} WokenKeeps(q: Queues, es: seq<Event>)
    ensures var r := WakeAll(q, es);
            && q.ready <= r.ready
            && (forall e :: e in es && e.consumerTask != null ==> e.consumerTask in r.ready)
            && (forall u :: u in q.scheduled ==> u in r.scheduled || u in r.ready)
            && (forall u :: u in q.background ==> u in r.background || u in r.ready)
    decreases |es|
  {
    hide Without;
    if es != [] {
      WokenKeeps(q, es[..|es| - 1]);
    }
  }

  lemma {:induction false} DueThenLater(ss: seq<Task>, now: int)
    ensures ss == Due(ss, now) + Later(ss, now)
    ensures forall u :: u in Due(ss, now) ==> u.due <= now
    decreases |ss|
  {
    if ss != [] && ss[0].due <= now {
      var due, rest := Due(ss[1..], now), Later(ss[1..], now);
      DueThenLater(ss[1..], now);
      FirstOfBoth(ss[0], due, rest);
      assert ss == [ss[0]] + ss[1..];
    }
  }

  lemma FirstOfBoth(t: Task, a: seq<Task>, b: seq<Task>)
    ensures [t] + (a + b) == ([t] + a) + b
  {
  }

  lemma {:induction false} LaterAreLater(ss: seq<Task>, now: int)
    requires Sorted(ss)
    ensures forall u :: u in Later(ss, now) ==> u.due > now
    decreases |ss|
  {
    hide Sorted;
    if ss != [] {
      FirstIsEarliest(ss);
      if ss[0].due <= now {
        LaterAreLater(ss[1..], now);
      }
    }
  }

  lemma {:induction false} WithoutSorted(ss: seq<Task>, t: Task)
    requires Sorted(ss)
    ensures Sorted(Without(ss, t))
    decreases |ss|
  {
    hide Sorted;
    if ss != [] {
      FirstIsEarliest(ss);
      if ss[0] != t {
        WithoutSorted(ss[1..], t);
        FirstThenSorted(ss[0], Without(ss[1..], t));
      }
    }
  }

  lemma FirstThenSorted(t: Task, rest: seq<Task>)
    requires Sorted(rest) && forall u :: u in rest ==> t.due <= u.due
    ensures Sorted([t] + rest)
  {
  }

  lemma FirstIsEarliest(ss: seq<Task>)
    requires Sorted(ss) && ss != []
    ensures Sorted(ss[1..]) && forall u :: u in ss ==> u.due >= ss[0].due
  {
  }

  /** What a step wakes: nobody overtakes those that were ready; every consumer and every task that is due
      becomes ready, and nobody else. */
  lemma NobodyIsLeft(q: Queues, es: seq<Event>, now: int)
    requires Sorted(q.scheduled) && Sorted(q.background)
    ensures var r := Release(WakeAll(q, es), now);
            && q.ready <= r.ready
            && (forall e :: e in es && e.consumerTask != null ==> e.consumerTask in r.ready)
            && (forall u :: u in q.scheduled || u in q.background ==> u in r.scheduled || u in r.background || u in r.ready)
            && (forall u :: u in r.scheduled ==> u in q.scheduled && u.due > now)
            && (forall u :: u in r.background ==> u in q.background && u.due > now)
            && (forall u :: u in r.ready ==>
                  u in q.ready || u in Consumers(es) || ((u in q.scheduled || u in q.background) && u.due <= now))
  {
    hide WakeAll, Due, Later, Sorted;
    WokenKeeps(q, es);
    WokenSorted(q, es);
    var woken := WakeAll(q, es);
    DueThenLater(woken.scheduled, now);
    DueThenLater(woken.background, now);
    LaterAreLater(woken.scheduled, now);
    LaterAreLater(woken.background, now);
  }

  ghost function Consumers(es: seq<Event>): (r: set<Task?>)
    ensures forall e :: e in es ==> e.consumerTask in r
  {
    set e | e in es :: e.consumerTask
  }

  /** Only consumers are woken, and the queues stay in order. */
  lemma {:induction false} WokenSorted(q: Queues, es: seq<Event>)
    requires Sorted(q.scheduled) && Sorted(q.background)
    ensures var r := WakeAll(q, es);
            Sorted(r.scheduled) && Sorted(r.background) && forall u :: u in r.ready ==> u in q.ready || u in Consumers(es)
    decreases |es|
  {
    hide Sorted, Without;
    if es != [] {
      var before := es[..|es| - 1];
      WokenSorted(q, before);
      assert Consumers(before) <= Consumers(es) && es[|es| - 1] in es;
      var t := es[|es| - 1].consumerTask;
      if t != null {
        WithoutSorted(WakeAll(q, before).scheduled, t);
        WithoutSorted(WakeAll(q, before).background, t);
      }
    }
  }

  lemma WokenNone(q: Queues, es: seq<Event>)
    ensures WakeAll(q, es[..0]) == q
  {
  }

  lemma WokenMore(q: Queues, es: seq<Event>, p: nat)
    requires p < |es|
    ensures WakeAll(q, es[..p + 1]) == Wake(WakeAll(q, es[..p]), es[p].consumerTask)
  {
    assert es[..p + 1][..p] == es[..p];
  }

  lemma FirstApart(ss: seq<Task>)
    requires Distinct(ss) && ss != []
    ensures ss == [ss[0]] + ss[1..] && ss[0] !in ss[1..] && Distinct(ss[1..])
    ensures forall u :: u in ss[1..] ==> u in ss
  {
  }

  ghost function Front(t: Task?, rest: seq<Task>): seq<Task> {
    if t == null then rest else [t] + rest
  }

  /** The first n tasks of a queue were due and have gone to the end of the ready queue. */
  ghost predicate Releasing(was: seq<Task>, n: nat, rest: seq<Task>, ready: seq<Task>, ready': seq<Task>, now: int)
    reads was`due, was`timestamp, rest`due, rest`timestamp
  {
    && n <= |was| && was[n..] == rest && ready' == ready + was[..n]
    && (forall u :: u in was[..n] ==> u.due <= now) && Timely(rest, now)
  }

  lemma FrontIs(t: Task?, rest: seq<Task>)
    ensures Front(t, rest) == if t == null then rest else [t] + rest
  {
  }

  lemma StartReleasing(was: seq<Task>, ready: seq<Task>, now: int)
    requires Timely(was, now)
    ensures Releasing(was, 0, was, ready, ready, now)
  {
    hide Timely;
    assert was[..0] == [];
  }

  lemma KeepReleasing(was: seq<Task>, n: nat, t: Task, rest: seq<Task>, ready: seq<Task>, ready': seq<Task>, now: int)
    requires Releasing(was, n, Front(t, rest), ready, ready', now) && t.due <= now
    ensures n + 1 <= |was| && Releasing(was, n + 1, rest, ready, ready' + [t], now) && Timely(rest, now)
  {
    hide Signed;
    assert was[n..][1..] == was[n + 1..] && was[n] == was[n..][0] && was[..n + 1] == was[..n] + [t];
  }

  lemma EndReleasing(was: seq<Task>, n: nat, rest: seq<Task>, ready: seq<Task>, ready': seq<Task>, now: int)
    requires Releasing(was, n, Front(null, rest), ready, ready', now) && forall u :: u in rest ==> u.due > now
    ensures Released(was, rest, ready, ready', now)
  {
  }

  /** The first task of a queue if it is due, with what remains of the queue; nothing if none is due. */
  method TakeDue(head: Task?, timer: int, ghost ss: seq<Task>, ghost state: TaskState, ghost tasks: set<Task>, ghost now: int)
    returns (pendingTask: Task?)
    requires Holds(head, ss, state, tasks, null) && Sorted(ss) && Timely(ss, now) && timer == Signed(now)
    ensures pendingTask == null ==> forall u :: u in ss ==> u.due > now
    ensures pendingTask != null ==>
              && pendingTask in tasks && pendingTask.taskState == state && pendingTask.due <= now
              && ss != [] && ss == [pendingTask] + ss[1..] && pendingTask !in ss[1..]
              && Holds(pendingTask.nextTask, ss[1..], state, tasks, pendingTask) && Sorted(ss[1..])
  {
    hide Signed, Timely;
    pendingTask := head;
    if pendingTask != null {
      HeadDeadline(ss, now);
      if Signed(pendingTask.timestamp - timer) > 0 {
        pendingTask := null;
      } else {
        TailOfQueue(head, ss);
      }
    }
  }

  lemma HeadDeadline(ss: seq<Task>, now: int)
    requires Timely(ss, now) && ss != []
    ensures Signed(ss[0].timestamp - Signed(now)) == ss[0].due - now
  {
    hide Signed;
    SignedDifference(ss[0].due, now);
  }

  lemma TailOfQueue(head: Task?, ss: seq<Task>)
    requires IsQueue(head, ss) && ss != []
    ensures IsQueue(ss[0].nextTask, ss[1..])
  {
    var tail := ss[1..];
    forall i {:trigger tail[i].nextTask} | 0 <= i < |tail|
      ensures tail[i].nextTask == At(tail, i + 1)
    {
      assert tail[i] == ss[i + 1];
    }
  }

  ghost predicate Prompt(t: Task, now: int)
    reads t`timestamp, t`due
  {
    t.timestamp == Signed(t.due) && 0 <= t.due - now < TWO_31
  }

  /** A queue with a task put in order of its deadline, after those that are due at the same time. */
  ghost function Inserted(ss: seq<Task>, t: Task): (r: seq<Task>)
    reads ss`due, t`due
    ensures t in r && (forall u :: u in r ==> u in ss || u == t) && forall u :: u in ss ==> u in r
  {
    if ss == [] || ss[0].due > t.due then [t] + ss else [ss[0]] + Inserted(ss[1..], t)
  }

  lemma {:induction false} InsertedAt(ss: seq<Task>, t: Task, k: nat)
    requires Belongs(ss, k, t.due)
    ensures Inserted(ss, t) == ss[..k] + [t] + ss[k..]
    decreases |ss|
  {
    hide Belongs;
    BelongsInRest(ss, k, t.due);
    if k == 0 {
      assert ss[..0] + [t] + ss[0..] == [t] + ss;
    } else {
      InsertedAt(ss[1..], t, k - 1);
      PlaceInRest(ss, t, k);
    }
  }

  lemma BelongsInRest(ss: seq<Task>, k: nat, due: int)
    requires Belongs(ss, k, due)
    ensures k <= |ss| && (k == 0 ==> ss == [] || ss[0].due > due)
    ensures k > 0 ==> ss[0].due <= due && Belongs(ss[1..], k - 1, due)
  {
  }

  lemma PlaceInRest(ss: seq<Task>, t: Task, k: nat)
    requires 0 < k <= |ss|
    ensures ss[..k] + [t] + ss[k..] == [ss[0]] + (ss[1..][..k - 1] + [t] + ss[1..][k - 1..])
  {
    assert ss[..k] == [ss[0]] + ss[1..][..k - 1] && ss[k..] == ss[1..][k - 1..];
  }

  lemma InsertedSorted(ss: seq<Task>, t: Task, k: nat)
    requires Belongs(ss, k, t.due) && Sorted(ss)
    ensures Sorted(ss[..k] + [t] + ss[k..])
  {
  }

  /** The deadlines of a queue lie less than 2^31 ticks from a time and from a new deadline. */
  ghost predicate InReach(ss: seq<Task>, now: int, due: int)
    reads ss`due, ss`timestamp
  {
    Timely(ss, now) && forall u :: u in ss ==> -TWO_31 < u.due - due < TWO_31
  }

  lemma ReachTimely(ss: seq<Task>, t: Task, now: int)
    requires InReach(ss, now, t.due) && Prompt(t, now)
    ensures Timely(ss + [t], now)
  {
    hide Signed;
  }

  method FindPosition(head: Task?, t: Task, ghost ss: seq<Task>, ghost now: int)
    returns (prev: Task?, cursor: Task?, ghost k: nat)
    requires IsQueue(head, ss) && Timely(ss + [t], now) && Sorted(ss)
    ensures k <= |ss| && Belongs(ss, k, t.due) && cursor == At(ss, k) && prev == if k == 0 then null else ss[k - 1]
  {
    prev, cursor := FindPlace(head, t, ss, now);
    k :| Belongs(ss, k, t.due);
  }

  /** Puts a task in order of its deadline. */
  method InsertInto(head: Task?, t: Task, ghost ss: seq<Task>, ghost state: TaskState, ghost tasks: set<Task>, ghost now: int)
    returns (head': Task?)
    requires Holds(head, ss, state, tasks, t) && t in tasks && t.taskState == state && Sorted(ss) && Timely(ss + [t], now)
    modifies Members(ss)`nextTask, t`nextTask
    ensures Holds(head', Inserted(ss, t), state, tasks, null) && Sorted(Inserted(ss, t))
  {
    hide Distinct, Sorted, Belongs, Timely, Inserted;
    var prev, cursor, k := FindPosition(head, t, ss, now);
    InsertedAt(ss, t, k);
    InsertedSorted(ss, t, k);
    head' := LinkAt(head, prev, cursor, t, k, ss);
  }

  method AddToEnd(head: Task?, end: Task?, t: Task, ghost ss: seq<Task>, ghost tasks: set<Task>) returns (head': Task?)
    requires Holds(head, ss, Ready, tasks, t) && t in tasks && (ss != [] ==> end == ss[|ss| - 1])
    modifies Members(ss)`nextTask, t`nextTask, t`taskState
    ensures Holds(head', ss + [t], Ready, tasks, null) && t.taskState == Ready
  {
    t.taskState := Ready;
    t.nextTask := null;
    if head == null {
      head' := t;
    } else {
      end.nextTask := t;
      head' := head;
    }
    ghost var now := ss + [t];
    forall i {:trigger now[i].nextTask} | 0 <= i < |now|
      ensures now[i].nextTask == At(now, i + 1)
    {
      if i < |ss| - 1 {
        assert now[i] == ss[i] && ss[i] != ss[|ss| - 1];
      }
    }
  }
}
