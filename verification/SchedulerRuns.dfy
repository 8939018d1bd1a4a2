/** Whole runs of the scheduler: tasks are started and resumed, events are raised, steps begin and end, in any
    order, whether by tasks or by interrupts. */
module SchedulerRuns {
  import opened Words
  import opened TaskQueues
  import opened Events
  import opened Scheduling = Scheduler

  /** What may happen.  Indices that point at nothing, starting a task that is under way, and withdrawing a request
      that was not made are operations that do nothing.  A step has two ends; the task that it makes active runs in
      between, and so everything else may happen in between as well. */
  datatype Op =
    | Start(i: nat)
    | Resume(i: nat)
    | Raise(i: nat, bitMask: bv32, bitValues: bv32)
    | StayAwake
    | CanSleep
    | Begin(now: int)
    | End(now: int, status: uint32)

  /** The scheduler between two operations: its queues, the task that runs, the events that wait, the deadlines, the
      flags, the requests to stay awake, and the idle period that the last step asked for. */
  datatype State = State(queues: Queues, active: Task?, pending: seq<Event>, due: map<Task, int>,
                         bits: map<Event, bv32>, awake: nat, delay: int)

  /** A queue has lost its front to the ready queue: just the tasks that are due. */
  ghost predicate Split(was: seq<Task>, rest: seq<Task>, due: map<Task, int>, now: int) {
    && |rest| <= |was| && rest == was[|was| - |rest|..]
    && (forall u :: u in Gone(was, rest) ==> u in due && due[u] <= now)
    && (forall u :: u in rest ==> u in due && due[u] > now)
  }

  ghost function Gone(was: seq<Task>, rest: seq<Task>): seq<Task>
    requires |rest| <= |was|
  {
    was[..|was| - |rest|]
  }

  /** A queue has got a task, after those that are due no later and before the others. */
  ghost predicate Placed(was: seq<Task>, ss: seq<Task>, t: Task, due: map<Task, int>) {
    exists k: nat :: k <= |was| && PlacedAt(was, ss, t, due, k)
  }

  ghost predicate PlacedAt(was: seq<Task>, ss: seq<Task>, t: Task, due: map<Task, int>, k: nat)
    requires k <= |was|
  {
    && ss == was[..k] + [t] + was[k..] && t in due
    && (forall u :: u in was[..k] ==> u in due && due[u] <= due[t])
    && (forall u :: u in was[k..] ==> u in due && due[u] > due[t])
  }

  /** A step begins. */
  ghost predicate Begun(s: State, t: State, now: int) {
    var q := WakeAll(s.queues, s.pending);
    && s.active == null && (t.active == null ==> t.queues.ready == [])
    && Split(q.scheduled, t.queues.scheduled, s.due, now) && Split(q.background, t.queues.background, s.due, now)
    && Front(t.active, t.queues.ready)
    == q.ready + Gone(q.scheduled, t.queues.scheduled) + Gone(q.background, t.queues.background)
    && t == State(t.queues, t.active, [], s.due, s.bits, s.awake, t.delay) && t.delay == IdlePeriod(t, now)
  }

  ghost function IdlePeriod(s: State, now: int): int {
    if s.active != null || s.awake > 0 then 0
    else if s.queues.scheduled == [] || s.queues.scheduled[0] !in s.due then TWO_31 - 1
    else s.due[s.queues.scheduled[0]] - now
  }

  /** The task that ran returns, if there was one. */
  ghost predicate Ended(s: State, t: State, now: int, status: uint32) {
    if s.active == null then t == s
    else if status == RUN_IMMEDIATE then
      t == s.(active := null, queues := s.queues.(ready := s.queues.ready + [s.active]))
    else if status == SUSPEND then t == s.(active := null)
    else
      && t == State(t.queues, null, s.pending, s.due[s.active := now + status % SUSPEND], s.bits, s.awake, s.delay)
      && t.queues.ready == s.queues.ready
      && if status < SUSPEND then
           Placed(s.queues.scheduled, t.queues.scheduled, s.active, t.due) && t.queues.background == s.queues.background
         else
           Placed(s.queues.background, t.queues.background, s.active, t.due) && t.queues.scheduled == s.queues.scheduled
  }

  /** A task that is in some queue, or runs. */
  ghost predicate UnderWay(s: State, t: Task) {
    t in s.queues.ready || t in s.queues.scheduled || t in s.queues.background || t == s.active
  }

  /** What an operation makes of a state. */
  ghost predicate Follows(op: Op, s: State, t: State, tasks: seq<Task>, flags: seq<Event>) {
    match op
    case Start(i) =>
      t == if i < |tasks| && !UnderWay(s, tasks[i]) then s.(queues := s.queues.(ready := s.queues.ready + [tasks[i]])) else s
    case Resume(i) =>
      t == if i < |tasks| && tasks[i] != s.active then s.(queues := Wake(s.queues, tasks[i])) else s
    case Raise(i, bitMask, bitValues) =>
      if i < |flags| && flags[i] in s.bits then
        t == s.(pending := Queued(s.pending, flags[i]), bits := s.bits[flags[i] := Masked(s.bits[flags[i]], bitMask, bitValues)])
      else t == s
    case StayAwake => t == s.(awake := s.awake + 1)
    case CanSleep => t == if s.awake > 0 then s.(awake := s.awake - 1) else s
    case Begin(now) => Begun(s, t, now)
    case End(now, status) => Ended(s, t, now, status)
  }

  /** Events wait once, in the order in which they occurred first. */
  ghost function Queued(pending: seq<Event>, e: Event): seq<Event> {
    if e.consumerTask == null || e in pending then pending else pending + [e]
  }

  /** Every task is in one queue at most, or runs, and the delayed ones are in order of their deadlines. */
  ghost predicate Orderly(s: State) {
    var q := s.queues;
    && Distinct(q.ready) && Distinct(q.scheduled) && Distinct(q.background)
    && Disjoint(q.ready, q.scheduled) && Disjoint(q.ready, q.background) && Disjoint(q.scheduled, q.background)
    && (s.active != null ==> s.active !in q.ready && s.active !in q.scheduled && s.active !in q.background)
    && InOrder(q.scheduled, s.due) && InOrder(q.background, s.due)
  }

  ghost predicate InOrder(ss: seq<Task>, due: map<Task, int>) {
    && (forall u :: u in ss ==> u in due)
    && forall i, j :: 0 <= i < j < |ss| ==> due[ss[i]] <= due[ss[j]]
  }

  ghost predicate IsRun(ops: seq<Op>, states: seq<State>, tasks: seq<Task>, flags: seq<Event>) {
    && |states| == |ops| + 1
    && (forall i {:trigger states[i]} :: 0 <= i < |states| ==> Orderly(states[i]))
    && forall i {:trigger ops[i]} :: 0 <= i < |ops| ==> Follows(ops[i], states[i], states[i + 1], tasks, flags)
  }

  // ---- what holds in every run

  /** The number of steps that begin. */
  function Begins(ops: seq<Op>): nat {
    if ops == [] then 0 else Begins(ops[..|ops| - 1]) + if ops[|ops| - 1].Begin? then 1 else 0
  }

  /** The queue as a step finds it when it has woken everybody: what was ready comes first. */
  lemma BegunFront(s: State, t: State, now: int)
    requires Begun(s, t, now)
    ensures s.queues.ready <= Front(t.active, t.queues.ready)
    ensures forall e :: e in s.pending && e.consumerTask != null ==> e.consumerTask in Front(t.active, t.queues.ready)
  {
    hide WakeAll, Split;
    WokenKeeps(s.queues, s.pending);
  }

  /** Whatever happens, those that are ready move up by one with every step, and only then. */
  lemma MoveUp(op: Op, s: State, t: State, tasks: seq<Task>, flags: seq<Event>)
    requires Follows(op, s, t, tasks, flags)
    ensures !op.Begin? ==> s.queues.ready <= t.queues.ready
    ensures op.Begin? && s.queues.ready != [] ==> t.active == s.queues.ready[0] && s.queues.ready[1..] <= t.queues.ready
  {
    hide WakeAll, Begun, Without, Placed;
    if op.Begin? {
      BegunFront(s, t, op.now);
      BegunActive(s, t, op.now);
    }
  }

  lemma BegunActive(s: State, t: State, now: int)
    requires Begun(s, t, now)
    ensures t.active == null ==> Front(t.active, t.queues.ready) == []
  {
  }

  lemma {:induction false} ReadyMovesUp(ops: seq<Op>, states: seq<State>, tasks: seq<Task>, flags: seq<Event>, i: nat, j: nat)
    requires IsRun(ops, states, tasks, flags) && i <= j <= |ops|
    ensures var n := Begins(ops[i..j]); n <= |states[i].queues.ready| ==> states[i].queues.ready[n..] <= states[j].queues.ready
    decreases j - i
  {
    hide Orderly, Follows;
    if i == j {
      assert ops[i..j] == [];
    } else {
      ReadyMovesUp(ops, states, tasks, flags, i, j - 1);
      assert ops[i..j][..j - 1 - i] == ops[i..j - 1];
      assert Follows(ops[j - 1], states[j - 1], states[j], tasks, flags);
      MoveUp(ops[j - 1], states[j - 1], states[j], tasks, flags);
    }
  }

  /** First in, first out, in every run and from every moment: the task at position p of the ready queue is the one
      that the step after p others runs. */
  lemma NoneOvertakes(ops: seq<Op>, states: seq<State>, tasks: seq<Task>, flags: seq<Event>, i: nat, j: nat, p: nat)
    requires IsRun(ops, states, tasks, flags) && i <= j < |ops| && p < |states[i].queues.ready|
    requires ops[j].Begin? && Begins(ops[i..j]) == p
    ensures states[j + 1].active == states[i].queues.ready[p]
  {
    hide Orderly, Follows;
    ReadyMovesUp(ops, states, tasks, flags, i, j);
    assert Follows(ops[j], states[j], states[j + 1], tasks, flags);
    MoveUp(ops[j], states[j], states[j + 1], tasks, flags);
  }

  lemma {:induction false} PendingGrows(ops: seq<Op>, states: seq<State>, tasks: seq<Task>, flags: seq<Event>, i: nat, j: nat)
    requires IsRun(ops, states, tasks, flags) && i <= j <= |ops| && forall k :: i <= k < j ==> !ops[k].Begin?
    ensures states[i].pending <= states[j].pending
    decreases j - i
  {
    hide Orderly, Wake, Placed, WakeAll, Begun;
    if i < j {
      PendingGrows(ops, states, tasks, flags, i, j - 1);
      assert Follows(ops[j - 1], states[j - 1], states[j], tasks, flags);
    }
  }

  /** Whenever an event is raised, its consumer is ready or runs once the next step has begun. */
  lemma RaisedIsServed(ops: seq<Op>, states: seq<State>, tasks: seq<Task>, flags: seq<Event>, i: nat, j: nat)
    requires IsRun(ops, states, tasks, flags) && i < j < |ops|
    requires ops[i].Raise? && ops[i].i < |flags| && flags[ops[i].i] in states[i].bits && flags[ops[i].i].consumerTask != null
    requires ops[j].Begin? && forall k :: i < k < j ==> !ops[k].Begin?
    ensures flags[ops[i].i].consumerTask in Front(states[j + 1].active, states[j + 1].queues.ready)
  {
    hide Orderly, Wake, Placed, WakeAll, Begun;
    assert Follows(ops[i], states[i], states[i + 1], tasks, flags);
    PendingGrows(ops, states, tasks, flags, i + 1, j);
    assert flags[ops[i].i] in states[i + 1].pending;
    InPrefix(flags[ops[i].i], states[i + 1].pending, states[j].pending);
    assert Follows(ops[j], states[j], states[j + 1], tasks, flags);
    BegunFront(states[j], states[j + 1], ops[j].now);
  }

  lemma InPrefix(e: Event, a: seq<Event>, b: seq<Event>)
    requires e in a && a <= b
    ensures e in b
  {
    var k :| 0 <= k < |a| && a[k] == e;
    assert b[k] == e;
  }

  /** A step leaves no delayed task waiting that is due, and asks for no idle period that lasts beyond a deadline. */
  lemma NobodyIsLate(ops: seq<Op>, states: seq<State>, tasks: seq<Task>, flags: seq<Event>, j: nat)
    requires IsRun(ops, states, tasks, flags) && j < |ops| && ops[j].Begin?
    ensures var t, now := states[j + 1], ops[j].now;
            && (forall u :: u in t.queues.scheduled || u in t.queues.background ==> u in t.due && t.due[u] > now)
            && (forall u :: u in states[j].queues.scheduled || u in states[j].queues.background ==>
                  u in t.queues.scheduled || u in t.queues.background || u in Front(t.active, t.queues.ready))
            && (t.delay != 0 ==> t.active == null && t.queues.ready == []
                                 && forall u :: u in t.queues.scheduled ==> now + t.delay <= t.due[u])
            // with nothing to do, and nobody asking to stay awake, the period lasts until the first deadline
            && (t.active == null && t.awake == 0 ==>
                  if t.queues.scheduled == [] then t.delay == 0x7FFF_FFFF
                  else exists u :: u in t.queues.scheduled && now + t.delay == t.due[u])
  {
    var s, t, now := states[j], states[j + 1], ops[j].now;
    assert Follows(ops[j], s, t, tasks, flags) && Orderly(t);
    BegunTimes(s, t, now);
    BegunKeeps(s, t, now);
  }

  lemma BegunTimes(s: State, t: State, now: int)
    requires Begun(s, t, now) && Orderly(t)
    ensures forall u :: u in t.queues.scheduled || u in t.queues.background ==> u in t.due && t.due[u] > now
    ensures t.delay != 0 ==> t.active == null && t.queues.ready == []
                             && forall u :: u in t.queues.scheduled ==> now + t.delay <= t.due[u]
    ensures t.active == null && t.awake == 0 ==>
              if t.queues.scheduled == [] then t.delay == 0x7FFF_FFFF
              else exists u :: u in t.queues.scheduled && now + t.delay == t.due[u]
  {
    hide WakeAll, Distinct, Disjoint;
    if t.queues.scheduled != [] {
      assert t.queues.scheduled[0] in t.queues.scheduled;
    }
  }

  lemma BegunKeeps(s: State, t: State, now: int)
    requires Begun(s, t, now)
    ensures forall u :: u in s.queues.scheduled || u in s.queues.background ==>
                          u in t.queues.scheduled || u in t.queues.background || u in Front(t.active, t.queues.ready)
  {
    hide WakeAll, Split, Gone, IdlePeriod;
    var q := WakeAll(s.queues, s.pending);
    WokenKeeps(s.queues, s.pending);
    SplitKeeps(q.scheduled, t.queues.scheduled, s.due, now);
    SplitKeeps(q.background, t.queues.background, s.due, now);
  }

  lemma SplitKeeps(was: seq<Task>, rest: seq<Task>, due: map<Task, int>, now: int)
    requires Split(was, rest, due, now)
    ensures |rest| <= |was| && forall u :: u in was ==> u in rest || u in Gone(was, rest)
  {
    assert was == Gone(was, rest) + rest;
  }

  /** Nobody is woken by a step but the consumers of events and those that are due. */
  lemma NobodyIsEarly(ops: seq<Op>, states: seq<State>, tasks: seq<Task>, flags: seq<Event>, j: nat, u: Task)
    requires IsRun(ops, states, tasks, flags) && j < |ops| && ops[j].Begin?
    requires u in Front(states[j + 1].active, states[j + 1].queues.ready)
    ensures var s := states[j];
            || u in s.queues.ready || (exists e :: e in s.pending && e.consumerTask == u)
            || ((u in s.queues.scheduled || u in s.queues.background) && u in s.due && s.due[u] <= ops[j].now)
  {
    hide WakeAll, Orderly;
    var s, t, now := states[j], states[j + 1], ops[j].now;
    assert Follows(ops[j], s, t, tasks, flags);
    OnlyWoken(s.queues, s.pending, u);
    var q := WakeAll(s.queues, s.pending);
    if u !in q.ready {
      assert u in Gone(q.scheduled, t.queues.scheduled) || u in Gone(q.background, t.queues.background);
      assert u in q.scheduled || u in q.background;
    }
  }

  lemma {:induction false} OnlyWoken(q: Queues, es: seq<Event>, u: Task)
    ensures u in WakeAll(q, es).ready ==> u in q.ready || exists e :: e in es && e.consumerTask == u
    decreases |es|
  {
    if es != [] {
      OnlyWoken(q, es[..|es| - 1], u);
      assert es[|es| - 1] in es;
    }
  }

  /** A task that is resumed is ready, or active; one that is started is ready unless it was under way. */
  lemma StartedIsReady(ops: seq<Op>, states: seq<State>, tasks: seq<Task>, flags: seq<Event>, j: nat)
    requires IsRun(ops, states, tasks, flags) && j < |ops|
    requires (ops[j].Resume? || ops[j].Start?) && ops[j].i < |tasks|
    ensures var u, s, t := tasks[ops[j].i], states[j], states[j + 1];
            && (ops[j].Resume? ==> u in t.queues.ready || u == t.active)
            && (ops[j].Start? ==> if UnderWay(s, u) then t == s else u in t.queues.ready)
  {
    hide Orderly, Without, UnderWay;
    assert Follows(ops[j], states[j], states[j + 1], tasks, flags);
  }

  /** Where a task goes when it returns: to the end of the ready queue, nowhere, or into one of the queues of
      delayed tasks for the time that it asks for. */
  lemma ReturnedWaits(ops: seq<Op>, states: seq<State>, tasks: seq<Task>, flags: seq<Event>, j: nat)
    requires IsRun(ops, states, tasks, flags) && j < |ops| && ops[j].End? && states[j].active != null
    ensures var u, now, status, s, t := states[j].active, ops[j].now, ops[j].status, states[j], states[j + 1];
            && t.active == null
            && (status == 0 ==> t.queues.ready == s.queues.ready + [u])
            && (status == 0x8000_0000 ==> !UnderWay(t, u))
            && (0 < status < 0x8000_0000 ==> u in t.queues.scheduled && u in t.due && t.due[u] == now + status)
            && (status > 0x8000_0000 ==>
                  u in t.queues.background && u in t.due && t.due[u] == now + (status - 0x8000_0000))
  {
    var u, s, t := states[j].active, states[j], states[j + 1];
    assert Orderly(s) && Follows(ops[j], s, t, tasks, flags);
    if ops[j].status !in {0, SUSPEND} {
      if ops[j].status < SUSPEND {
        RemainderIs(ops[j].status, SUSPEND, 0, ops[j].status);
        PlacedIn(s.queues.scheduled, t.queues.scheduled, u, t.due);
      } else {
        RemainderIs(ops[j].status, SUSPEND, 1, ops[j].status - SUSPEND);
        PlacedIn(s.queues.background, t.queues.background, u, t.due);
      }
    }
  }

  lemma PlacedIn(was: seq<Task>, ss: seq<Task>, t: Task, due: map<Task, int>)
    requires Placed(was, ss, t, due)
    ensures t in ss && t in due
  {
    var k: nat :| k <= |was| && PlacedAt(was, ss, t, due, k);
    assert ss[k] == t;
  }

  // ---- the scheduler and the event queue run like this

  ghost function Deadlines(tasks: set<Task>): map<Task, int>
    reads tasks`due
  {
    map t | t in tasks :: t.due
  }

  ghost function Bits(flags: seq<Event>): map<Event, bv32>
    reads flags`eventBits
  {
    map e | e in flags :: e.eventBits
  }

  ghost function Snapshot(scheduler: Scheduler, events: EventQueue, flags: seq<Event>, delay: int): State
    reads scheduler, scheduler.tasks`due, events, flags`eventBits
  {
    State(scheduler.Waiting(), scheduler.currentTask, events.queue, Deadlines(scheduler.tasks), Bits(flags),
          scheduler.stayAwakeCounter, delay)
  }

  /** The scheduler is valid, and so is the event queue; all tasks that matter are known. */
  ghost predicate Sound(scheduler: Scheduler, events: EventQueue, tasks: seq<Task>, flags: seq<Event>)
    reads scheduler, scheduler.scheduled, scheduler.background, scheduler.ready, scheduler.tasks, events, events.queue
  {
    && scheduler.Valid() && events.Valid() && Running(scheduler)
    && (forall t :: t in tasks ==> t in scheduler.tasks)
    && (forall e :: e in flags && e.consumerTask != null ==> e.consumerTask in scheduler.tasks)
    && (forall e :: e in events.queue ==> e in flags && e.consumerTask in scheduler.tasks)
  }

  ghost predicate Running(scheduler: Scheduler)
    reads scheduler`currentTask, scheduler`tasks, scheduler.tasks`taskState
  {
    scheduler.currentTask != null ==> scheduler.currentTask in scheduler.tasks && scheduler.currentTask.taskState == Active
  }

  /** Deadlines that lie after a time, and less than 2^31 ticks after it. */
  ghost predicate Ahead(ss: seq<Task>, time: int)
    reads ss`due, ss`timestamp
  {
    forall u :: u in ss ==> u.timestamp == Signed(u.due) && time < u.due < time + TWO_31
  }

  ghost predicate AllAhead(scheduler: Scheduler, time: int)
    reads scheduler`scheduled, scheduler`background, scheduler.scheduled`due, scheduler.scheduled`timestamp,
          scheduler.background`due, scheduler.background`timestamp
  {
    Ahead(scheduler.scheduled, time) && Ahead(scheduler.background, time)
  }

  lemma AheadTimely(ss: seq<Task>, time: int, later: int)
    requires Ahead(ss, time) && time <= later < time + TWO_31
    ensures Timely(ss, later)
  {
    hide Signed;
  }

  lemma StillAhead(ss: seq<Task>, was: seq<Task>, later: int)
    requires Timely(was, later) && Subset(ss, was) && forall u :: u in ss ==> u.due > later
    ensures Ahead(ss, later)
  {
    hide Signed;
  }

  lemma AheadInReach(ss: seq<Task>, time: int, now: int, due: int)
    requires Ahead(ss, time) && time <= now < due < time + TWO_31
    ensures InReach(ss, now, due)
  {
    hide Signed, Timely;
    AheadTimely(ss, time, now);
  }

  lemma InsertedAhead(ss: seq<Task>, t: Task, time: int)
    requires Ahead(ss, time) && t.timestamp == Signed(t.due) && time < t.due < time + TWO_31
    ensures Ahead(Inserted(ss, t), time)
  {
    hide Inserted, Signed;
  }

  /** What a snapshot shows is in order. */
  lemma SnapshotOrderly(scheduler: Scheduler, events: EventQueue, flags: seq<Event>, delay: int)
    requires scheduler.Valid() && Running(scheduler)
    ensures Orderly(Snapshot(scheduler, events, flags, delay))
  {
    hide IsQueue;
    scheduler.PiecesOfValid();
    SortedInOrder(scheduler.scheduled, scheduler.tasks);
    SortedInOrder(scheduler.background, scheduler.tasks);
  }

  lemma SortedInOrder(ss: seq<Task>, tasks: set<Task>)
    requires Sorted(ss) && forall t :: t in ss ==> t in tasks
    ensures InOrder(ss, Deadlines(tasks))
  {
  }

  /** The states of tasks tell where they are. */
  lemma WhereTasksAre(scheduler: Scheduler, events: EventQueue, flags: seq<Event>, delay: int, t: Task)
    requires scheduler.Valid() && Running(scheduler) && t in scheduler.tasks
    ensures var s := Snapshot(scheduler, events, flags, delay);
            && (UnderWay(s, t) <==> t.taskState !in {Initialising, Suspended})
            && (t.taskState == Ready <==> t in s.queues.ready) && (t.taskState == Active <==> t == s.active)
  {
    hide IsQueue, Sorted, Distinct;
    scheduler.PiecesOfValid();
    assert scheduler.InPlace(t);
  }

  method DoStart(scheduler: Scheduler, events: EventQueue, tasks: seq<Task>, flags: seq<Event>, i: nat, ghost delay: int,
                 ghost last: int)
    requires Sound(scheduler, events, tasks, flags) && AllAhead(scheduler, last)
    modifies scheduler, scheduler.tasks
    ensures Sound(scheduler, events, tasks, flags) && AllAhead(scheduler, last) && scheduler.tasks == old(scheduler.tasks)
    ensures Follows(Start(i), old(Snapshot(scheduler, events, flags, delay)), Snapshot(scheduler, events, flags, delay), tasks, flags)
  {
    hide Scheduler.Valid, EventQueue.Valid, Signed, Ahead, UnderWay;
    if i < |tasks| {
      WhereTasksAre(scheduler, events, flags, delay, tasks[i]);
      if tasks[i].taskState == Initialising || tasks[i].taskState == Suspended {
        scheduler.TaskStart(tasks[i]);
      }
    }
  }

  method DoResume(scheduler: Scheduler, events: EventQueue, tasks: seq<Task>, flags: seq<Event>, i: nat, ghost delay: int,
                  ghost last: int)
    requires Sound(scheduler, events, tasks, flags) && AllAhead(scheduler, last)
    modifies scheduler, scheduler.tasks
    ensures Sound(scheduler, events, tasks, flags) && AllAhead(scheduler, last) && scheduler.tasks == old(scheduler.tasks)
    ensures Follows(Resume(i), old(Snapshot(scheduler, events, flags, delay)), Snapshot(scheduler, events, flags, delay), tasks, flags)
  {
    hide Scheduler.Valid, EventQueue.Valid, Signed, Without, UnderWay;
    if i < |tasks| {
      WhereTasksAre(scheduler, events, flags, delay, tasks[i]);
      scheduler.TaskResume(tasks[i]);
    }
  }

  ghost function Raisable(flags: seq<Event>): (r: set<Event>)
    ensures forall e :: e in flags ==> e in r
  {
    set e | e in flags
  }

  method RaiseFlag(events: EventQueue, flags: seq<Event>, e: Event, bitMask: bv32, bitValues: bv32)
    requires events.Valid() && e in flags && forall f :: f in events.queue ==> f in flags
    modifies events, Raisable(flags)
    ensures events.Valid() && events.queue == Queued(old(events.queue), e)
    ensures Bits(flags) == old(Bits(flags))[e := Masked(old(e.eventBits), bitMask, bitValues)]
  {
    hide Masked, EventQueue.Valid;
    var before := events.AssignMaskedBits(e, bitMask, bitValues);
  }

  method DoRaise(scheduler: Scheduler, events: EventQueue, tasks: seq<Task>, flags: seq<Event>, i: nat, bitMask: bv32, bitValues: bv32,
                 ghost delay: int, ghost last: int)
    requires Sound(scheduler, events, tasks, flags) && AllAhead(scheduler, last)
    modifies events, Raisable(flags)
    ensures Sound(scheduler, events, tasks, flags) && AllAhead(scheduler, last)
    ensures Follows(Raise(i, bitMask, bitValues), old(Snapshot(scheduler, events, flags, delay)),
                    Snapshot(scheduler, events, flags, delay), tasks, flags)
  {
    hide Scheduler.Valid, EventQueue.Valid, Signed, AllAhead, Running, Masked, UnderWay, Begun, Ended, Wake, Deadlines;
    if i < |flags| {
      RaiseFlag(events, flags, flags[i], bitMask, bitValues);
    }
  }

  method DoAwake(scheduler: Scheduler, events: EventQueue, tasks: seq<Task>, flags: seq<Event>, stay: bool, ghost delay: int,
                 ghost last: int)
    requires Sound(scheduler, events, tasks, flags) && AllAhead(scheduler, last)
    modifies scheduler
    ensures Sound(scheduler, events, tasks, flags) && AllAhead(scheduler, last) && scheduler.tasks == old(scheduler.tasks)
    ensures Follows(if stay then StayAwake else CanSleep, old(Snapshot(scheduler, events, flags, delay)),
                    Snapshot(scheduler, events, flags, delay), tasks, flags)
  {
    hide Scheduler.Valid, EventQueue.Valid, Signed, Ahead;
    if stay {
      scheduler.StayAwake();
    } else if scheduler.stayAwakeCounter > 0 {
      scheduler.CanSleep();
    }
  }

  /** Releasing what is due splits a queue. */
  lemma ReleaseSplits(ss: seq<Task>, tasks: set<Task>, now: int)
    requires Sorted(ss) && forall u :: u in ss ==> u in tasks
    ensures Split(ss, Later(ss, now), Deadlines(tasks), now) && Gone(ss, Later(ss, now)) == Due(ss, now)
  {
    hide Sorted, Due, Later;
    DueThenLater(ss, now);
    LaterAreLater(ss, now);
  }

  lemma BegunIs(s: State, t: State, now: int)
    requires s.active == null && (t.active == null ==> t.queues.ready == [])
    requires var q, r := WakeAll(s.queues, s.pending), t.queues;
             && Split(q.scheduled, r.scheduled, s.due, now) && Split(q.background, r.background, s.due, now)
             && Front(t.active, r.ready) == q.ready + Gone(q.scheduled, r.scheduled) + Gone(q.background, r.background)
    requires t == State(t.queues, t.active, [], s.due, s.bits, s.awake, IdlePeriod(t, now))
    ensures Begun(s, t, now)
  {
  }

  /** The queues of a step that begins. */
  method BeginQueues(scheduler: Scheduler, events: EventQueue, now: int, ghost last: int) returns (execDelay: nat)
    requires scheduler.Valid() && events.Valid() && forall e :: e in events.queue ==> e.consumerTask in scheduler.tasks
    requires AllAhead(scheduler, last) && scheduler.currentTask == null && last <= now < last + TWO_31
    modifies scheduler, scheduler.tasks`nextTask, scheduler.tasks`taskState, events
    ensures scheduler.Valid() && events.Valid() && events.queue == [] && Running(scheduler) && AllAhead(scheduler, now)
    ensures scheduler.tasks == old(scheduler.tasks) && scheduler.stayAwakeCounter == old(scheduler.stayAwakeCounter)
    ensures scheduler.currentTask == null ==> scheduler.ready == []
    ensures var q, r := old(WakeAll(scheduler.Waiting(), events.queue)), scheduler.Waiting();
            && Split(q.scheduled, r.scheduled, old(Deadlines(scheduler.tasks)), now)
            && Split(q.background, r.background, old(Deadlines(scheduler.tasks)), now)
            && Front(scheduler.currentTask, r.ready) == q.ready + Gone(q.scheduled, r.scheduled) + Gone(q.background, r.background)
    ensures execDelay == if scheduler.currentTask != null || scheduler.stayAwakeCounter > 0 then 0
                         else IdleTime(scheduler.scheduled, now)
  {
    hide Scheduler.Valid, Scheduler.ValidBut, EventQueue.Valid, Timely, Ahead, Signed, WakeAll, Sorted, Holds, Scheduler.InPlace,
      Due, Later, Split, Gone, Deadlines;
    ghost var q, es := scheduler.Waiting(), events.queue;
    AheadTimely(scheduler.scheduled, last, now);
    AheadTimely(scheduler.background, last, now);
    scheduler.PiecesOfValid();
    scheduler.KnownValid();
    NobodyIsLeft(q, es, now);
    WokenSorted(q, es);
    ghost var woken := WakeAll(q, es);
    ReleaseSplits(woken.scheduled, scheduler.tasks, now);
    ReleaseSplits(woken.background, scheduler.tasks, now);
    execDelay := scheduler.BeginStep(events, Signed(now), now);
    StillAhead(scheduler.scheduled, q.scheduled, now);
    StillAhead(scheduler.background, q.background, now);
  }

  method DoBegin(scheduler: Scheduler, events: EventQueue, tasks: seq<Task>, flags: seq<Event>, now: int, ghost last: int,
                 ghost delay: int)
    returns (execDelay: nat)
    requires Sound(scheduler, events, tasks, flags) && AllAhead(scheduler, last) && scheduler.currentTask == null
    requires last <= now < last + TWO_31
    modifies scheduler, scheduler.tasks, events
    ensures Sound(scheduler, events, tasks, flags) && AllAhead(scheduler, now) && scheduler.tasks == old(scheduler.tasks)
    ensures Follows(Begin(now), old(Snapshot(scheduler, events, flags, delay)), Snapshot(scheduler, events, flags, execDelay),
                    tasks, flags)
  {
    hide Scheduler.Valid, EventQueue.Valid, AllAhead, WakeAll, Split, Gone, Begun, Ended, Bits, Wake, UnderWay, Running;
    ghost var s := Snapshot(scheduler, events, flags, delay);
    execDelay := BeginQueues(scheduler, events, now, last);
    assert Deadlines(scheduler.tasks) == s.due;
    ghost var t := Snapshot(scheduler, events, flags, execDelay);
    FirstDeadline(scheduler, now);
    BegunIs(s, t, now);
  }

  lemma FirstDeadline(scheduler: Scheduler, now: int)
    requires scheduler.Valid()
    ensures scheduler.scheduled != [] ==> scheduler.scheduled[0] in scheduler.tasks
    ensures IdleTime(scheduler.scheduled, now)
         == if scheduler.scheduled == [] then TWO_31 - 1 else Deadlines(scheduler.tasks)[scheduler.scheduled[0]] - now
  {
    hide Scheduler.Valid;
    scheduler.KnownValid();
  }

  /** A task inserted into a sorted queue is where it belongs. */
  lemma InsertedPlaced(was: seq<Task>, t: Task, tasks: set<Task>)
    requires Sorted(was) && t in tasks && forall u :: u in was ==> u in tasks
    ensures Placed(was, Inserted(was, t), t, Deadlines(tasks))
  {
    hide Inserted;
    var k := FirstLater(was, t.due);
    InsertedAt(was, t, k);
    assert PlacedAt(was, Inserted(was, t), t, Deadlines(tasks), k);
  }

  lemma {:induction false} FirstLater(ss: seq<Task>, due: int) returns (k: nat)
    requires Sorted(ss)
    ensures Belongs(ss, k, due) && k <= |ss|
    decreases |ss|
  {
    if ss == [] || ss[0].due > due {
      k := 0;
    } else {
      k := FirstLater(ss[1..], due);
      k := k + 1;
    }
  }

  method DoEnd(scheduler: Scheduler, events: EventQueue, tasks: seq<Task>, flags: seq<Event>, now: int, status: uint32,
               ghost last: int, ghost delay: int)
    requires Sound(scheduler, events, tasks, flags) && AllAhead(scheduler, last)
    requires last <= now && now + status % SUSPEND < last + TWO_31
    modifies scheduler, scheduler.tasks
    ensures Sound(scheduler, events, tasks, flags) && AllAhead(scheduler, last) && scheduler.tasks == old(scheduler.tasks)
    ensures scheduler.currentTask == null
    ensures Follows(End(now, status), old(Snapshot(scheduler, events, flags, delay)), Snapshot(scheduler, events, flags, delay),
                    tasks, flags)
  {
    hide Scheduler.Valid, Scheduler.ValidBut, EventQueue.Valid, Timely, Ahead, Inserted, Signed, InReach, Placed, Holds,
      Scheduler.InPlace;
    if scheduler.currentTask != null {
      ghost var t, q := scheduler.currentTask, scheduler.Waiting();
      if status != RUN_IMMEDIATE && status != SUSPEND {
        AheadInReach(if status < SUSPEND then scheduler.scheduled else scheduler.background, last, now, now + status % SUSPEND);
      }
      scheduler.KnownValid();
      scheduler.NoneReady();
      scheduler.PiecesOfValid();
      ghost var due := Deadlines(scheduler.tasks);
      scheduler.EndStep(status, Signed(now), now);
      if status != RUN_IMMEDIATE && status != SUSPEND {
        assert Deadlines(scheduler.tasks) == due[t := now + status % SUSPEND];
        InsertedAhead(if status < SUSPEND then q.scheduled else q.background, t, last);
        InsertedPlaced(if status < SUSPEND then q.scheduled else q.background, t, scheduler.tasks);
      } else {
        assert Deadlines(scheduler.tasks) == due;
      }
    }
  }

  /** When the last step began, and whether it is still to end. */
  function LastBegin(ops: seq<Op>, start: int): int {
    if ops == [] then start
    else if ops[|ops| - 1].Begin? then ops[|ops| - 1].now
    else LastBegin(ops[..|ops| - 1], start)
  }

  predicate Inside(ops: seq<Op>) {
    ops != [] && (ops[|ops| - 1].Begin? || (!ops[|ops| - 1].End? && Inside(ops[..|ops| - 1])))
  }

  /** Steps do not overlap.  From the beginning of one it takes less than 2^31 ticks to the next, and to any deadline
      that it sets. */
  predicate InTime(op: Op, last: int, inside: bool) {
    match op
    case Begin(now) => !inside && last <= now < last + TWO_31
    case End(now, status) => inside && last <= now && now + status % SUSPEND < last + TWO_31
    case _ => true
  }

  predicate Paced(ops: seq<Op>, start: int) {
    forall i {:trigger ops[i]} :: 0 <= i < |ops| ==> InTime(ops[i], LastBegin(ops[..i], start), Inside(ops[..i]))
  }

  lemma OneMoreOp(ops: seq<Op>, op: Op, start: int)
    ensures LastBegin(ops + [op], start) == if op.Begin? then op.now else LastBegin(ops, start)
    ensures Inside(ops + [op]) == (op.Begin? || (!op.End? && Inside(ops)))
  {
    assert (ops + [op])[..|ops|] == ops;
  }

  lemma ActiveKept(op: Op, s: State, t: State, tasks: seq<Task>, flags: seq<Event>)
    requires Follows(op, s, t, tasks, flags) && !op.Begin? && s.active == null
    ensures t.active == null
  {
    hide Begun, Wake, Queued, UnderWay;
  }

  /** Performs one operation. */
  method Perform(scheduler: Scheduler, events: EventQueue, tasks: seq<Task>, flags: seq<Event>, op: Op, ghost last: int,
                 ghost inside: bool, ghost delay: int)
    returns (execDelay: int)
    requires Sound(scheduler, events, tasks, flags) && AllAhead(scheduler, last)
    requires InTime(op, last, inside) && (!inside ==> scheduler.currentTask == null)
    modifies scheduler, scheduler.tasks, events, Raisable(flags)
    ensures Sound(scheduler, events, tasks, flags) && AllAhead(scheduler, if op.Begin? then op.now else last)
    ensures scheduler.tasks == old(scheduler.tasks) && (op.End? ==> scheduler.currentTask == null)
    ensures execDelay >= 0 && Follows(op, old(Snapshot(scheduler, events, flags, delay)),
                                      Snapshot(scheduler, events, flags, if op.Begin? then execDelay else delay), tasks, flags)
  {
    hide Sound, AllAhead, Follows, Snapshot;
    execDelay := 0;
    match op
    case Start(i) => DoStart(scheduler, events, tasks, flags, i, delay, last);
    case Resume(i) => DoResume(scheduler, events, tasks, flags, i, delay, last);
    case Raise(i, bitMask, bitValues) => DoRaise(scheduler, events, tasks, flags, i, bitMask, bitValues, delay, last);
    case StayAwake => DoAwake(scheduler, events, tasks, flags, true, delay, last);
    case CanSleep => DoAwake(scheduler, events, tasks, flags, false, delay, last);
    case Begin(now) => execDelay := DoBegin(scheduler, events, tasks, flags, now, last, delay);
    case End(now, status) => DoEnd(scheduler, events, tasks, flags, now, status, last, delay);
  }

  lemma LongerRun(ops: seq<Op>, states: seq<State>, tasks: seq<Task>, flags: seq<Event>, op: Op, t: State)
    requires IsRun(ops, states, tasks, flags) && Follows(op, states[|ops|], t, tasks, flags) && Orderly(t)
    ensures IsRun(ops + [op], states + [t], tasks, flags)
  {
    hide Orderly, Follows;
  }

  /** Whatever happens, in any order, the scheduler stays valid, and what can be seen of it is a run. */
  method Run(scheduler: Scheduler, events: EventQueue, tasks: seq<Task>, flags: seq<Event>, ops: seq<Op>, ghost start: int)
    returns (delays: seq<int>, ghost states: seq<State>)
    requires Sound(scheduler, events, tasks, flags) && AllAhead(scheduler, start) && scheduler.currentTask == null
    requires Paced(ops, start)
    modifies scheduler, scheduler.tasks, events, Raisable(flags)
    ensures Sound(scheduler, events, tasks, flags) && scheduler.tasks == old(scheduler.tasks)
    ensures IsRun(ops, states, tasks, flags) && |delays| == |ops|
    ensures forall i {:trigger delays[i]} :: 0 <= i < |ops| && ops[i].Begin? ==> delays[i] == states[i + 1].delay
    ensures states[0] == old(Snapshot(scheduler, events, flags, 0))
    ensures states[|ops|] == Snapshot(scheduler, events, flags, states[|ops|].delay)
  {
    hide Sound, AllAhead, Follows, Orderly, LastBegin, Inside;
    ghost var delay := 0;
    delays, states := [], [Snapshot(scheduler, events, flags, delay)];
    RunStarts(scheduler, events, tasks, flags, start);
    for i := 0 to |ops|
      invariant Sound(scheduler, events, tasks, flags) && AllAhead(scheduler, LastBegin(ops[..i], start))
      invariant scheduler.tasks == old(scheduler.tasks) && (!Inside(ops[..i]) ==> scheduler.currentTask == null)
      invariant IsRun(ops[..i], states, tasks, flags) && |delays| == i
      invariant forall k {:trigger delays[k]} :: 0 <= k < i && ops[k].Begin? ==> delays[k] == states[k + 1].delay
      invariant states[0] == old(Snapshot(scheduler, events, flags, 0)) && states[i] == Snapshot(scheduler, events, flags, delay)
    {
      var op := ops[i];
      assert InTime(op, LastBegin(ops[..i], start), Inside(ops[..i]));
      var execDelay := Perform(scheduler, events, tasks, flags, op, LastBegin(ops[..i], start), Inside(ops[..i]), delay);
      delay := if op.Begin? then execDelay else delay;
      ghost var s, t := states[i], Snapshot(scheduler, events, flags, delay);
      SoundOrderly(scheduler, events, tasks, flags, delay);
      LongerRun(ops[..i], states, tasks, flags, op, t);
      OneMoreOp(ops[..i], op, start);
      if !op.Begin? && s.active == null {
        ActiveKept(op, s, t, tasks, flags);
      }
      assert ops[..i + 1] == ops[..i] + [op];
      delays, states := delays + [execDelay], states + [t];
    }
    assert ops[..|ops|] == ops;
  }

  lemma SoundOrderly(scheduler: Scheduler, events: EventQueue, tasks: seq<Task>, flags: seq<Event>, delay: int)
    requires Sound(scheduler, events, tasks, flags)
    ensures Orderly(Snapshot(scheduler, events, flags, delay))
  {
    hide Orderly, Snapshot;
    SnapshotOrderly(scheduler, events, flags, delay);
  }

  lemma RunStarts(scheduler: Scheduler, events: EventQueue, tasks: seq<Task>, flags: seq<Event>, start: int)
    requires Sound(scheduler, events, tasks, flags)
    ensures IsRun([], [Snapshot(scheduler, events, flags, 0)], tasks, flags)
    ensures LastBegin([], start) == start && !Inside([])
  {
    SoundOrderly(scheduler, events, tasks, flags, 0);
  }
}
