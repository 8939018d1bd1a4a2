/** Intrusive queues of tasks, in order of deadlines that are kept as wrapping 32-bit timestamps. */
module TaskQueues {
  import opened Words

  datatype TaskState = Initialising | Scheduled | Background | Ready | Active | Suspended

  const TWO_31: int := 0x8000_0000
  const TWO_32: int := 0x1_0000_0000

  /** A number as it wraps in a signed 32-bit word. */
  function Signed(n: int): (w: int)
    ensures -TWO_31 <= w < TWO_31
  {
    (n + TWO_31) % TWO_32 - TWO_31
  }

  /** The wrapped difference of wrapped numbers is right when they are less than 2^31 apart. */
  lemma SignedDifference(a: int, b: int)
    requires -TWO_31 <= a - b < TWO_31
    ensures Signed(Signed(a) - Signed(b)) == a - b
  {
    var qa, qb := (a + TWO_31) / TWO_32, (b + TWO_31) / TWO_32;
    DivisionSplits(a + TWO_31, TWO_32);
    DivisionSplits(b + TWO_31, TWO_32);
    RemainderIs(Signed(a) - Signed(b) + TWO_31, TWO_32, qb - qa, a - b + TWO_31);
  }

  lemma SignedSum(a: int, b: int)
    ensures Signed(Signed(a) + b) == Signed(a + b)
  {
    var q := (a + TWO_31) / TWO_32;
    DivisionSplits(a + TWO_31, TWO_32);
    DivisionSplits(a + b + TWO_31, TWO_32);
    RemainderIs(Signed(a) + b + TWO_31, TWO_32, (a + b + TWO_31) / TWO_32 - q, (a + b + TWO_31) % TWO_32);
  }

  class Task {
    var nextTask: Task?
    var timestamp: int
    var taskState: TaskState
    /** The time that the timestamp stands for, which does not wrap. */
    ghost var due: int

    constructor ()
      ensures taskState == Initialising
    {
      nextTask, timestamp, taskState, due := null, 0, Initialising, 0;
    }
  }

  ghost function At(ss: seq<Task>, k: nat): Task? {
    if k < |ss| then ss[k] else null
  }

  /** The queue that starts at head runs through the tasks of ss, in order, and ends. */
  ghost predicate IsQueue(head: Task?, ss: seq<Task>)
    reads ss`nextTask
  {
    head == At(ss, 0) && forall i {:trigger ss[i].nextTask} :: 0 <= i < |ss| ==> ss[i].nextTask == At(ss, i + 1)
  }

  ghost predicate Distinct(ss: seq<Task>) {
    forall i, j :: 0 <= i < j < |ss| ==> ss[i] != ss[j]
  }

  ghost predicate Disjoint(a: seq<Task>, b: seq<Task>) {
    forall t :: t in a ==> t !in b
  }

  ghost function Members(ss: seq<Task>): set<Task> {
    set t | t in ss
  }

  /** Timestamps stand for their deadlines, which are less than 2^31 ticks from each other and from a given time. */
  ghost predicate Timely(ss: seq<Task>, time: int)
    reads ss`due, ss`timestamp
  {
    && (forall t :: t in ss ==> t.timestamp == Signed(t.due) && -TWO_31 < t.due - time < TWO_31)
    && (forall t, u :: t in ss && u in ss ==> t.due - u.due < TWO_31)
  }

  ghost predicate Sorted(ss: seq<Task>)
    reads ss`due
  {
    forall i, j :: 0 <= i < j < |ss| ==> ss[i].due <= ss[j].due
  }

  /** Position k of a sorted queue is where a task with a deadline belongs: after all that are due no later. */
  ghost predicate Belongs(ss: seq<Task>, k: nat, due: int)
    reads ss`due
  {
    && k <= |ss|
    && (forall i :: 0 <= i < k ==> ss[i].due <= due)
    && (forall i :: k <= i < |ss| ==> ss[i].due > due)
  }

  /** The wrapped difference of two timestamps in a queue is the difference of the deadlines. */
  lemma Lateness(ss: seq<Task>, t: Task, u: Task, time: int)
    requires Timely(ss, time) && t in ss && u in ss
    ensures Signed(t.timestamp - u.timestamp) == t.due - u.due
  {
    hide Signed;
    SignedDifference(t.due, u.due);
  }

  /** Finds where a task belongs in a queue. */
  method FindPlace(head: Task?, task: Task, ghost ss: seq<Task>, ghost time: int)
    returns (prev: Task?, cursor: Task?)
    requires IsQueue(head, ss) && Timely(ss + [task], time) && Sorted(ss)
    ensures exists k: nat :: Belongs(ss, k, task.due)
    ensures forall k: nat :: Belongs(ss, k, task.due) ==> cursor == At(ss, k) && prev == if k == 0 then null else ss[k - 1]
  {
    hide Signed, Timely;
    prev, cursor := null, head;
    ghost var k: nat := 0;
    while cursor != null
      invariant k <= |ss| && cursor == At(ss, k) && prev == if k == 0 then null else ss[k - 1]
      invariant forall i :: 0 <= i < k ==> ss[i].due <= task.due
      decreases |ss| - k
    {
      Lateness(ss + [task], cursor, task, time);
      if Signed(cursor.timestamp - task.timestamp) > 0 {
        break;
      }
      prev, cursor, k := cursor, cursor.nextTask, k + 1;
    }
    assert Belongs(ss, k, task.due);
  }

  /** Links a task into a queue. */
  method LinkAt(head: Task?, prev: Task?, cursor: Task?, task: Task, ghost k: nat, ghost ss: seq<Task>) returns (head': Task?)
    requires IsQueue(head, ss) && Distinct(ss) && task !in ss && k <= |ss|
    requires cursor == At(ss, k) && prev == if k == 0 then null else ss[k - 1]
    modifies Members(ss)`nextTask, task`nextTask
    ensures IsQueue(head', ss[..k] + [task] + ss[k..]) && Distinct(ss[..k] + [task] + ss[k..])
  {
    task.nextTask := cursor;
    if prev == null {
      head' := task;
    } else {
      prev.nextTask := task;
      head' := head;
    }
    ghost var now := ss[..k] + [task] + ss[k..];
    forall i {:trigger now[i].nextTask} | 0 <= i < |now|
      ensures now[i].nextTask == At(now, i + 1)
    {
      if i < k - 1 {
        assert now[i] == ss[i] && ss[i] != ss[k - 1];
      } else if i > k {
        assert now[i] == ss[i - 1] && (k > 0 ==> ss[i - 1] != ss[k - 1]);
      }
    }
  }

  /** Finds a task in a queue. */
  method FindTask(head: Task?, task: Task, ghost ss: seq<Task>) returns (prev: Task?, ghost k: nat)
    requires IsQueue(head, ss) && task in ss
    ensures k < |ss| && ss[k] == task && prev == if k == 0 then null else ss[k - 1]
  {
    prev, k := null, 0;
    var cursor := head;
    while cursor != task
      invariant k < |ss| && cursor == ss[k] && task in ss[k..] && prev == if k == 0 then null else ss[k - 1]
      decreases |ss| - k
    {
      assert task in ss[k + 1..];
      prev, cursor, k := cursor, cursor.nextTask, k + 1;
    }
  }

  lemma CutOut(ss: seq<Task>, k: nat, now: seq<Task>)
    requires Distinct(ss) && k < |ss| && now == ss[..k] + ss[k + 1..]
    ensures Distinct(now) && ss[k] !in now && forall t :: t in now ==> t in ss
    ensures Sorted(ss) ==> Sorted(now)
  {
  }

  /** Unlinks a task from a queue. */
  method UnlinkAt(head: Task?, prev: Task?, task: Task, ghost k: nat, ghost ss: seq<Task>, ghost now: seq<Task>)
    returns (head': Task?)
    requires IsQueue(head, ss) && Distinct(ss) && k < |ss| && ss[k] == task && now == ss[..k] + ss[k + 1..]
    requires prev == if k == 0 then null else ss[k - 1]
    modifies Members(ss)`nextTask
    ensures IsQueue(head', now)
  {
    if prev == null {
      head' := task.nextTask;
    } else {
      prev.nextTask := task.nextTask;
      head' := head;
    }
    forall i {:trigger now[i].nextTask} | 0 <= i < |now|
      ensures now[i].nextTask == At(now, i + 1)
    {
      if i < k - 1 {
        assert now[i] == ss[i] && ss[i] != ss[k - 1];
      } else if i >= k {
        assert now[i] == ss[i + 1] && (k > 0 ==> ss[i + 1] != ss[k - 1]);
      }
    }
  }
}
