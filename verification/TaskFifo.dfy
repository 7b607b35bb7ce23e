/** The queue of tasks that the peripheral drivers keep: tasks are linked through their own next field. */
module TaskFifo {
  import opened Sequences

  /** PI_TASK_NONE_ID for a task that a thread waits for, PI_TASK_CALLBACK_ID for one with a callback. */
  datatype TaskId = NoneId | CallbackId | OtherId

  /** A task of the operating system. */
  class Task {
    var data: seq<nat>
    var next: Task?
    var done: bool
    const id: TaskId

    constructor (id: TaskId)
      ensures this.id == id && |data| == 8 && next == null && !done
    {
      this.id := id;
      data := seq(8, i => 0);
      next := null;
      done := false;
    }
  }

  /** A request with the task that waits for it. */
  datatype Job<R> = Job(task: Task, request: R)

  ghost function Tasks<R>(jobs: seq<Job<R>>): (q: seq<Task>)
    ensures |q| == |jobs| && forall i :: 0 <= i < |jobs| ==> q[i] == jobs[i].task
  {
    seq(|jobs|, i requires 0 <= i < |jobs| => jobs[i].task)
  }

  /** The tasks with the given identifier, in order. */
  ghost function WithId<R>(jobs: seq<Job<R>>, id: TaskId): (q: seq<Task>)
  {
    if jobs == [] then []
    else WithId(jobs[..|jobs| - 1], id) + if jobs[|jobs| - 1].task.id == id then [jobs[|jobs| - 1].task] else []
  }

  lemma WithIdNext<R>(jobs: seq<Job<R>>, ended: nat, id: TaskId)
    requires ended < |jobs|
    ensures WithId(jobs[..ended + 1], id) == WithId(jobs[..ended], id) + if jobs[ended].task.id == id then [jobs[ended].task] else []
  {
    assert jobs[..ended + 1][..ended] == jobs[..ended];
  }

  lemma PendingAt<R>(jobs: seq<Job<R>>, ended: nat, i: nat)
    requires ended <= i < |jobs|
    ensures jobs[i].task in Tasks(jobs[ended..])
  {
    assert Tasks(jobs[ended..])[i - ended] == jobs[i].task;
  }

  lemma PendingFirst<R>(jobs: seq<Job<R>>, ended: nat)
    requires ended <= |jobs|
    ensures Tasks(jobs[ended..]) == if ended == |jobs| then [] else [jobs[ended].task] + Tasks(jobs[ended + 1..])
  {
    if ended < |jobs| { assert jobs[ended..] == [jobs[ended]] + jobs[ended + 1..]; }
  }

  /** The first of the pending tasks is none of the others. */
  lemma FirstAlone<R>(jobs: seq<Job<R>>, ended: nat)
    requires ended < |jobs| && Distinct(Tasks(jobs[ended..]))
    ensures Distinct(Tasks(jobs[ended + 1..])) && jobs[ended].task !in Tasks(jobs[ended + 1..])
    ensures forall i :: ended < i < |jobs| ==> jobs[i].task != jobs[ended].task
  {
    var q := Tasks(jobs[ended..]);
    forall i | ended < i < |jobs| ensures jobs[i].task != jobs[ended].task {
      assert q[0] == jobs[ended].task && q[i - ended] == jobs[i].task;
    }
    var r := Tasks(jobs[ended + 1..]);
    forall i, j | 0 <= i < j < |r| ensures r[i] != r[j] {
      var k, l := i + 1, j + 1;
      assert q[k] == r[i] && q[l] == r[j];
    }
  }

  /** One job more is pending. */
  lemma PendingMore<R>(jobs: seq<Job<R>>, job: Job<R>, ended: nat)
    requires ended <= |jobs| && Distinct(Tasks(jobs[ended..])) && job.task !in Tasks(jobs[ended..])
    ensures Tasks((jobs + [job])[ended..]) == Tasks(jobs[ended..]) + [job.task] && Distinct(Tasks((jobs + [job])[ended..]))
    ensures (jobs + [job])[..ended] == jobs[..ended]
  {
    assert (jobs + [job])[ended..] == jobs[ended..] + [job];
    assert Tasks(jobs[ended..] + [job]) == Tasks(jobs[ended..]) + [job.task];
  }

  class Fifo {
    var head: Task?
    var tail: Task?

    constructor ()
      ensures Holds([])
    {
      head, tail := null, null;
    }

    /** The queue is q, from head to tail. */
    ghost predicate Holds(q: seq<Task>)
      reads this, q`next
    {
      && Distinct(q)
      && (if q == [] then head == null && tail == null else head == q[0] && tail == q[|q| - 1] && tail.next == null)
      && forall i, j :: 0 <= i < j < |q| && j == i + 1 ==> q[i].next == q[j]
    }

    lemma HeadIs(q: seq<Task>)
      requires Holds(q)
      ensures head == if q == [] then null else q[0]
    {}

    /** The end of the list is linked, or the list starts: returns whether it was empty. */
    method Enqueue(task: Task, ghost q: seq<Task>) returns (empty: bool)
      requires Holds(q) && task !in q
      modifies this, task`next, (if tail == null then {} else {tail})`next
      ensures Holds(q + [task]) && (empty <==> q == [])
      ensures forall t :: t in q && t != task ==> t.data == old(t.data)
    {
      task.next := null;
      empty := head == null;
      if head == null {
        head := task;
        tail := head;
      } else {
        tail.next := task;
        tail := tail.next;
      }
    }

    method Pop(ghost q: seq<Task>) returns (task: Task?)
      requires Holds(q)
      modifies this
      ensures q == [] ==> task == null && Holds([])
      ensures q != [] ==> task == q[0] && Holds(q[1..])
    {
      task := null;
      if head != null {
        task := head;
        if |q| > 1 {
          assert q[0].next == q[1];
        }
        head := head.next;
        if head == null {
          tail := null;
        }
        ghost var r := q[1..];
        forall i, j | 0 <= i < j < |r| && j == i + 1 ensures r[i].next == r[j] {
          var k, l := i + 1, j + 1;
          assert q[k].next == q[l];
        }
      }
    }
  }
}
