/** The SPI driver: transfers are submitted by threads and ended by interrupts, with interrupts disabled in
    between, so that every submission and every interrupt is one step. */
module SpiDriver {
  import opened Sequences
  import opened TaskFifo
  import opened TaskRuns

  /** A transfer as it is submitted. */
  datatype Request = Request(cs: nat, buffer: nat, len: nat, flags: nat, send: bool)

  type SpiJob = Job<Request>

  /** Longer transfers would have to be split, which is not implemented. */
  const MAX_LENGTH: nat := 8192 * 8

  /** The task remembers the job while it waits in the queue. */
  ghost predicate Remembers(job: SpiJob)
    reads job.task`data
  {
    job.task.data == [job.request.cs, job.request.buffer, job.request.len, job.request.flags, 0, if job.request.send then 1 else 0, 0, 0] && job.request.len <= MAX_LENGTH
  }

  class Driver {
    const fifo: Fifo
    var endOfTransfer: Task?
    var repeatTransfer: bool
    /** The transfers handed to the hardware, and the tasks released, in order. */
    var wire: seq<SpiJob>
    var released: seq<Task>

    constructor ()
      ensures Serves([], 0) && fresh(fifo)
    {
      fifo := new Fifo();
      endOfTransfer, repeatTransfer, wire, released := null, false, [], [];
    }

    /** The pending jobs are those from `ended` on: the first of them is with the hardware, the others are
        in the queue; everything before has ended. */
    ghost predicate Serves(jobs: seq<SpiJob>, ended: nat)
      reads this, fifo, Tasks(jobs)`next, Tasks(jobs)`data
    {
      && ended <= |jobs| && !repeatTransfer && Distinct(Tasks(jobs[ended..]))
      && released == WithId(jobs[..ended], NoneId)
      && (if ended == |jobs| then endOfTransfer == null && wire == jobs && fifo.Holds([])
          else endOfTransfer == jobs[ended].task && wire == jobs[..ended + 1] && fifo.Holds(Tasks(jobs[ended + 1..])))
      && forall i :: ended < i < |jobs| ==> Remembers(jobs[i])
    }

    /** What queueing a task changes, when a transfer is going on. */
    ghost function Changed(task: Task): set<object>
      reads this
    {
      if endOfTransfer == null then {} else {fifo as object, task}
    }

    ghost function Relinked(): set<Task>
      reads this, fifo
    {
      if endOfTransfer == null || fifo.tail == null then {} else {fifo.tail}
    }

    /** __pi_spi_send_async and __pi_spi_receive_async, which differ in the direction only: the transfer is
        handed to the hardware when none is going on, otherwise it is queued. The call aborts for a length
        that would have to be split. */
    method TransferAsync(cs: nat, buffer: nat, len: nat, flags: nat, task: Task, send: bool, ghost q: seq<Task>) returns (ok: bool)
      requires fifo.Holds(q) && (endOfTransfer != null ==> task !in q)
      modifies this`wire, this`endOfTransfer, this`repeatTransfer, Changed(task), Relinked()`next
      ensures ok <==> len <= MAX_LENGTH
      ensures released == old(released)
      ensures !ok ==> endOfTransfer == old(endOfTransfer) && wire == old(wire) && repeatTransfer == old(repeatTransfer) && fifo.Holds(q)
      ensures !ok ==> task.data == old(task.data)
      ensures ok && old(endOfTransfer) == null ==> endOfTransfer == task && wire == old(wire) + [Job(task, Request(cs, buffer, len, flags, send))] && !repeatTransfer
      ensures ok && old(endOfTransfer) == null ==> fifo.Holds(q) && task.data == old(task.data)
      ensures ok && old(endOfTransfer) != null ==> endOfTransfer == old(endOfTransfer) && wire == old(wire) && repeatTransfer == old(repeatTransfer)
      ensures ok && old(endOfTransfer) != null ==> fifo.Holds(q + [task]) && Remembers(Job(task, Request(cs, buffer, len, flags, send)))
      ensures task.done == old(task.done)
    {
      if len > MAX_LENGTH { return false; }
      if endOfTransfer == null {
        wire := wire + [Job(task, Request(cs, buffer, len, flags, send))];
        endOfTransfer := task;
        repeatTransfer := false;
      } else {
        task.data := [cs, buffer, len, flags, 0, if send then 1 else 0, 0, 0];
        var empty := fifo.Enqueue(task, q);
      }
      ok := true;
    }

    /** A submission by a thread, with a task that is not pending. */
    method Submit(job: SpiJob, ghost jobs: seq<SpiJob>, ghost ended: nat) returns (ok: bool)
      requires Serves(jobs, ended) && job.task !in Tasks(jobs[ended..])
      modifies this`wire, this`endOfTransfer, this`repeatTransfer, Changed(job.task), Relinked()`next
      ensures ok <==> job.request.len <= MAX_LENGTH
      ensures if ok then Serves(jobs + [job], ended) else Serves(jobs, ended)
    {
      hide *;
      ServesIs(jobs, ended);
      ghost var q := Queue(jobs, ended);
      PendingFirst(jobs, ended);
      forall i | ended < i < |jobs| ensures jobs[i].task != job.task { PendingAt(jobs, ended, i); }
      NotQueued(jobs, ended, job.task);
      ChangedIs(job.task);
      ok := TransferAsync(job.request.cs, job.request.buffer, job.request.len, job.request.flags, job.task, job.request.send, q);
      if ok {
        assert Job(job.task, Request(job.request.cs, job.request.buffer, job.request.len, job.request.flags, job.request.send)) == job;
        Submitted(jobs, job, ended);
        forall i | ended < i < |jobs| + 1 ensures Remembers((jobs + [job])[i]) {
          if i < |jobs| { assert (jobs + [job])[i] == jobs[i]; } else { assert (jobs + [job])[i] == job; }
        }
        ServesFrom(jobs + [job], ended);
      } else {
        ServesFrom(jobs, ended);
      }
    }

    lemma ChangedIs(task: Task)
      ensures endOfTransfer == null ==> Changed(task) == {} && Relinked() == {}
      ensures endOfTransfer != null ==> Changed(task) == {fifo as object, task}
    {}

    lemma ChangedAmong(task: Task)
      ensures Changed(task) <= {fifo as object, task}
    {}

    /** What Serves says, in parts. */
    lemma ServesIs(jobs: seq<SpiJob>, ended: nat)
      requires Serves(jobs, ended)
      ensures ended <= |jobs| && !repeatTransfer && Distinct(Tasks(jobs[ended..])) && released == WithId(jobs[..ended], NoneId)
      ensures fifo.Holds(Queue(jobs, ended))
      ensures ended == |jobs| ==> endOfTransfer == null && wire == jobs
      ensures ended < |jobs| ==> endOfTransfer == jobs[ended].task && wire == jobs[..ended + 1]
      ensures forall i :: ended < i < |jobs| ==> Remembers(jobs[i])
    {
      hide WithId, Remembers, Distinct;
    }

    lemma ServesFrom(jobs: seq<SpiJob>, ended: nat)
      requires ended <= |jobs| && !repeatTransfer && Distinct(Tasks(jobs[ended..])) && released == WithId(jobs[..ended], NoneId)
      requires fifo.Holds(Queue(jobs, ended))
      requires ended == |jobs| ==> endOfTransfer == null && wire == jobs
      requires ended < |jobs| ==> endOfTransfer == jobs[ended].task && wire == jobs[..ended + 1]
      requires forall i :: ended < i < |jobs| ==> Remembers(jobs[i])
      ensures Serves(jobs, ended)
    {
      hide WithId, Remembers, Distinct;
    }

    /** __pi_spim_exec_next_transfer(task) */
    method ExecNext(task: Task, ghost q: seq<Task>)
      requires |task.data| == 8 && task.data[5] <= 1 && task.data[2] <= MAX_LENGTH && endOfTransfer == null && fifo.Holds(q)
      modifies this`wire, this`endOfTransfer, this`repeatTransfer
      ensures endOfTransfer == task && !repeatTransfer && released == old(released) && fifo.Holds(q) && task.data == old(task.data)
      ensures wire == old(wire) + [Job(task, Request(task.data[0], task.data[1], task.data[2], task.data[3], task.data[5] == 1))]
    {
      var ok := TransferAsync(task.data[0], task.data[1], task.data[2], task.data[3], task, task.data[5] == 1, q);
    }

    /** spim_eot_handler: the transfer that was going on has ended; a task that a thread waits for is
        released, and the next transfer is handed to the hardware. A task for a callback is dropped. */
    method EotHandler(ghost jobs: seq<SpiJob>, ghost ended: nat)
      requires Serves(jobs, ended)
      modifies this, fifo, (if ended < |jobs| then {jobs[ended].task} else {})`done
      ensures if ended < |jobs| then Serves(jobs, ended + 1) else Serves(jobs, ended)
      ensures ended < |jobs| && jobs[ended].task.id.NoneId? ==> jobs[ended].task.done
    {
      hide *;
      ServesIs(jobs, ended);
      if repeatTransfer { return; }
      var task := endOfTransfer;
      if task != null {
        FirstAlone(jobs, ended);
        WithIdNext(jobs, ended, NoneId);
        QueueIs(jobs, ended);
        Ended(jobs, ended);
        if task.id == NoneId {
          task.done := true;
          released := released + [task];
        }
        endOfTransfer := null;
      }
      QueueEnds(jobs);
      task := fifo.Pop(Queue(jobs, ended));
      if task != null {
        ghost var job := jobs[ended + 1];
        RememberedJob(job);
        ExecNext(task, Queue(jobs, ended + 1));
        ServesFrom(jobs, ended + 1);
      } else {
        ServesFrom(jobs, if ended < |jobs| then ended + 1 else ended);
      }
    }
  }

  lemma QueueEnds(jobs: seq<SpiJob>)
    ensures Queue(jobs, |jobs|) == []
  {}

  lemma RememberedJob(job: SpiJob)
    requires Remembers(job)
    ensures |job.task.data| == 8 && job.task.data[5] <= 1 && job.task.data[2] <= MAX_LENGTH
    ensures Job(job.task, Request(job.task.data[0], job.task.data[1], job.task.data[2], job.task.data[3], job.task.data[5] == 1)) == job
  {}

  /** The tasks that wait in the queue. */
  ghost function Queue(jobs: seq<SpiJob>, ended: nat): (q: seq<Task>)
    requires ended <= |jobs|
  {
    if ended == |jobs| then [] else Tasks(jobs[ended + 1..])
  }

  lemma Submitted(jobs: seq<SpiJob>, job: SpiJob, ended: nat)
    requires ended <= |jobs| && Distinct(Tasks(jobs[ended..])) && job.task !in Tasks(jobs[ended..])
    ensures Distinct(Tasks((jobs + [job])[ended..])) && (jobs + [job])[..ended] == jobs[..ended]
    ensures ended == |jobs| ==> Queue(jobs + [job], ended) == [] == Queue(jobs, ended) && (jobs + [job])[..ended + 1] == jobs + [job]
    ensures ended < |jobs| ==> Queue(jobs + [job], ended) == Queue(jobs, ended) + [job.task] && (jobs + [job])[..ended + 1] == jobs[..ended + 1]
  {
    PendingMore(jobs, job, ended);
    if ended < |jobs| { assert (jobs + [job])[ended + 1..] == jobs[ended + 1..] + [job]; }
  }

  lemma NotQueued(jobs: seq<SpiJob>, ended: nat, task: Task)
    requires ended <= |jobs| && task !in Tasks(jobs[ended..])
    ensures task !in Queue(jobs, ended)
  {
    PendingFirst(jobs, ended);
    hide Tasks;
  }

  lemma QueueIs(jobs: seq<SpiJob>, ended: nat)
    requires ended < |jobs|
    ensures Queue(jobs, ended) == Tasks(jobs[ended + 1..])
  {}

  /** One job more has ended. */
  lemma Ended(jobs: seq<SpiJob>, ended: nat)
    requires ended < |jobs|
    ensures ended + 1 < |jobs| ==> Queue(jobs, ended) == [jobs[ended + 1].task] + Queue(jobs, ended + 1)
    ensures ended + 1 == |jobs| ==> Queue(jobs, ended) == [] == Queue(jobs, ended + 1) && jobs[..ended + 1] == jobs
    ensures ended + 1 < |jobs| ==> jobs[..ended + 1 + 1] == jobs[..ended + 1] + [jobs[ended + 1]]
  {
    if ended + 1 < |jobs| { PendingFirst(jobs, ended + 1); }
  }

  // ---------------------------------------------------------------- runs

  /** Only transfers that need not be split are accepted, and every transfer ends at its interrupt. */
  function Accepts(): (f: Request -> bool)
  {
    (r: Request) => r.len <= MAX_LENGTH
  }

  function Ends(): (f: Request -> bool)
  {
    (r: Request) => true
  }

  lemma NextIs(jobs: seq<SpiJob>, ended: nat, event: Event<Request>)
    requires ended <= |jobs|
    ensures Next(Accepts(), Ends(), (jobs, ended), event)
         == if event.Interrupt? then (jobs, if ended < |jobs| then ended + 1 else ended)
            else if event.job.request.len <= MAX_LENGTH then (jobs + [event.job], ended) else (jobs, ended)
  {}

  lemma RelinkedAmong(driver: Driver, jobs: seq<SpiJob>, ended: nat, tasks: set<Task>)
    requires driver.Serves(jobs, ended) && forall i :: 0 <= i < |jobs| ==> jobs[i].task in tasks
    ensures driver.Relinked() <= tasks && ended <= |jobs|
  {
    hide WithId, Remembers, Distinct;
    if ended + 1 < |jobs| {
      assert driver.fifo.tail == Tasks(jobs[ended + 1..])[|jobs| - ended - 2] == jobs[|jobs| - 1].task;
    }
  }

  /** Every interleaving of submissions and interrupts: the driver is always in the state that the list of
      accepted jobs and the number of ended ones describe. */
  method Run(events: seq<Event<Request>>, ghost tasks: set<Task>) returns (driver: Driver)
    requires TasksDiffer(events) && forall e :: e in events && e.Submission? ==> e.job.task in tasks
    modifies tasks
    ensures driver.Serves(After(Accepts(), Ends(), events).0, After(Accepts(), Ends(), events).1)
  {
    hide *;
    driver := new Driver();
    var n := 0;
    AfterNone(Accepts(), Ends());
    assert events[..0] == [];
    while n < |events|
      invariant 0 <= n <= |events|
      invariant driver.Serves(After(Accepts(), Ends(), events[..n]).0, After(Accepts(), Ends(), events[..n]).1)
      invariant fresh(driver) && fresh(driver.fifo)
    {
      AfterNext(Accepts(), Ends(), events, n);
      AcceptedTasks(Accepts(), Ends(), events, n, tasks);
      ghost var (jobs, ended) := After(Accepts(), Ends(), events[..n]);
      RelinkedAmong(driver, jobs, ended, tasks);
      NextIs(jobs, ended, events[n]);
      match events[n] {
        case Submission(job) =>
          NewTask(Accepts(), Ends(), events, n);
          driver.ChangedAmong(job.task);
          assert events[n] in events;
          var ok := driver.Submit(job, jobs, ended);
        case Interrupt =>
          driver.EotHandler(jobs, ended);
      }
      n := n + 1;
    }
    assert events[..n] == events;
  }

  /** The jobs of at most 65536 bits are those that are accepted, in their order. */
  function Short(events: seq<Event<Request>>): (jobs: seq<SpiJob>)
    decreases |events|
  {
    if events == [] then []
    else
      var before, event := Short(events[..|events| - 1]), events[|events| - 1];
      if event.Submission? && event.job.request.len <= 65536 then before + [event.job] else before
  }

  lemma {:induction false} AcceptedShort(events: seq<Event<Request>>)
    ensures After(Accepts(), Ends(), events).0 == Short(events)
    decreases |events|
  {
    if events == [] {
      AfterNone(Accepts(), Ends());
    } else {
      var n := |events| - 1;
      AcceptedShort(events[..n]);
      AfterNext(Accepts(), Ends(), events, n);
      assert events[..n + 1] == events;
      var (jobs, ended) := After(Accepts(), Ends(), events[..n]);
      NextIs(jobs, ended, events[n]);
      hide After, Accepts, Ends, Next;
    }
  }

  /** What the description means: a transfer is going on whenever one waits, the hardware was given the
      accepted jobs in order, and the tasks of the ended ones that a thread waits for were released, each
      once and in order. */
  lemma InOrder(driver: Driver, jobs: seq<SpiJob>, ended: nat)
    requires driver.Serves(jobs, ended)
    ensures driver.fifo.head != null ==> driver.endOfTransfer != null
    ensures driver.wire <= jobs && |jobs| - |driver.wire| == (if ended < |jobs| then |jobs| - ended - 1 else 0)
    ensures driver.released == WithId(driver.wire[..ended], NoneId)
  {
    hide WithId, Distinct, Remembers;
    if ended < |jobs| {
      assert jobs[..ended + 1][..ended] == jobs[..ended];
    } else {
      assert jobs[..ended] == jobs;
    }
  }
}
