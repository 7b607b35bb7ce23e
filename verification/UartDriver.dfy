/** One channel of the UART driver: the transfer that is going on stays at the head of the queue until its
    interrupt. Transfers that do not fit the hardware are cut into pieces, and never end. */
module UartDriver {
  import opened Sequences
  import opened TaskFifo
  import opened TaskRuns

  type Word32 = x: int | 0 <= x < 0x1_0000_0000

  datatype Request = Request(buffer: Word32, size: Word32)

  type UartJob = Job<Request>

  /** UDMA_MAX_SIZE - 4 */
  const MAX_SIZE: nat := 0x2_0000 - 4

  /** Arithmetic on 32 bits. */
  function Wrap32(x: int): (w: Word32)
  {
    x % 0x1_0000_0000
  }

  /** The buffer is in the memory that the hardware can reach. */
  predicate Reachable(buffer: nat)
  {
    buffer / 0x10_0000 == 0x1C0
  }

  function Requests(jobs: seq<UartJob>): (p: seq<Request>)
    ensures |p| == |jobs|
  {
    seq(|jobs|, i requires 0 <= i < |jobs| => jobs[i].request)
  }

  /** The task holds the job, with nothing left over from a cut. */
  ghost predicate Remembers(job: UartJob)
    reads job.task`data
  {
    |job.task.data| == 8 && job.task.data[0] == job.request.buffer && job.task.data[1] == job.request.size && job.task.data[3] == 0
  }

  /** What is left of a transfer after k pieces, in the arithmetic of the code. */
  function Rest(r: Request, k: nat): (t: Request)
  {
    Request(Wrap32(r.buffer + MAX_SIZE * k), Wrap32(r.size - MAX_SIZE * k))
  }

  /** What is handed to the hardware of a transfer. */
  function Piece(r: Request): (t: Request)
  {
    Request(r.buffer, if r.size > MAX_SIZE then MAX_SIZE else r.size)
  }

  /** The first n pieces of a transfer. */
  function Pieces(r: Request, n: nat): (p: seq<Request>)
  {
    seq(n, k requires 0 <= k < n => Piece(Rest(r, k)))
  }

  lemma RestNext(r: Request, k: nat)
    ensures Rest(r, 0) == r
    ensures Rest(r, k + 1) == Request(Wrap32(Rest(r, k).buffer + MAX_SIZE), Wrap32(Rest(r, k).size - MAX_SIZE))
  {
    WrapTwo(r.buffer + MAX_SIZE * k, MAX_SIZE);
    var m: int := MAX_SIZE;
    WrapTwo(r.size - MAX_SIZE * k, -m);
    WrapSmall(r.buffer);
    WrapSmall(r.size);
    hide Wrap32;
  }

  lemma WrapTwo(a: int, b: int)
    ensures Wrap32(Wrap32(a) + b) == Wrap32(a + b)
  {}

  lemma WrapSmall(a: Word32)
    ensures Wrap32(a) == a
  {}

  lemma PiecesNext(r: Request, n: nat)
    ensures Pieces(r, n + 1) == Pieces(r, n) + [Piece(Rest(r, n))]
  {}

  lemma OnePiece(r: Request)
    ensures Pieces(r, 1) == [Piece(r)]
    ensures r.size <= MAX_SIZE ==> Pieces(r, 1) == [r]
  {
    RestNext(r, 0);
  }

  /** As long as bytes are left, the pieces follow each other in the buffer. */
  lemma PiecesFollow(r: Request, k: nat)
    requires MAX_SIZE * k < r.size && r.buffer + r.size <= 0x1_0000_0000
    ensures Piece(Rest(r, k)) == Request(r.buffer + MAX_SIZE * k, if r.size - MAX_SIZE * k > 131068 then 131068 else r.size - MAX_SIZE * k)
  {}

  /** The task at the head of the queue, when its transfer has survived k interrupts: it holds what is left, and a
      remainder is noted exactly if the job is too large. */
  ghost predicate HeadState(job: UartJob, k: nat)
    reads job.task`data
  {
    && |job.task.data| == 8 && job.task.data[0] == Rest(job.request, k).buffer && job.task.data[1] == Rest(job.request, k).size
    && (job.task.data[3] == 0 <==> job.request.size <= MAX_SIZE) && (job.request.size <= MAX_SIZE ==> k == 0)
  }

  /** Is one of the first n jobs too large? */
  predicate Fits(jobs: seq<UartJob>, n: nat)
  {
    forall i :: 0 <= i < n && i < |jobs| ==> jobs[i].request.size <= MAX_SIZE
  }

  lemma RemembersNew(job: UartJob)
    requires |job.task.data| == 8 && job.task.data[0] == job.request.buffer && job.task.data[1] == job.request.size && job.task.data[3] == 0
    ensures Remembers(job)
  {}

  lemma RemembersIs(job: UartJob)
    requires Remembers(job)
    ensures |job.task.data| == 8 && job.task.data[0] == job.request.buffer && job.task.data[1] == job.request.size && job.task.data[3] == 0
  {}

  lemma HeadStateExecuted(job: UartJob)
    requires |job.task.data| == 8 && job.task.data[0] == job.request.buffer && job.task.data[1] == job.request.size
    requires job.task.data[3] == if job.request.size > MAX_SIZE then job.request.size - MAX_SIZE else 0
    ensures HeadState(job, 0)
  {
    RestNext(job.request, 0);
  }

  lemma HeadStateIs(job: UartJob, k: nat)
    requires HeadState(job, k)
    ensures |job.task.data| == 8 && (job.task.data[3] == 0 <==> job.request.size <= MAX_SIZE)
    ensures job.task.data[0] == Rest(job.request, k).buffer && job.task.data[1] == Rest(job.request, k).size
    ensures job.request.size <= MAX_SIZE ==> k == 0
  {}

  lemma HeadStateLarge(job: UartJob, k: nat)
    requires job.request.size > MAX_SIZE && |job.task.data| == 8 && job.task.data[3] != 0
    requires job.task.data[0] == Rest(job.request, k).buffer && job.task.data[1] == Rest(job.request, k).size
    ensures HeadState(job, k)
  {}

  /** What was handed to the hardware: the jobs that have ended, and k + 1 pieces of the one that is going on. */
  function Wired(jobs: seq<UartJob>, ended: nat, k: nat): (w: seq<Request>)
    requires ended <= |jobs|
  {
    Requests(jobs[..ended]) + if ended < |jobs| then Pieces(jobs[ended].request, k + 1) else []
  }

  lemma WiredMore(jobs: seq<UartJob>, ended: nat, k: nat)
    requires ended < |jobs|
    ensures Wired(jobs, ended, k + 1) == Wired(jobs, ended, k) + [Piece(Rest(jobs[ended].request, k + 1))]
  {
    PiecesNext(jobs[ended].request, k + 1);
    hide Pieces;
    assert Requests(jobs[..ended]) + (Pieces(jobs[ended].request, k + 1) + [Piece(Rest(jobs[ended].request, k + 1))])
        == Wired(jobs, ended, k) + [Piece(Rest(jobs[ended].request, k + 1))];
  }

  lemma WiredFirst(jobs: seq<UartJob>, ended: nat)
    requires ended <= |jobs|
    ensures Wired(jobs, ended, 0) == Requests(jobs[..ended]) + if ended < |jobs| then [Piece(jobs[ended].request)] else []
  {
    if ended < |jobs| { OnePiece(jobs[ended].request); }
  }

  /** A job that fits is one piece, and the next one follows it. */
  lemma WiredEnded(jobs: seq<UartJob>, ended: nat)
    requires ended < |jobs| && jobs[ended].request.size <= MAX_SIZE
    ensures Wired(jobs, ended, 0) == Requests(jobs[..ended + 1])
  {
    OnePiece(jobs[ended].request);
  }

  lemma WiredOthers(jobs: seq<UartJob>, job: UartJob, ended: nat, k: nat)
    requires ended <= |jobs|
    ensures Wired(jobs + [job], ended, 0) == if ended < |jobs| then Wired(jobs, ended, 0) else Requests(jobs) + [Piece(job.request)]
    ensures ended < |jobs| ==> Wired(jobs + [job], ended, k) == Wired(jobs, ended, k)
    ensures (jobs + [job])[ended] == if ended < |jobs| then jobs[ended] else job
    ensures ended == |jobs| ==> Wired(jobs, ended, k) == Requests(jobs)
  {
    assert (jobs + [job])[..ended] == jobs[..ended];
    OnePiece((jobs + [job])[ended].request);
    assert ended == |jobs| ==> jobs[..ended] == jobs;
    hide Pieces;
  }

  lemma FitsMore(jobs: seq<UartJob>, ended: nat)
    requires ended < |jobs| && Fits(jobs, ended) && jobs[ended].request.size <= MAX_SIZE
    ensures Fits(jobs, ended + 1)
  {}

  lemma OthersFit(jobs: seq<UartJob>, job: UartJob, ended: nat)
    requires ended <= |jobs|
    ensures Fits(jobs + [job], ended) == Fits(jobs, ended)
  {
    assert forall i :: 0 <= i < |jobs| ==> (jobs + [job])[i] == jobs[i];
  }

  /** The tasks that the interrupt touches. */
  ghost function Heads(jobs: seq<UartJob>, ended: nat): (h: set<Task>)
    requires ended < |jobs|
  {
    {jobs[ended].task} + if ended + 1 < |jobs| then {jobs[ended + 1].task} else {}
  }

  lemma HeadsAre(jobs: seq<UartJob>, ended: nat)
    requires ended < |jobs|
    ensures jobs[ended].task in Heads(jobs, ended) && (ended + 1 < |jobs| ==> jobs[ended + 1].task in Heads(jobs, ended))
  {}

  class Channel {
    const fifo: Fifo
    const number: nat
    var wire: seq<Request>
    var released: seq<Task>
    var pushed: seq<Task>

    constructor (number: nat)
      ensures Serves([], 0, 0) && fresh(fifo)
    {
      this.number := number;
      fifo := new Fifo();
      wire, released, pushed := [], [], [];
    }

    /** The jobs before `ended` have ended; the others are in the queue, and the first of them, which has survived k
        interrupts, is with the hardware. */
    ghost predicate Serves(jobs: seq<UartJob>, ended: nat, k: nat)
      reads this, fifo, Tasks(jobs)`next, Tasks(jobs)`data
    {
      && ended <= |jobs| && fifo.Holds(Tasks(jobs[ended..])) && Fits(jobs, ended)
      && released == WithId(jobs[..ended], NoneId) && pushed == WithId(jobs[..ended], CallbackId)
      && (forall i :: ended < i < |jobs| ==> Remembers(jobs[i]))
      && wire == Wired(jobs, ended, k)
      && (if ended < |jobs| then HeadState(jobs[ended], k) else k == 0)
    }

    /** __pi_uart_copy_exec(data, task) */
    method CopyExec(task: Task, ghost q: seq<Task>)
      requires |task.data| == 8 && task.data[0] < 0x1_0000_0000 && task.data[1] < 0x1_0000_0000
      modifies task`data, this`wire
      ensures old(fifo.Holds(q)) ==> fifo.Holds(q)
      ensures |task.data| == 8 && task.data[0] == old(task.data[0]) && task.data[1] == old(task.data[1])
      ensures task.data[3] == if old(task.data[1]) > MAX_SIZE then old(task.data[1]) - MAX_SIZE else old(task.data[3])
      ensures wire == old(wire) + [Piece(Request(task.data[0], task.data[1]))]
    {
      var size := task.data[1];
      if task.data[1] > MAX_SIZE {
        task.data := task.data[3 := task.data[1] - MAX_SIZE];
        size := MAX_SIZE;
      }
      wire := wire + [Request(task.data[0], size)];
    }

    /** __pi_uart_copy(data, l2_buf, size, channel, task), with a task that is not pending. */
    method Copy(job: UartJob, ghost jobs: seq<UartJob>, ghost ended: nat, ghost k: nat) returns (status: int)
      requires Serves(jobs, ended, k) && job.task !in Tasks(jobs[ended..])
      modifies this`wire, fifo, job.task`data, job.task`next, (if fifo.tail == null then {} else {fifo.tail})`next
      ensures status == if Reachable(job.request.buffer) then 0 else -11
      ensures if status == 0 then Serves(jobs + [job], ended, k) else Serves(jobs, ended, k)
    {
      hide *;
      if !Reachable(job.request.buffer) { return -11; }
      ServesIs(jobs, ended, k);
      ghost var q := Tasks(jobs[ended..]);
      forall i | ended <= i < |jobs| ensures jobs[i].task != job.task { PendingAt(jobs, ended, i); }
      job.task.data := [job.request.buffer, job.request.size, number, 0, 0, 0, 0, 0];
      job.task.next := null;
      var empty := fifo.Enqueue(job.task, q);
      PendingMore(jobs, job, ended);
      RemembersNew(job);
      WiredOthers(jobs, job, ended, k);
      OthersFit(jobs, job, ended);
      if empty {
        CopyExec(job.task, q + [job.task]);
        HeadStateExecuted(job);
      }
      forall i | ended < i < |jobs| + 1 ensures Remembers((jobs + [job])[i]) {
        if i < |jobs| { assert (jobs + [job])[i] == jobs[i]; }
      }
      ServesFrom(jobs + [job], ended, k);
      status := 0;
    }

    /** __pi_uart_handler: the interrupt at the end of the transfer that is going on. The channel goes on to
        the next job exactly if the current one fits the hardware; a remainder is never cleared, so a larger
        one keeps the channel for ever. */
    method Handler(ghost jobs: seq<UartJob>, ghost ended: nat, ghost k: nat)
      requires Serves(jobs, ended, k) && ended < |jobs|
      modifies this, fifo, Heads(jobs, ended)
      ensures jobs[ended].request.size <= MAX_SIZE ==> Serves(jobs, ended + 1, 0)
      ensures jobs[ended].request.size > MAX_SIZE ==> Serves(jobs, ended, k + 1) && fifo.head == old(fifo.head)
    {
      hide *;
      ServesIs(jobs, ended, k);
      var task := fifo.head;
      FirstAlone(jobs, ended);
      HeadsAre(jobs, ended);
      HeadStateIs(jobs[ended], k);
      if task.data[3] != 0 {
        RestNext(jobs[ended].request, k);
        task.data := task.data[0 := Wrap32(task.data[0] + MAX_SIZE)][1 := Wrap32(task.data[1] - MAX_SIZE)];
        ghost var left := task.data[3];
        CopyExec(task, Tasks(jobs[ended..]));
        WiredMore(jobs, ended, k);
        HeadStateLarge(jobs[ended], k + 1);
        ServesFrom(jobs, ended, k + 1);
      } else {
        EndOfHead(jobs, ended);
      }
    }

    /** The other branch: the head ends, and the next job is handed to the hardware. */
    method EndOfHead(ghost jobs: seq<UartJob>, ghost ended: nat)
      requires Serves(jobs, ended, 0) && ended < |jobs| && jobs[ended].request.size <= MAX_SIZE
      modifies this, fifo, Heads(jobs, ended)
      ensures Serves(jobs, ended + 1, 0)
    {
      hide *;
      ServesIs(jobs, ended, 0);
      ghost var q := Tasks(jobs[ended..]);
      PendingFirst(jobs, ended);
      FirstAlone(jobs, ended);
      HeadsAre(jobs, ended);
      WithIdNext(jobs, ended, NoneId);
      WithIdNext(jobs, ended, CallbackId);
      FitsMore(jobs, ended);
      WiredEnded(jobs, ended);
      ghost var rest := Tasks(jobs[ended + 1..]);
      assert q == [jobs[ended].task] + rest && q[0] == jobs[ended].task && q[1..] == rest;
      var task := fifo.Pop(q);
      EndOfTask(task, rest);
      forall i | ended + 1 <= i < |jobs| ensures Remembers(jobs[i]) {}
      ExecHead(jobs, ended + 1);
    }

    /** task = data->fifo_head[channel]; if (task != NULL) __pi_uart_copy_exec(data, task); */
    method ExecHead(ghost jobs: seq<UartJob>, ghost first: nat)
      requires first <= |jobs| && fifo.Holds(Tasks(jobs[first..])) && Fits(jobs, first) && Distinct(Tasks(jobs[first..]))
      requires released == WithId(jobs[..first], NoneId) && pushed == WithId(jobs[..first], CallbackId)
      requires (forall i :: first <= i < |jobs| ==> Remembers(jobs[i])) && wire == Requests(jobs[..first])
      modifies (if first < |jobs| then {jobs[first].task} else {})`data, this`wire
      ensures Serves(jobs, first, 0)
    {
      hide *;
      var task := fifo.head;
      fifo.HeadIs(Tasks(jobs[first..]));
      PendingFirst(jobs, first);
      WiredFirst(jobs, first);
      if task != null {
        FirstAlone(jobs, first);
        ghost var next := jobs[first];
        RemembersIs(next);
        CopyExec(task, Tasks(jobs[first..]));
        HeadStateExecuted(next);
      }
      ServesFrom(jobs, first, 0);
    }

    /** __pi_uart_handle_end_of_task(task) */
    method EndOfTask(task: Task, ghost q: seq<Task>)
      modifies task`done, this`released, this`pushed
      ensures released == old(released) + if task.id == NoneId then [task] else []
      ensures pushed == old(pushed) + if task.id == CallbackId then [task] else []
      ensures task.id == NoneId ==> task.done
      ensures old(fifo.Holds(q)) ==> fifo.Holds(q)
    {
      if task.id == NoneId {
        task.done := true;
        released := released + [task];
      } else if task.id == CallbackId {
        pushed := pushed + [task];
      }
    }

    lemma ServesIs(jobs: seq<UartJob>, ended: nat, k: nat)
      requires Serves(jobs, ended, k)
      ensures ended <= |jobs| && fifo.Holds(Tasks(jobs[ended..])) && Fits(jobs, ended) && Distinct(Tasks(jobs[ended..]))
      ensures released == WithId(jobs[..ended], NoneId) && pushed == WithId(jobs[..ended], CallbackId)
      ensures forall i :: ended < i < |jobs| ==> Remembers(jobs[i])
      ensures wire == Wired(jobs, ended, k)
      ensures if ended < |jobs| then HeadState(jobs[ended], k) && fifo.head == jobs[ended].task else k == 0
    {
      hide WithId, Remembers, Fits, HeadState, Wired;
    }

    lemma ServesFrom(jobs: seq<UartJob>, ended: nat, k: nat)
      requires ended <= |jobs| && fifo.Holds(Tasks(jobs[ended..])) && Fits(jobs, ended)
      requires released == WithId(jobs[..ended], NoneId) && pushed == WithId(jobs[..ended], CallbackId)
      requires forall i :: ended < i < |jobs| ==> Remembers(jobs[i])
      requires wire == Wired(jobs, ended, k)
      requires if ended < |jobs| then HeadState(jobs[ended], k) else k == 0
      ensures Serves(jobs, ended, k)
    {
      hide WithId, Remembers, Fits, HeadState, Wired;
    }
  }

  // ---------------------------------------------------------------- runs

  /** Buffers in reach are accepted; a transfer ends at its interrupt if it fits the hardware. */
  function Accepts(): (f: Request -> bool)
  {
    (r: Request) => Reachable(r.buffer)
  }

  function Ends(): (f: Request -> bool)
  {
    (r: Request) => r.size <= MAX_SIZE
  }

  lemma NextIs(jobs: seq<UartJob>, ended: nat, event: Event<Request>)
    requires ended <= |jobs|
    ensures Next(Accepts(), Ends(), (jobs, ended), event)
         == if event.Interrupt? then (jobs, if ended < |jobs| && jobs[ended].request.size <= MAX_SIZE then ended + 1 else ended)
            else if Reachable(event.job.request.buffer) then (jobs + [event.job], ended) else (jobs, ended)
  {}

  lemma TailAmong(c: Channel, jobs: seq<UartJob>, ended: nat, tasks: set<Task>)
    requires (exists k :: c.Serves(jobs, ended, k)) && forall i :: 0 <= i < |jobs| ==> jobs[i].task in tasks
    ensures ended <= |jobs| && (c.fifo.tail != null ==> c.fifo.tail in tasks)
    ensures ended < |jobs| ==> Heads(jobs, ended) <= tasks
  {
    hide WithId, Remembers, Fits, HeadState, Wired;
    if ended < |jobs| {
      assert c.fifo.tail == Tasks(jobs[ended..])[|jobs| - ended - 1] == jobs[|jobs| - 1].task;
    }
  }

  /** How many interrupts the transfer that is going on has survived. */
  function Survived(events: seq<Event<Request>>): (k: nat)
    decreases |events|
  {
    if events == [] then 0
    else
      var before := events[..|events| - 1];
      var (jobs, ended) := After(Accepts(), Ends(), before);
      if events[|events| - 1].Submission? || ended == |jobs| then Survived(before)
      else if jobs[ended].request.size <= MAX_SIZE then 0 else Survived(before) + 1
  }

  lemma SurvivedNext(events: seq<Event<Request>>, n: nat)
    requires n < |events|
    ensures var (jobs, ended) := After(Accepts(), Ends(), events[..n]);
            Survived(events[..n + 1])
            == if events[n].Submission? || ended == |jobs| then Survived(events[..n])
               else if jobs[ended].request.size <= MAX_SIZE then 0 else Survived(events[..n]) + 1
  {
    assert events[..n + 1][..n] == events[..n];
    hide After;
  }

  lemma SurvivedNone()
    ensures Survived([]) == 0
  {}

  /** Every interleaving of submissions and interrupts of one channel. The hardware raises no interrupt
      while it has no transfer. */
  method Run(events: seq<Event<Request>>, ghost tasks: set<Task>) returns (c: Channel)
    requires TasksDiffer(events) && forall e :: e in events && e.Submission? ==> e.job.task in tasks
    modifies tasks
    ensures c.Serves(After(Accepts(), Ends(), events).0, After(Accepts(), Ends(), events).1, Survived(events))
  {
    hide *;
    c := new Channel(0);
    var n := 0;
    AfterNone(Accepts(), Ends());
    SurvivedNone();
    assert events[..0] == [];
    while n < |events|
      invariant 0 <= n <= |events|
      invariant c.Serves(After(Accepts(), Ends(), events[..n]).0, After(Accepts(), Ends(), events[..n]).1, Survived(events[..n]))
      invariant fresh(c) && fresh(c.fifo)
    {
      AfterNext(Accepts(), Ends(), events, n);
      SurvivedNext(events, n);
      AcceptedTasks(Accepts(), Ends(), events, n, tasks);
      ghost var (jobs, ended) := After(Accepts(), Ends(), events[..n]);
      ghost var k := Survived(events[..n]);
      TailAmong(c, jobs, ended, tasks);
      NextIs(jobs, ended, events[n]);
      match events[n] {
        case Submission(job) =>
          NewTask(Accepts(), Ends(), events, n);
          assert events[n] in events;
          var status := c.Copy(job, jobs, ended, k);
        case Interrupt =>
          c.ServesIs(jobs, ended, k);
          c.fifo.HeadIs(Tasks(jobs[ended..]));
          PendingFirst(jobs, ended);
          if c.fifo.head != null {
            c.Handler(jobs, ended, k);
          }
      }
      n := n + 1;
    }
    assert events[..n] == events;
  }

  /** The jobs with a buffer from 0x1C000000 up to 0x1C0FFFFF are those that are accepted, in their order. */
  function InReach(events: seq<Event<Request>>): (jobs: seq<UartJob>)
    decreases |events|
  {
    if events == [] then []
    else
      var before, event := InReach(events[..|events| - 1]), events[|events| - 1];
      if event.Submission? && 0x1C00_0000 <= event.job.request.buffer <= 0x1C0F_FFFF then before + [event.job] else before
  }

  lemma {:induction false} AcceptedInReach(events: seq<Event<Request>>)
    ensures After(Accepts(), Ends(), events).0 == InReach(events)
    decreases |events|
  {
    if events == [] {
      AfterNone(Accepts(), Ends());
    } else {
      var n := |events| - 1;
      AcceptedInReach(events[..n]);
      AfterNext(Accepts(), Ends(), events, n);
      assert events[..n + 1] == events;
      var (jobs, ended) := After(Accepts(), Ends(), events[..n]);
      NextIs(jobs, ended, events[n]);
      hide After, Accepts, Ends, Next;
    }
  }

  /** A channel on which a transfer above 131068 bytes was accepted can never again end all its jobs;
      with smaller transfers only it always can. */
  lemma ChannelDrains(events: seq<Event<Request>>)
    ensures var (jobs, ended) := After(Accepts(), Ends(), events);
            (exists more :: After(Accepts(), Ends(), events + more).1 >= |jobs|)
            <==> forall i :: ended <= i < |jobs| ==> jobs[i].request.size <= 131068
  {
    DrainsExactly(Accepts(), Ends(), events);
    hide After;
  }
}
