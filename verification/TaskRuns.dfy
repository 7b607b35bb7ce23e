/** Runs of a driver: submissions by threads and interrupts of the hardware in any order. What a driver does is
    described by the list of accepted jobs and the number of those that have ended. */
module TaskRuns {
  import opened TaskFifo

  datatype Event<R> = Submission(job: Job<R>) | Interrupt

  /** The accepted jobs and the number of ended ones after one more event. A job is accepted if `accepts`
      holds, and an interrupt ends the first pending job if `ends` holds. */
  function Next<R>(accepts: R -> bool, ends: R -> bool, s: (seq<Job<R>>, nat), event: Event<R>): (t: (seq<Job<R>>, nat))
    requires s.1 <= |s.0|
    ensures t.1 <= |t.0|
  {
    match event
    case Submission(job) => if accepts(job.request) then (s.0 + [job], s.1) else s
    case Interrupt => if s.1 < |s.0| && ends(s.0[s.1].request) then (s.0, s.1 + 1) else s
  }

  function After<R>(accepts: R -> bool, ends: R -> bool, events: seq<Event<R>>): (s: (seq<Job<R>>, nat))
    ensures s.1 <= |s.0|
  {
    if events == [] then ([], 0)
    else Next(accepts, ends, After(accepts, ends, events[..|events| - 1]), events[|events| - 1])
  }

  lemma AfterNone<R>(accepts: R -> bool, ends: R -> bool)
    ensures After(accepts, ends, []) == ([], 0)
  {}

  lemma AfterNext<R>(accepts: R -> bool, ends: R -> bool, events: seq<Event<R>>, n: nat)
    requires n < |events|
    ensures After(accepts, ends, events[..n + 1]) == Next(accepts, ends, After(accepts, ends, events[..n]), events[n])
  {
    assert events[..n + 1][..n] == events[..n];
    hide Next;
  }

  lemma AfterMore<R>(accepts: R -> bool, ends: R -> bool, events: seq<Event<R>>, event: Event<R>)
    ensures After(accepts, ends, events + [event]) == Next(accepts, ends, After(accepts, ends, events), event)
  {
    assert (events + [event])[..|events|] == events;
    hide Next;
  }

  /** No task is submitted twice. */
  ghost predicate TasksDiffer<R>(events: seq<Event<R>>)
  {
    forall i, j :: 0 <= i < j < |events| && events[i].Submission? && events[j].Submission? ==> events[i].job.task != events[j].job.task
  }

  lemma {:induction false} AcceptedFrom<R>(accepts: R -> bool, ends: R -> bool, events: seq<Event<R>>, i: nat)
    requires i < |After(accepts, ends, events).0|
    ensures exists k :: 0 <= k < |events| && events[k] == Submission(After(accepts, ends, events).0[i])
    decreases |events|
  {
    var n := |events| - 1;
    var before := After(accepts, ends, events[..n]).0;
    if i < |before| {
      AcceptedFrom(accepts, ends, events[..n], i);
      var k :| 0 <= k < n && events[..n][k] == Submission(before[i]);
      assert events[k] == Submission(After(accepts, ends, events).0[i]);
    } else {
      assert events[n] == Submission(After(accepts, ends, events).0[i]);
    }
  }

  /** A task that is submitted is not pending. */
  lemma NewTask<R>(accepts: R -> bool, ends: R -> bool, events: seq<Event<R>>, n: nat)
    requires TasksDiffer(events) && n < |events| && events[n].Submission?
    ensures var (jobs, ended) := After(accepts, ends, events[..n]); events[n].job.task !in Tasks(jobs[ended..])
  {
    var (jobs, ended) := After(accepts, ends, events[..n]);
    var q := Tasks(jobs[ended..]);
    forall i | 0 <= i < |q| ensures q[i] != events[n].job.task {
      AcceptedFrom(accepts, ends, events[..n], ended + i);
      var k :| 0 <= k < n && events[..n][k] == Submission(jobs[ended + i]);
      assert events[k] == Submission(jobs[ended + i]);
    }
  }

  /** The accepted jobs use the tasks of the events. */
  lemma AcceptedTasks<R>(accepts: R -> bool, ends: R -> bool, events: seq<Event<R>>, n: nat, tasks: set<Task>)
    requires n <= |events| && forall e :: e in events && e.Submission? ==> e.job.task in tasks
    ensures forall i :: 0 <= i < |After(accepts, ends, events[..n]).0| ==> After(accepts, ends, events[..n]).0[i].task in tasks
  {
    hide After;
    var jobs := After(accepts, ends, events[..n]).0;
    forall i | 0 <= i < |jobs| ensures jobs[i].task in tasks {
      AcceptedFrom(accepts, ends, events[..n], i);
      var k :| 0 <= k < n && events[..n][k] == Submission(jobs[i]);
      assert events[k] in events;
    }
  }

  // ---------------------------------------------------------------- which runs can be drained

  function Interrupts<R>(n: nat): (e: seq<Event<R>>)
    ensures |e| == n
  {
    seq(n, i => Interrupt)
  }

  /** All pending jobs can end. */
  predicate AllEnd<R>(ends: R -> bool, s: (seq<Job<R>>, nat))
  {
    forall i :: s.1 <= i < |s.0| ==> ends(s.0[i].request)
  }

  lemma {:induction false} Drains<R>(accepts: R -> bool, ends: R -> bool, events: seq<Event<R>>, n: nat)
    requires AllEnd(ends, After(accepts, ends, events)) && After(accepts, ends, events).1 + n <= |After(accepts, ends, events).0|
    ensures After(accepts, ends, events + Interrupts(n)) == (After(accepts, ends, events).0, After(accepts, ends, events).1 + n)
    decreases n
  {
    hide After;
    if n == 0 {
      assert events + Interrupts(0) == events;
    } else {
      Drains(accepts, ends, events, n - 1);
      AfterMore(accepts, ends, events + Interrupts(n - 1), Interrupt);
      assert events + Interrupts(n) == events + Interrupts(n - 1) + [Interrupt];
    }
  }

  /** A pending job that cannot end keeps those behind it from ending, whatever happens. */
  lemma {:induction false} Stuck<R>(accepts: R -> bool, ends: R -> bool, events: seq<Event<R>>, more: seq<Event<R>>, i: nat)
    requires After(accepts, ends, events).1 <= i < |After(accepts, ends, events).0| && !ends(After(accepts, ends, events).0[i].request)
    ensures After(accepts, ends, events).0 <= After(accepts, ends, events + more).0
    ensures After(accepts, ends, events + more).1 <= i
    decreases |more|
  {
    hide After;
    if more == [] {
      assert events + more == events;
    } else {
      var n := |more| - 1;
      Stuck(accepts, ends, events, more[..n], i);
      AfterMore(accepts, ends, events + more[..n], more[n]);
      assert events + more == events + more[..n] + [more[n]];
    }
  }

  /** The accepted jobs can all be ended by interrupts exactly if each of those pending can end. */
  lemma DrainsExactly<R>(accepts: R -> bool, ends: R -> bool, events: seq<Event<R>>)
    ensures AllEnd(ends, After(accepts, ends, events))
       <==> exists more :: After(accepts, ends, events + more).1 >= |After(accepts, ends, events).0|
  {
    var (jobs, ended) := After(accepts, ends, events);
    hide After;
    if AllEnd(ends, (jobs, ended)) {
      Drains(accepts, ends, events, |jobs| - ended);
      assert After(accepts, ends, events + Interrupts(|jobs| - ended)).1 >= |jobs|;
    } else {
      var i :| ended <= i < |jobs| && !ends(jobs[i].request);
      forall more ensures After(accepts, ends, events + more).1 < |jobs| {
        Stuck(accepts, ends, events, more, i);
      }
    }
  }
}
