/** The offload worker pool (ircd/ctx_ole.cc:78-242) before termination: contexts push jobs, worker
    threads pop them, and the context goes on when the worker's signal reaches its latch. Each
    method is one critical section or one unshared stretch; they interleave in any order. */
module OffloadPool {
  import opened Basics

  datatype Outcome = Unknown | Returned | Threw(e: int)

  /** How offload() ends. Aborted: a second exception was thrown while the first one unwound. */
  datatype Ending = Silent | Rethrown(from: Outcome) | Interrupted | Terminated | Aborted

  /** What another context asked of this one, and whether it was uninterruptible before. */
  datatype Flags = Flags(interrupted: bool, terminated: bool, nested: bool) {
    predicate Requested() {
      interrupted || terminated
    }

    /** The destructor of uninterruptible throws what was suppressed. */
    function LeaveScope(end: Ending): Ending {
      if nested || !Requested() then end
      else if end != Silent then Aborted
      else if terminated then Terminated
      else Interrupted
    }
  }

  /** One offload: what lives on the stack of the context that waits for it. */
  class Job {
    var eptr: Option<int>
    var latch: nat
    /** The closure that counts the latch down is on its way to the event loop. */
    var signalled: bool
    ghost var runs: nat
    ghost var outcome: Outcome

    constructor ()
      ensures eptr == None && latch == 1 && !signalled && runs == 0 && outcome == Unknown
    {
      eptr, latch, signalled, runs, outcome := None, 1, false, 0, Unknown;
    }

    predicate Untouched()
      reads this
    {
      eptr == None && latch == 1 && !signalled
    }

    /** The job's function has returned or thrown, and that is what eptr records. */
    ghost predicate Over()
      reads this
    {
      && outcome != Unknown
      && signalled == (latch == 1) && latch <= 1
      && eptr == if outcome.Threw? then Some(outcome.e) else None
    }

    /** offload() from the end of latch.wait() to the end of its uninterruptible scope. */
    method Continue(flags: Flags) returns (end: Ending)
      requires latch == 0 && Over()
      ensures end == Rethrown(outcome) <==> !flags.Requested() && outcome.Threw?
      ensures end == Terminated <==> flags.terminated && !flags.nested
      ensures end == Interrupted <==> flags.interrupted && !flags.terminated && !flags.nested
      ensures end == Silent <==> if flags.Requested() then flags.nested else outcome == Returned
    {
      end := Silent;
      if !flags.Requested() {
        if eptr.Some? {
          end := Rethrown(Threw(eptr.value));
        }
      }
      end := flags.LeaveScope(end);
    }

    /** The signal, on the context's own thread. */
    method Deliver()
      requires signalled && latch == 1
      modifies this`signalled, this`latch
      ensures !signalled && latch == 0
    {
      signalled := false;
      latch := latch - 1;
    }
  }

  /** A worker is between jobs, waits on the condition variable, or runs a job. */
  datatype Worker = Between | Parked(notified: bool) | Busy(job: Job)

  function Active(ws: seq<Worker>): nat {
    if ws == [] then 0 else Active(ws[..|ws| - 1]) + if ws[|ws| - 1].Parked? then 0 else 1
  }

  function Weight(w: Worker): nat {
    match w
    case Between => 1
    case Parked(notified) => if notified then 1 else 0
    case Busy(_) => 2
  }

  function Weights(ws: seq<Worker>): nat {
    if ws == [] then 0 else Weights(ws[..|ws| - 1]) + Weight(ws[|ws| - 1])
  }

  lemma {:induction false} Update(ws: seq<Worker>, i: nat, w: Worker)
    requires i < |ws|
    ensures Active(ws[i := w]) == Active(ws) - (if ws[i].Parked? then 0 else 1) + (if w.Parked? then 0 else 1)
    ensures Weights(ws[i := w]) == Weights(ws) - Weight(ws[i]) + Weight(w)
  {
    var n := |ws| - 1;
    var us := ws[i := w];
    if i == n {
      assert us[..n] == ws[..n];
    } else {
      assert us[..n] == ws[..n][i := w];
      Update(ws[..n], i, w);
    }
  }

  lemma Append(ws: seq<Worker>, w: Worker)
    ensures Active(ws + [w]) == Active(ws) + if w.Parked? then 0 else 1
  {
    assert (ws + [w])[..|ws|] == ws;
  }

  lemma {:induction false} ActiveBound(ws: seq<Worker>)
    ensures Active(ws) <= |ws|
    ensures Active(ws) == |ws| <==> forall i :: 0 <= i < |ws| ==> !ws[i].Parked?
  {
    if ws != [] {
      ActiveBound(ws[..|ws| - 1]);
      if Active(ws) == |ws| {
        forall i | 0 <= i < |ws| ensures !ws[i].Parked? {
          if i < |ws| - 1 { assert !ws[..|ws| - 1][i].Parked?; }
        }
      }
      if forall i :: 0 <= i < |ws| ==> !ws[i].Parked? {
        var us := ws[..|ws| - 1];
        forall i | 0 <= i < |us| ensures !us[i].Parked? {}
      }
    }
  }

  /** cond.notify_all() */
  function NotifyAll(ws: seq<Worker>): (r: seq<Worker>)
    ensures |r| == |ws|
    ensures forall i :: 0 <= i < |ws| ==> r[i] == if ws[i].Parked? then Parked(true) else ws[i]
  {
    seq(|ws|, i requires 0 <= i < |ws| => if ws[i].Parked? then Parked(true) else ws[i])
  }

  lemma {:induction false} NotifyAllActive(ws: seq<Worker>)
    ensures Active(NotifyAll(ws)) == Active(ws)
    ensures forall j :: Busy(j) in ws ==> Busy(j) in NotifyAll(ws)
  {
    forall j | Busy(j) in ws ensures Busy(j) in NotifyAll(ws) {
      var i :| 0 <= i < |ws| && ws[i] == Busy(j);
      assert NotifyAll(ws)[i] == Busy(j);
    }
    if ws != [] {
      assert NotifyAll(ws)[..|ws| - 1] == NotifyAll(ws[..|ws| - 1]);
      NotifyAllActive(ws[..|ws| - 1]);
    }
  }

  lemma KeepsBusy(ws: seq<Worker>, i: nat, w: Worker)
    requires i < |ws|
    ensures forall j :: Busy(j) in ws && ws[i] != Busy(j) ==> Busy(j) in ws[i := w]
    ensures w.Busy? ==> w in ws[i := w]
  {
    var us := ws[i := w];
    assert us[i] == w;
    forall j | Busy(j) in ws && ws[i] != Busy(j) ensures Busy(j) in us {
      var k :| 0 <= k < |ws| && ws[k] == Busy(j);
      assert us[k] == Busy(j);
    }
  }

  class Pool {
    const threadMax: nat
    var working: int
    var queue: seq<Job>
    var threads: seq<Worker>
    /** Every job ever pushed, in order, and the first of them that were started. */
    ghost var jobs: seq<Job>
    ghost var started: seq<Job>

    ghost predicate Counted()
      reads this`working, this`threads
    {
      working == Active(threads) && |threads| <= threadMax
    }

    /** Jobs are started first come, first served, and none is dropped or duplicated. */
    ghost predicate InOrder()
      reads this`queue, this`jobs, this`started
    {
      jobs == started + queue && Distinct(jobs)
    }

    /** A job waits untouched, or was started once and is on one worker or over. */
    ghost predicate Conserved()
      reads this`queue, this`threads, this`started, queue, started
    {
      && (forall j <- queue :: j.Untouched() && j.runs == 0 && j.outcome == Unknown)
      && (forall j <- started :: j.runs == 1)
      && (forall j <- started :: j.Over() || (j.Untouched() && j.outcome == Unknown && Busy(j) in threads))
      && (forall i :: 0 <= i < |threads| && threads[i].Busy? ==>
            threads[i].job in started && threads[i].job.outcome == Unknown)
      && (forall i, k :: 0 <= i < k < |threads| && threads[i].Busy? && threads[k].Busy? ==>
            threads[i].job != threads[k].job)
    }

    /** While jobs wait, no worker sleeps on unnotified, and there is one unless none is allowed. */
    ghost predicate Attended()
      reads this`queue, this`threads, this`started
    {
      && (started != [] ==> threads != [])
      && (queue != [] ==>
            && (threadMax > 0 ==> threads != [])
            && Parked(false) !in threads)
    }

    ghost predicate Valid()
      reads this, queue, started
    {
      Counted() && InOrder() && Conserved() && Attended()
    }

    /** Bounds the steps workers can still take when nothing more is pushed. */
    ghost function Rank(): nat
      reads this`queue, this`threads
    {
      2 * |queue| + Weights(threads)
    }

    constructor (threadMax: nat)
      ensures Valid() && this.threadMax == threadMax && jobs == [] && threads == []
    {
      this.threadMax := threadMax;
      working, queue, threads, jobs, started := 0, [], [], [], [];
    }

    /** push(): a thread is added when all are working, up to the limit. */
    method Push(job: Job)
      requires Valid() && job !in jobs && job.Untouched() && job.runs == 0 && job.outcome == Unknown
      modifies this
      ensures Valid() && jobs == old(jobs) + [job] && started == old(started) && queue == old(queue) + [job]
      ensures threads ==
              var added := |old(threads)| == old(working) && |old(threads)| < threadMax;
              NotifyAll(old(threads) + if added then [Between] else [])
    {
      hide Active, NotifyAll;
      ActiveBound(threads);
      var needThread := threads == [] || |threads| == working;
      var addThread := needThread && |threads| < threadMax;
      if addThread {
        AddThread();
      }
      queue := queue + [job];
      jobs := jobs + [job];
      assert jobs == started + queue;
      NotifyWorkers();
    }

    /** cond.notify_all(): afterwards the queue is attended again. */
    method NotifyWorkers()
      requires Counted() && InOrder() && Conserved()
      requires (started != [] ==> threads != []) && (queue != [] && threadMax > 0 ==> threads != [])
      modifies this`threads
      ensures Valid() && threads == NotifyAll(old(threads))
    {
      NotifyAllActive(threads);
      threads := NotifyAll(threads);
    }

    method AddThread()
      requires Valid() && |threads| < threadMax && |threads| == working
      modifies this`working, this`threads
      ensures Valid() && threads == old(threads) + [Between] && working == old(working) + 1
    {
      Append(threads, Between);
      working := working + 1;
      threads := threads + [Between];
    }

    /** Take the front of the queue; under the lock. */
    method Take(i: nat)
      requires Valid() && i < |threads| && !threads[i].Busy? && queue != []
      modifies this, jobs`runs
      ensures Valid() && jobs == old(jobs) && started == old(started) + [old(queue)[0]] && queue == old(queue)[1..]
      ensures threads == old(threads)[i := Busy(old(queue)[0])]
      ensures Rank() < old(Rank())
    {
      hide Active, Weights;
      var job := queue[0];
      assert job == jobs[|started|];
      Update(threads, i, Busy(job));
      KeepsBusy(threads, i, Busy(job));
      FrontIsNew();
      if threads[i].Parked? {
        working := working + 1;
      }
      job.runs := job.runs + 1;
      started := started + [job];
      queue := queue[1..];
      threads := threads[i := Busy(job)];
    }

    lemma FrontIsNew()
      requires InOrder() && queue != []
      ensures queue[0] !in started && queue[0] !in queue[1..]
    {
      var n := |started|;
      assert jobs[n] == queue[0];
      forall k | 0 <= k < n ensures started[k] != queue[0] {
        assert jobs[k] == started[k];
      }
      forall k | 1 <= k < |queue| ensures queue[k] != queue[0] {
        assert jobs[n + k] == queue[k];
      }
    }

    /** A worker parked in pop() looks at the queue again, notified or not. */
    method Wake(i: nat)
      requires Valid() && i < |threads| && threads[i].Parked?
      modifies this, jobs`runs
      ensures Valid() && jobs == old(jobs) && |threads| == |old(threads)|
      ensures old(queue) == [] ==> queue == [] && started == old(started) && threads == old(threads)[i := Parked(false)]
      ensures old(queue) != [] ==>
                && started == old(started) + [old(queue)[0]] && queue == old(queue)[1..]
                && threads == old(threads)[i := Busy(old(queue)[0])]
      ensures old(threads[i].notified || queue != []) ==> Rank() < old(Rank())
    {
      if queue != [] {
        Take(i);
      } else {
        Update(threads, i, Parked(false));
        KeepsBusy(threads, i, Parked(false));
        threads := threads[i := Parked(false)];
      }
    }

    /** pop(), from its start. */
    method Pop(i: nat)
      requires Valid() && i < |threads| && threads[i].Between?
      modifies this, jobs`runs
      ensures Valid() && jobs == old(jobs) && |threads| == |old(threads)|
      ensures old(queue) == [] ==> queue == [] && started == old(started) && threads == old(threads)[i := Parked(false)]
      ensures old(queue) != [] ==>
                && started == old(started) + [old(queue)[0]] && queue == old(queue)[1..]
                && threads == old(threads)[i := Busy(old(queue)[0])]
      ensures Rank() < old(Rank())
    {
      Update(threads, i, Parked(true));
      KeepsBusy(threads, i, Parked(true));
      working := working - 1;
      threads := threads[i := Parked(true)];
      Wake(i);
    }

    /** The worker's job returns or throws; the outcome is recorded and the context signalled. */
    method Finish(i: nat, thrown: Option<int>)
      requires Valid() && i < |threads| && threads[i].Busy?
      modifies this`threads, threads[i].job
      ensures Valid() && threads == old(threads)[i := Between]
      ensures var job := old(threads[i]).job;
              job.outcome == (if thrown.Some? then Threw(thrown.value) else Returned) && job.Over() && job.latch == 1
      ensures Rank() < old(Rank())
    {
      var job := threads[i].job;
      Update(threads, i, Between);
      KeepsBusy(threads, i, Between);
      job.eptr := thrown;
      job.outcome := if thrown.Some? then Threw(thrown.value) else Returned;
      job.signalled := true;
      threads := threads[i := Between];
    }

    /** The event loop runs the signal of a finished job. */
    method Deliver(job: Job)
      requires Valid() && job in jobs && job.signalled
      modifies job`signalled, job`latch
      ensures Valid() && job.latch == 0 && job.outcome == old(job.outcome)
    {
      job.Deliver();
    }
  }

  /** offload() after its latch: it throws what its own job threw unless an interrupt or a
      termination is pending, which it throws itself unless the caller was uninterruptible before.
      It never throws twice. */
  method Continue(pool: Pool, job: Job, flags: Flags) returns (end: Ending)
    requires pool.Valid() && job in pool.jobs && job.latch == 0
    ensures job.runs == 1 && job.outcome != Unknown && end != Aborted
    ensures forall o :: end == Rethrown(o) <==> !flags.Requested() && o == job.outcome && o.Threw?
    ensures end == Terminated <==> flags.terminated && !flags.nested
    ensures end == Interrupted <==> flags.interrupted && !flags.terminated && !flags.nested
    ensures end == Silent <==> if flags.Requested() then flags.nested else job.outcome == Returned
  {
    ContinuesAfterItsJob(pool, job);
    end := job.Continue(flags);
  }

  // ----- what follows -----

  /** offload() goes on only after its own job ran, exactly once, and with that job's exception. */
  lemma ContinuesAfterItsJob(pool: Pool, job: Job)
    requires pool.Valid() && job in pool.jobs && job.latch == 0
    ensures job in pool.started && job.runs == 1 && job.outcome != Unknown && job.Over()
    ensures job.eptr == if job.outcome.Threw? then Some(job.outcome.e) else None
    ensures Busy(job) !in pool.threads
  {
    assert forall i :: 0 <= i < |pool.threads| ==> pool.threads[i] != Busy(job);
  }

  /** working counts the workers that are not parked, and never leaves its bounds. */
  lemma WorkingBounds(pool: Pool)
    requires pool.Valid()
    ensures 0 <= pool.working <= |pool.threads| <= pool.threadMax
    ensures pool.working == |pool.threads| <==> forall w <- pool.threads :: !w.Parked?
  {
    ActiveBound(pool.threads);
  }

  /** A worker that can take a step of its own. */
  predicate Ready(w: Worker) {
    w != Parked(false)
  }

  /** As long as a job is not over, some worker can move, unless no worker is allowed at all. */
  lemma Progress(pool: Pool)
    requires pool.Valid() && pool.threadMax > 0
    requires forall w <- pool.threads :: !Ready(w)
    ensures pool.queue == [] && forall j <- pool.jobs :: j.Over() && j.runs == 1
  {
    assert pool.threads != [] ==> pool.threads[0] in pool.threads && !Ready(pool.threads[0]);
    assert forall j :: Busy(j) !in pool.threads;
  }

  /** With no worker allowed, a pushed job is never started. */
  lemma NoWorkers(pool: Pool)
    requires pool.Valid() && pool.threadMax == 0
    ensures pool.threads == [] && pool.started == [] && pool.queue == pool.jobs
  {
  }

  /** Whatever order the workers move in, every pushed job runs once and is over in the end. */
  method Drain(pool: Pool, pick: nat -> nat, throws: nat -> Option<int>)
    requires pool.Valid() && pool.threadMax > 0
    modifies pool, pool.jobs
    ensures pool.Valid() && pool.jobs == old(pool.jobs) && pool.queue == [] && pool.started == pool.jobs
    ensures forall j <- pool.jobs :: j.Over() && j.runs == 1
  {
    var n := 0;
    while exists i :: 0 <= i < |pool.threads| && Ready(pool.threads[i])
      invariant pool.Valid() && pool.jobs == old(pool.jobs)
      decreases pool.Rank()
    {
      var i := FindReady(pool.threads, pick(n));
      assert forall j <- pool.started :: j in old(pool.jobs);
      match pool.threads[i]
      case Between => pool.Pop(i);
      case Parked(_) => pool.Wake(i);
      case Busy(_) => pool.Finish(i, throws(n));
      n := n + 1;
    }
    assert forall w <- pool.threads :: !Ready(w);
    Progress(pool);
  }

  /** A ready worker, looked for from any place on. */
  method FindReady(ws: seq<Worker>, from: nat) returns (i: nat)
    requires exists i :: 0 <= i < |ws| && Ready(ws[i])
    ensures i < |ws| && Ready(ws[i])
  {
    i := from;
    if i < |ws| && Ready(ws[i]) {
      return;
    }
    i :| 0 <= i < |ws| && Ready(ws[i]);
  }
}
