/** The asynchronous IO submission system (ircd/fs_aio.cc): a user-space queue that is flushed
    to the kernel by a deferred chaser, and a completion handler armed while requests fly.
    The kernel's answers and the event loop's order are arbitrary. */
module AioSystem {
  import opened Basics

  const EBADF := 9
  const EAGAIN := 11
  const EINVAL := 22
  const ECANCELED := 125

  /** How io_submit(2) answers an attempt to submit the whole queue. */
  datatype Reply = Accepted | BadFd | Invalid | Fatal

  /** How the event loop calls the completion handler back. */
  datatype Signal = Success | Interrupted | Canceled | Broken

  datatype Completion = Bytes(n: int) | SystemError(code: int)

  class Request {
    var retval: int
    var errcode: int
    ghost var completions: nat

    constructor ()
      ensures retval == -2 && completions == 0
    {
      retval, errcode, completions := -2, 0, 0;
    }

    predicate Completed()
      reads this
    {
      retval >= -1
    }

    /** What complete() reports once the request is completed. */
    method Result(blocking: bool) returns (c: Completion)
      requires Completed()
      ensures c == Report(retval, errcode, blocking)
    {
      if retval != -1 {
        return Bytes(retval);
      }
      if !blocking && retval == -1 && errcode == EAGAIN {
        return Bytes(0);
      }
      return SystemError(errcode);
    }
  }

  function Report(retval: int, errcode: int, blocking: bool): Completion {
    if retval != -1 then Bytes(retval)
    else if !blocking && errcode == EAGAIN then Bytes(0)
    else SystemError(errcode)
  }

  /** What the kernel means by the result of an event: a count, or an error number negated. */
  function Meaning(res: int, blocking: bool): Completion {
    if res >= 0 then Bytes(res)
    else if !blocking && -res == EAGAIN then Bytes(0)
    else SystemError(-res)
  }

  /** From the kernel's event to what complete() reports: the kernel's meaning survives if and only
      if the result is not -1, which the source takes for its own mark and reports as res2. */
  lemma KernelMeaning(res: int, blocking: bool)
    ensures Report(RetvalOf(res), ErrcodeOf(res, 0), blocking) == Meaning(res, blocking) <==> res != -1
    ensures res == -1 ==> Report(RetvalOf(res), ErrcodeOf(res, 0), blocking) == SystemError(0)
  {
  }

  /** The events that the source makes itself, for a failed submission or a cancel, carry the code. */
  lemma OwnMeaning(code: int, blocking: bool)
    ensures Report(RetvalOf(-1), ErrcodeOf(-1, code), blocking) ==
            if !blocking && code == EAGAIN then Bytes(0) else SystemError(code)
  {
  }

  /** A kernel io_event for a request. */
  datatype Event = Event(req: Request, res: int, res2: int)

  /** The first n answers were all EBADF. */
  ghost predicate AllBadFd(replies: nat -> Reply, n: nat) {
    n == 0 || (replies(n - 1) == BadFd && AllBadFd(replies, n - 1))
  }

  /** The kernel refused the queue for good, after n answers of EBADF. */
  ghost predicate FatalAt(replies: nat -> Reply, n: nat) {
    AllBadFd(replies, n) && replies(n) == Fatal
  }

  lemma {:induction false} AllBadFdAt(replies: nat -> Reply, n: nat, k: nat)
    requires AllBadFd(replies, n) && k < n
    ensures replies(k) == BadFd
  {
    if k < n - 1 { AllBadFdAt(replies, n - 1, k); }
  }

  function RetvalOf(res: int): int {
    if res < -1 then -1 else res
  }

  function ErrcodeOf(res: int, res2: int): int {
    if res >= -1 then res2 else -res
  }

  lemma ToSetConcat<T>(a: seq<T>, b: seq<T>)
    ensures ToSet(a + b) == ToSet(a) + ToSet(b)
  {
  }

  lemma {:induction false} DistinctSize<T>(s: seq<T>)
    requires Distinct(s)
    ensures |ToSet(s)| == |s|
  {
    if s != [] {
      var rest, last := s[..|s| - 1], s[|s| - 1];
      DistinctSize(rest);
      assert s == rest + [last];
      ToSetConcat(rest, [last]);
      assert last !in ToSet(rest);
      assert ToSet(s) == ToSet(rest) + {last};
    }
  }

  lemma DisjointSize<T>(a: set<T>, s: seq<T>)
    requires Distinct(s) && forall x <- s :: x !in a
    ensures |a + ToSet(s)| == |a| + |s|
  {
    DistinctSize(s);
    assert a !! ToSet(s);
  }

  lemma GapElements<T>(q: seq<T>, k: nat)
    requires k < |q| && Distinct(q)
    ensures var r := q[..k] + q[k + 1..]; Distinct(r) && forall x :: x in r <==> x in q && x != q[k]
  {
    var r := q[..k] + q[k + 1..];
    forall x | x in q && x != q[k] ensures x in r {
      var j :| 0 <= j < |q| && q[j] == x;
      assert r[if j < k then j else j - 1] == x;
    }
  }

  ghost function Requests(events: seq<Event>): set<Request> {
    set e <- events :: e.req
  }

  ghost predicate DistinctRequests(events: seq<Event>) {
    forall i, j :: 0 <= i < j < |events| ==> events[i].req != events[j].req
  }

  lemma RequestsSize(events: seq<Event>)
    requires DistinctRequests(events)
    ensures |Requests(events)| == |events|
  {
    if events != [] {
      var rest, last := events[..|events| - 1], events[|events| - 1];
      RequestsSize(rest);
      assert Requests(events) == Requests(rest) + {last.req} && last.req !in Requests(rest);
    }
  }

  lemma NoRequests()
    ensures Requests([]) == {}
  {
  }

  lemma RequestsAt(events: seq<Event>, i: nat)
    requires DistinctRequests(events) && i < |events|
    ensures Requests(events[..i + 1]) == Requests(events[..i]) + {events[i].req}
    ensures Requests(events[i..]) == Requests(events[i + 1..]) + {events[i].req}
    ensures events[i].req !in Requests(events[i + 1..])
  {
    assert events[..i + 1] == events[..i] + [events[i]];
    assert events[i..] == [events[i]] + events[i + 1..];
  }

  lemma HeadAndTail<T>(q: seq<T>)
    requires q != [] && Distinct(q)
    ensures Distinct(q[1..]) && q[0] !in q[1..]
    ensures forall x :: x in q <==> x == q[0] || x in q[1..]
  {
    assert q == [q[0]] + q[1..];
  }

  class System {
    const maxEvents: nat
    const coalesce: bool
    const queue: array<Request?>
    var qcount: nat
    var inFlight: nat
    var handleSet: bool
    var ecount: int                  // -1 once the system was interrupted
    ghost var chasers: nat           // chase() calls waiting on the event loop
    ghost var kernel: set<Request>   // what the kernel has and has not reported
    ghost var done: set<Request>
    ghost var known: set<Request>    // every request ever submitted

    /** The requests that wait in user space, in order. */
    ghost function Queued(): seq<Request?>
      requires qcount <= queue.Length
      reads this`qcount, queue
    {
      queue[..qcount]
    }

    /** Each known request is in exactly one place, and has completed once if and only if it is
        done. The requests in transit were reported by the kernel and are yet to be handled. */
    ghost predicate Placed(transit: set<Request>)
      reads this`qcount, this`inFlight, this`kernel, this`done, this`known, queue, known
    {
      && qcount <= queue.Length && 0 < queue.Length
      && Distinct(Queued())
      && (forall r <- Queued() :: r != null && r in known && r !in kernel && r !in done && r !in transit)
      && kernel <= known && done <= known && transit <= known
      && kernel !! done && kernel !! transit && done !! transit
      && (forall r <- known :: r in Queued() || r in kernel || r in done || r in transit)
      && (forall r <- known ::
            if r in done then r.Completed() && r.completions == 1 else !r.Completed() && r.completions == 0)
      && |kernel| == inFlight
      && qcount + inFlight <= maxEvents
    }

    ghost predicate Sound()
      reads this`qcount, this`inFlight, this`kernel, this`done, this`known, queue, known
    {
      Placed({})
    }

    /** Nobody is forgotten: a queue has its chaser, and flying requests their handler. */
    ghost predicate NotStranded()
      reads this
    {
      && (qcount > 0 ==> chasers > 0)
      && (inFlight > 0 && ecount != -1 ==> handleSet)
    }

    /** What holds whenever the event loop has control. */
    ghost predicate Valid()
      reads this, queue, known
    {
      Sound() && NotStranded() && qcount < queue.Length
    }

    /** Valid, and not interrupted. Only a canceled read and interrupt() end this. */
    ghost predicate Served()
      reads this, queue, known
    {
      Valid() && ecount != -1
    }

    /** Arming clears the counter, and nothing else changes it. */
    twostate predicate ArmedOrSame()
      reads this`handleSet, this`ecount
    {
      && (old(handleSet) ==> handleSet)
      && ecount == if handleSet && !old(handleSet) then 0 else old(ecount)
    }

    /** io_getevents(2) reports requests it was given, each once, with any result. */
    ghost predicate FromKernel(events: seq<Event>)
      reads this`kernel
    {
      DistinctRequests(events) && Requests(events) <= kernel
    }

    /** What completed stays completed, with the same result. */
    twostate predicate Kept()
      reads this, known
    {
      && old(known) <= known && old(done) <= done
      && forall r <- old(done) :: r in known ==>
           r.retval == old(r.retval) && r.errcode == old(r.errcode) && r.completions == old(r.completions)
    }

    constructor (maxEvents: nat, maxSubmit: nat, coalesce: bool)
      requires maxEvents > 0
      ensures Valid() && fresh(queue)
      ensures Served() && known == {} && this.maxEvents == maxEvents && this.coalesce == coalesce
      ensures queue.Length == if maxSubmit != 0 then maxSubmit else maxEvents
    {
      this.maxEvents, this.coalesce := maxEvents, coalesce;
      queue := new Request?[if maxSubmit != 0 then maxSubmit else maxEvents](_ => null);
      qcount, inFlight, handleSet, ecount := 0, 0, false, 0;
      chasers, kernel, done, known := 0, {}, {}, {};
    }

    method HandleEvent(e: Event)
      requires e.req in known && e.req !in done && e.req.completions == 0
      modifies this`done, e.req
      ensures done == old(done) + {e.req} && e.req.completions == 1
      ensures e.req.retval == RetvalOf(e.res) && e.req.errcode == ErrcodeOf(e.res, e.res2)
    {
      e.req.retval := if e.res < -1 then -1 else e.res;
      e.req.errcode := if e.res >= -1 then e.res2 else if e.res < 0 then -e.res else e.res;
      e.req.completions := e.req.completions + 1;
      done := done + {e.req};
    }

    /** std::rotate(begin, begin + 1, end) */
    method RotateQueue()
      requires queue.Length > 0
      modifies queue
      ensures queue[..] == old(queue[1..]) + [old(queue[0])]
    {
      var first := queue[0];
      var i := 1;
      while i < queue.Length
        invariant 1 <= i <= queue.Length
        invariant forall j :: 0 <= j < i - 1 ==> queue[j] == old(queue[j + 1])
        invariant forall j :: i <= j < queue.Length ==> queue[j] == old(queue[j])
      {
        queue[i - 1] := queue[i];
        i := i + 1;
      }
      queue[queue.Length - 1] := first;
    }

    method DequeueOne(code: nat)
      requires Sound() && qcount > 0
      modifies this`qcount, this`done, queue, known - done
      ensures Sound() && old(done) <= done
      ensures qcount == old(qcount) - 1 && Queued() == old(Queued())[1..]
      ensures done == old(done) + {old(queue[0])} && Failed([old(queue[0])], code)
    {
      var cb := queue[0];
      ghost var q := Queued();
      HeadAndTail(q);
      RotateQueue();
      qcount := qcount - 1;
      assert Queued() == q[1..];
      HandleEvent(Event(cb, -1, code));
    }

    method DequeueAll(code: nat)
      requires Sound()
      modifies this`qcount, this`done, queue, known - done
      ensures Sound() && old(done) <= done && qcount == 0
      ensures done == old(done) + old(ToSet(Queued())) && Failed(old(Queued()), code)
    {
      ghost var q, done0 := Queued(), done;
      ghost var i: nat := 0;
      hide Placed, ToSet, Failed;
      assert q[..0] == [] && q[0..] == q;
      NothingDequeued(done0);
      FailedNone(q[..0], code);
      while qcount > 0
        invariant Sound() && done0 <= done && qcount <= queue.Length
        invariant i <= |q| && Queued() == q[i..]
        invariant done == done0 + ToSet(q[..i]) && Failed(q[..i], code)
        decreases qcount
      {
        DequeueNext(q, i, code);
        i := i + 1;
      }
      assert q[..i] == q;
    }

    lemma NothingDequeued(done0: set<Request>)
      ensures done0 + ToSet<Request?>([]) == done0
    {
    }

    /** The queue began as q, of which i have failed; one more does. */
    method DequeueNext(ghost q: seq<Request?>, ghost i: nat, code: nat)
      requires Sound() && 0 < qcount <= queue.Length && i < |q| && Queued() == q[i..] && Failed(q[..i], code)
      modifies this`qcount, this`done, queue, known - done
      ensures Sound() && old(done) <= done && qcount == old(qcount) - 1 && Queued() == q[i + 1..]
      ensures done == old(done) + {q[i]} && Failed(q[..i + 1], code)
      ensures ToSet(q[..i + 1]) == ToSet(q[..i]) + {q[i]}
    {
      Pieces(q, i);
      hide Placed, ToSet;
      assert queue[0] == Queued()[0] == q[i];
      DequeueOne(code);
      assert Failed(q[..i], code);
      hide Failed;
      FailedConcat(q[..i], [q[i]], code);
    }

    /** io_submit(): the kernel takes the whole queue, or one of two errors is recovered from;
        any other error escapes and terminates the process. */
    method IoSubmit(reply: Reply) returns (submitted: nat, alive: bool)
      requires Sound() && qcount > 0
      modifies this`qcount, this`done, queue, known - done
      ensures alive <==> reply != Fatal
      ensures alive ==> Sound() && old(done) <= done && qcount <= queue.Length
      ensures reply == Accepted ==>
                submitted == qcount == old(qcount) && Queued() == old(Queued()) && done == old(done)
      ensures reply == BadFd ==>
                && submitted == 0 && qcount == old(qcount) - 1 && Queued() == old(Queued())[1..]
                && done == old(done) + {old(queue[0])} && Failed([old(queue[0])], EBADF)
      ensures reply == Invalid ==>
                && submitted == 0 && qcount == 0
                && done == old(done) + old(ToSet(Queued())) && Failed(old(Queued()), EINVAL)
    {
      match reply {
        case Accepted => submitted, alive := qcount, true;
        case BadFd =>
          DequeueOne(EBADF);
          submitted, alive := 0, true;
        case Invalid =>
          DequeueAll(EINVAL);
          submitted, alive := 0, true;
        case Fatal => submitted, alive := 0, false;
      }
    }

    method SetHandle()
      requires !handleSet
      modifies this`handleSet, this`ecount
      ensures handleSet && ecount == 0
    {
      handleSet := true;
      ecount := 0;
    }

    /** These requests completed with an error of their own. */
    ghost predicate Failed(rs: seq<Request?>, code: int)
      reads this`done, this`known, known
    {
      forall r <- rs :: r in done && r in known && r.retval == -1 && r.errcode == code
    }

    /** What a flush made of the queue q: the first n requests failed with EBADF one by one, then
        the kernel took the rest, or refused them all with EINVAL. */
    ghost predicate Flushed(q: seq<Request?>, n: nat, replies: nat -> Reply, kernel0: set<Request>, done0: set<Request>)
      reads this`kernel, this`done, this`known, known
    {
      && n <= |q| && AllBadFd(replies, n)
      && Failed(q[..n], EBADF)
      && (n < |q| ==> replies(n) == Accepted || replies(n) == Invalid)
      && if n < |q| && replies(n) == Accepted then
           kernel == kernel0 + ToSet(q[n..]) && done == done0 + ToSet(q[..n])
         else
           kernel == kernel0 && done == done0 + ToSet(q) && Failed(q[n..], EINVAL)
    }

    /** One attempt of the retry loop: it shrinks the queue, or it settles the flush. */
    method Attempt(replies: nat -> Reply, ghost q: seq<Request?>, n: nat, ghost done0: set<Request>)
      returns (submitted: nat, alive: bool, m: nat)
      requires Sound() && Draining(q, n, replies, done0)
      modifies this`qcount, this`done, queue, known - done
      ensures alive ==> Sound() && old(done) <= done && n <= m
      ensures alive && qcount > 0 && submitted == 0 ==> m == n + 1 && Draining(q, m, replies, done0)
      ensures alive && !(qcount > 0 && submitted == 0) ==> Flushing(q, m, replies, submitted, done0)
      ensures !alive ==> FatalAt(replies, m)
    {
      Pieces(q, n);
      hide Placed, ToSet;
      m := n;
      submitted, alive := IoSubmit(replies(n));
      if !alive { return; }
      assert Failed(q[..n], EBADF);
      hide Failed;
      if replies(n) == BadFd {
        m := n + 1;
        FailedConcat(q[..n], [q[n]], EBADF);
        if m == |q| {
          FailedNone(q[m..], EINVAL);
        }
      }
    }

    lemma FailedConcat(a: seq<Request?>, b: seq<Request?>, code: int)
      requires Failed(a, code) && Failed(b, code)
      ensures Failed(a + b, code)
    {
    }

    lemma FailedNone(a: seq<Request?>, code: int)
      requires a == []
      ensures Failed(a, code)
    {
    }

    /** The queue q around its place n. */
    static lemma Pieces(q: seq<Request?>, n: nat)
      requires n < |q|
      ensures q == q[..n] + q[n..] && q[..n + 1] == q[..n] + [q[n]] && q[n..][1..] == q[n + 1..] && q[n..][0] == q[n]
      ensures ToSet(q) == ToSet(q[..n]) + ToSet(q[n..]) && ToSet(q[..n + 1]) == ToSet(q[..n]) + {q[n]}
      ensures n + 1 == |q| ==> q[..n + 1] == q && q[n + 1..] == []
    {
      assert q == q[..n] + q[n..] && q[..n + 1] == q[..n] + [q[n]];
      ToSetConcat(q[..n], q[n..]);
      ToSetConcat(q[..n], [q[n]]);
    }

    /** The retry loop of submit(): each recoverable error shrinks the queue, so it ends. */
    method RetrySubmit(replies: nat -> Reply) returns (submitted: nat, alive: bool, n: nat)
      requires Sound() && 0 < qcount <= queue.Length
      modifies this`qcount, this`done, queue, known - done
      ensures alive ==> Sound() && old(done) <= done
      ensures !alive ==> FatalAt(replies, n)
      ensures alive ==> Flushing(old(Queued()), n, replies, submitted, old(done))
    {
      hide Sound;
      ghost var q, done0 := Queued(), done;
      n := 0;
      while true
        invariant Sound() && done0 <= done
        invariant Draining(q, n, replies, done0)
        decreases |q| - n
      {
        submitted, alive, n := Attempt(replies, q, n, done0);
        if !alive { return; }
        if !(qcount > 0 && submitted == 0) { break; }
      }
    }

    /** In the retry loop: n requests of q have failed with EBADF, the rest still waits. */
    ghost predicate Draining(q: seq<Request?>, n: nat, replies: nat -> Reply, done0: set<Request>)
      reads this`qcount, this`done, this`known, known, queue
    {
      && n < |q| && 0 < qcount <= queue.Length && Queued() == q[n..]
      && AllBadFd(replies, n) && Failed(q[..n], EBADF) && done == done0 + ToSet(q[..n])
    }

    /** Between the retry loop and the kernel's ownership: what the loop made of the queue q. */
    ghost predicate Flushing(q: seq<Request?>, n: nat, replies: nat -> Reply, submitted: nat, done0: set<Request>)
      reads this, known, queue
    {
      && n <= |q| && AllBadFd(replies, n)
      && qcount <= queue.Length
      && Failed(q[..n], EBADF)
      && if submitted > 0 then
           && n < |q| && replies(n) == Accepted && submitted == qcount
           && Queued() == q[n..] && done == done0 + ToSet(q[..n])
         else
           && qcount == 0 && done == done0 + ToSet(q) && Failed(q[n..], EINVAL)
           && (n < |q| ==> replies(n) == Invalid)
    }

    /** submit(): flush the queue down to zero and arm the handler if the kernel was idle. */
    method SubmitAll(replies: nat -> Reply) returns (submitted: nat, alive: bool, n: nat)
      requires Sound() && 0 < qcount <= queue.Length
      requires inFlight > 0 && ecount != -1 ==> handleSet
      modifies this`qcount, this`done, this`kernel, this`inFlight, this`handleSet, this`ecount, queue, known - done
      ensures alive ==> Sound() && old(done) <= done && qcount == 0 && (inFlight > 0 && ecount != -1 ==> handleSet)
      ensures alive ==> Flushed(old(Queued()), n, replies, old(kernel), old(done))
      ensures !alive ==> FatalAt(replies, n)
      ensures alive ==> ArmedOrSame() && inFlight == old(inFlight) + submitted
      ensures alive ==> (handleSet <==> old(handleSet) || (old(inFlight) == 0 && submitted > 0))
    {
      hide Sound, Flushing, Flushed;
      ghost var q, done0 := Queued(), done;
      var idle := inFlight == 0;
      submitted, alive, n := RetrySubmit(replies);
      if !alive { return; }
      KernelTakes(submitted, q, n, replies, done0);
      if idle && submitted > 0 && !handleSet {
        SetHandle();
      }
    }

    /** The requests that were submitted now belong to the kernel. */
    method KernelTakes(submitted: nat, ghost q: seq<Request?>, ghost n: nat, ghost replies: nat -> Reply,
                       ghost done0: set<Request>)
      requires Sound() && Flushing(q, n, replies, submitted, done0)
      modifies this`qcount, this`kernel, this`inFlight
      ensures Sound() && qcount == 0 && inFlight == old(inFlight) + submitted
      ensures Flushed(q, n, replies, old(kernel), done0)
    {
      hide Placed;
      Fly(submitted);
    }

    method Fly(submitted: nat)
      requires Sound() && submitted == qcount
      modifies this`qcount, this`kernel, this`inFlight
      ensures Sound() && qcount == 0 && inFlight == old(inFlight) + submitted
      ensures kernel == old(kernel) + old(ToSet(Queued()))
    {
      ghost var rest := Queued();
      DisjointSize(kernel, rest);
      inFlight := inFlight + submitted;
      kernel := kernel + ToSet(rest);
      qcount := qcount - submitted;
      assert Queued() == [];
    }

    /** submit(request): queue the request, flush if asked to, and post a chaser for a first entry. */
    method Submit(r: Request, nodelay: bool, replies: nat -> Reply) returns (alive: bool, flushed: bool, n: nat)
      requires Valid() && r !in known && r.retval == -2 && r.completions == 0
      requires qcount + inFlight < maxEvents
      modifies this, queue, known - done, r
      ensures flushed == (!coalesce || nodelay || old(qcount) + 1 >= queue.Length)
      ensures alive ==> Valid() && Kept() && known == old(known) + {r}
      ensures alive && !flushed ==>
                Queued() == old(Queued()) + [r] && kernel == old(kernel) && done == old(done)
      ensures !alive ==> flushed && FatalAt(replies, n)
      ensures alive ==> chasers == old(chasers) + if !flushed && old(qcount) == 0 then 1 else 0
      ensures alive && flushed ==> Queued() == [] && Flushed(old(Queued()) + [r], n, replies, old(kernel), old(done))
      ensures alive ==> ArmedOrSame() && (old(inFlight) == 0 && inFlight > 0 ==> handleSet)
      ensures alive && old(Served()) ==> Served()
    {
      hide Placed, Flushed;
      Enqueue(r);
      flushed := !coalesce || nodelay || qcount >= queue.Length;
      alive, n := true, 0;
      if flushed {
        var _, ok, m := SubmitAll(replies);
        alive, n := ok, m;
      }
      if qcount == 1 {
        chasers := chasers + 1;
      }
    }

    method Enqueue(r: Request)
      requires Sound() && qcount < queue.Length && r !in known && r.retval == -2 && r.completions == 0
      requires qcount + inFlight < maxEvents
      modifies this`qcount, this`known, queue
      ensures Sound() && known == old(known) + {r} && qcount == old(qcount) + 1 <= queue.Length
      ensures Queued() == old(Queued()) + [r]
    {
      ghost var q := Queued();
      queue[qcount] := r;
      qcount := qcount + 1;
      known := known + {r};
      assert Queued() == q + [r];
    }

    /** chase(), as the event loop runs it. */
    method Chase(replies: nat -> Reply) returns (alive: bool, n: nat)
      requires Valid() && chasers > 0
      modifies this, queue, known - done
      ensures alive ==> Valid() && Kept() && qcount == 0 && known == old(known) && chasers == old(chasers) - 1
      ensures alive ==>
                || Flushed(old(Queued()), n, replies, old(kernel), old(done))
                || (old(qcount) == 0 && kernel == old(kernel) && done == old(done))
      ensures !alive ==> old(qcount) > 0 && FatalAt(replies, n)
      ensures alive ==> ArmedOrSame() && (old(inFlight) == 0 && inFlight > 0 ==> handleSet)
      ensures alive && old(Served()) ==> Served()
    {
      hide Placed, Flushed;
      chasers := chasers - 1;
      alive, n := true, 0;
      if qcount == 0 {
        return;
      }
      var _, ok, m := SubmitAll(replies);
      alive, n := ok, m;
    }

    /** handle_events(): reap what the kernel reports, each request at most once. */
    method HandleEvents(events: seq<Event>)
      requires Sound() && FromKernel(events)
      modifies this`inFlight, this`kernel, this`done, known - done
      ensures Sound() && known == old(known)
      ensures done == old(done) + Requests(events) && kernel == old(kernel) - Requests(events)
      ensures inFlight == old(inFlight) - |events| && Reported(events)
    {
      hide Placed, Requests, DistinctRequests, Reported;
      ghost var done0 := done;
      NoRequests();
      assert events[..0] == [] && events[0..] == events && events[..|events|] == events && events[|events|..] == [];
      TakeFromKernel(events);
      var i := 0;
      while i < |events|
        invariant i <= |events| && Reaping(events, i, done0) && old(done) <= done
        invariant known == old(known) && kernel == old(kernel) - Requests(events)
        invariant inFlight == old(inFlight) - |events|
      {
        HandleNth(events, i, done0);
        i := i + 1;
      }
    }

    /** In the loop of handle_events(): the first i events are handled, the others in transit. */
    ghost predicate Reaping(events: seq<Event>, i: nat, done0: set<Request>)
      requires i <= |events|
      reads this`qcount, this`inFlight, this`kernel, this`done, this`known, queue, known
    {
      && Placed(Requests(events[i..])) && Requests(events[i..]) !! done && Requests(events[i..]) <= known
      && done == done0 + Requests(events[..i]) && Reported(events[..i])
    }

    method HandleNth(events: seq<Event>, i: nat, ghost done0: set<Request>)
      requires i < |events| && DistinctRequests(events) && Reaping(events, i, done0)
      modifies this`done, known - done
      ensures Reaping(events, i + 1, done0) && old(done) <= done
    {
      hide Placed, Requests, DistinctRequests;
      RequestsAt(events, i);
      assert events[..i + 1] == events[..i] + [events[i]];
      assert events[i].req in Requests(events[i..]);
      HandleReported(events[i], Requests(events[i..]));
      assert Requests(events[i..]) - {events[i].req} == Requests(events[i + 1..]);
    }

    /** These requests completed with what the kernel said of them. */
    ghost predicate Reported(events: seq<Event>)
      reads this`done, this`known, known
    {
      forall e <- events ::
        && e.req in done && e.req in known
        && e.req.retval == RetvalOf(e.res) && e.req.errcode == ErrcodeOf(e.res, e.res2)
    }

    method TakeFromKernel(events: seq<Event>)
      requires Sound() && FromKernel(events)
      modifies this`inFlight, this`kernel
      ensures Placed(Requests(events)) && Requests(events) !! done && Requests(events) <= known && Reported([])
      ensures kernel == old(kernel) - Requests(events) && inFlight == old(inFlight) - |events|
    {
      RequestsSize(events);
      assert kernel == Requests(events) + (kernel - Requests(events));
      inFlight := inFlight - |events|;
      kernel := kernel - Requests(events);
    }

    method HandleReported(e: Event, ghost transit: set<Request>)
      requires Placed(transit) && e.req in transit && transit !! done
      modifies this`done, e.req
      ensures Placed(transit - {e.req}) && done == old(done) + {e.req} && e.req in known
      ensures transit - {e.req} !! done
      ensures e.req.retval == RetvalOf(e.res) && e.req.errcode == ErrcodeOf(e.res, e.res2)
    {
      HandleEvent(e);
    }

    /** handle(ec, bytes): the armed read of the event descriptor came back. */
    method Handle(signal: Signal, count: nat, events: seq<Event>) returns (alive: bool)
      requires Valid() && handleSet && FromKernel(events)
      modifies this`inFlight, this`kernel, this`done, this`handleSet, this`ecount, known - done
      ensures alive <==> signal != Broken
      ensures alive ==> Valid() && Kept() && known == old(known) && Queued() == old(Queued())
      ensures signal == Success ==>
                done == old(done) + Requests(events) && kernel == old(kernel) - Requests(events) && Reported(events)
      ensures signal != Success ==> done == old(done) && kernel == old(kernel)
      ensures signal == Canceled ==> ecount == -1 && !handleSet
      ensures signal == Success || signal == Interrupted ==>
                && handleSet == (inFlight > 0)
                && ecount == if handleSet then 0 else if signal == Success then count else old(ecount)
      ensures signal != Canceled && alive && old(Served()) ==> Served()
    {
      hide Placed, Reported, Requests, DistinctRequests;
      assert qcount < queue.Length;
      handleSet := false;
      alive := signal != Broken;
      match signal {
        case Success =>
          ecount := count;
          HandleEvents(events);
        case Interrupted =>
        case Canceled =>
          ecount := -1;
          return;
        case Broken => return;
      }
      if inFlight > 0 && !handleSet {
        SetHandle();
      }
    }

    /** interrupt(): cancel the armed read, whose handler then comes back canceled. */
    method Interrupt() returns (cancelRead: bool)
      requires Valid()
      modifies this`ecount
      ensures Valid() && cancelRead == handleSet && ecount == if handleSet then old(ecount) else -1
    {
      cancelRead := handleSet;
      if !handleSet {
        ecount := -1;
      }
    }

    method IsQueued(r: Request) returns (found: bool)
      requires qcount <= queue.Length
      ensures found <==> r in Queued()
    {
      var i := 0;
      while i < qcount
        invariant i <= qcount && forall j :: 0 <= j < i ==> queue[j] != r
      {
        if queue[i] == r {
          assert Queued()[i] == r;
          return true;
        }
        i := i + 1;
      }
      return false;
    }

    /** std::remove(begin, begin + qcount, r), which closes the gap in order. */
    method RemoveFromQueue(r: Request, ghost k: nat) returns (n: nat)
      requires qcount <= queue.Length && Distinct(Queued()) && k <= qcount
      requires if k < qcount then queue[k] == r else r !in Queued()
      modifies queue
      ensures n == if k < qcount then qcount - 1 else qcount
      ensures queue[..n] == if k < qcount then old(Queued()[..k] + Queued()[k + 1..]) else old(Queued())
    {
      ghost var q := Queued();
      var i := 0;
      n := 0;
      while i < qcount
        invariant i <= qcount && n == if i <= k then i else i - 1
        invariant forall j :: 0 <= j < n ==> queue[j] == q[if j < k then j else j + 1]
        invariant forall j :: i <= j < qcount ==> queue[j] == q[j]
      {
        assert queue[i] == q[i] && (i == k <==> q[i] == r);
        if queue[i] != r {
          queue[n] := queue[i];
          n := n + 1;
        }
        i := i + 1;
      }
    }

    /** A request that waits in user space leaves the queue, and is in transit. */
    method Erase(r: Request) returns (erased: bool)
      requires Valid() && r in known
      modifies this`qcount, queue
      ensures erased <==> r in old(Queued())
      ensures erased ==> Placed({r}) && r !in kernel && qcount < queue.Length && Queued() == Without(old(Queued()), r)
      ensures erased ==> qcount == old(qcount) - 1
      ensures !erased ==> Valid() && Queued() == old(Queued()) && qcount == old(qcount)
    {
      ghost var q := Queued();
      ghost var k := if r in q then IndexOf(q, r) else qcount;
      var n := RemoveFromQueue(r, k);
      erased := n < qcount;
      if erased {
        GapElements(q, k);
        qcount := n;
      }
      assert Queued() == if erased then q[..k] + q[k + 1..] else q;
    }

    /** cancel(request): a queued request leaves the queue and fails with ECANCELED; for a flying
        one the answer of io_cancel(2) is handled as its event, or nothing happens when it fails. */
    method Cancel(r: Request, answer: Option<Event>) returns (ok: bool)
      requires Valid() && r in known && r !in done && (answer.Some? ==> answer.value.req == r)
      modifies this`qcount, this`inFlight, this`kernel, this`done, queue, r
      ensures Valid() && known == old(known)
      ensures ok <==> r in old(Queued()) || answer.Some?
      ensures Queued() == if r in old(Queued()) then Without(old(Queued()), r) else old(Queued())
      ensures kernel == if ok then old(kernel) - {r} else old(kernel)
      ensures done == if ok then old(done) + {r} else old(done)
      ensures r in old(Queued()) ==> r.retval == -1 && r.errcode == ECANCELED
      ensures ok && r !in old(Queued()) ==>
                r.retval == RetvalOf(answer.value.res) && r.errcode == ErrcodeOf(answer.value.res, answer.value.res2)
    {
      hide Placed, Without, Requests, DistinctRequests, Distinct, Reported;
      var erased := Erase(r);
      ok := erased || answer.Some?;
      if erased {
        FinishCancel(Event(r, -1, ECANCELED));
      } else if ok {
        CancelFlying(answer.value);
      }
    }

    method FinishCancel(e: Event)
      requires Placed({e.req}) && e.req !in done && NotStranded() && qcount < queue.Length
      modifies this`done, e.req
      ensures Valid() && done == old(done) + {e.req}
      ensures e.req.retval == RetvalOf(e.res) && e.req.errcode == ErrcodeOf(e.res, e.res2)
    {
      hide Placed, RetvalOf, ErrcodeOf;
      HandleReported(e, {e.req});
      assert {e.req} - {e.req} == {};
    }

    method CancelFlying(e: Event)
      requires Valid() && e.req in known && e.req !in done && e.req !in Queued()
      modifies this`inFlight, this`kernel, this`done, e.req
      ensures Valid() && kernel == old(kernel) - {e.req} && done == old(done) + {e.req}
      ensures e.req.retval == RetvalOf(e.res) && e.req.errcode == ErrcodeOf(e.res, e.res2)
    {
      assert Requests([e]) == {e.req};
      hide RetvalOf, ErrcodeOf;
      TakeFromKernel([e]);
      FinishCancel(e);
    }

    /** A known request is in one place, and has completed exactly when it is done. */
    lemma Whereabouts(r: Request)
      requires Valid() && r in known
      ensures r.Completed() <==> r in done
      ensures r in done ==> r.completions == 1 && r !in kernel && r !in Queued()
      ensures r !in done ==> (r in Queued() <==> r !in kernel)
    {
    }

    /** The catch block of wait(): either the request has completed and the interrupt may be
        rethrown, or the kernel still has it and the caller must wait again. */
    method WaitInterrupted(r: Request) returns (rethrown: bool)
      requires Valid() && r in known
      modifies this`qcount, this`inFlight, this`kernel, this`done, queue, known - done
      ensures Valid() && Kept() && known == old(known) && kernel == old(kernel)
      ensures rethrown <==> r !in kernel
      ensures rethrown ==> r in done && r.Completed()
      ensures r in old(Queued()) ==>
                && done == old(done) + {r} && Queued() == Without(old(Queued()), r)
                && r.retval == -1 && r.errcode == ECANCELED
      ensures r !in old(Queued()) ==> done == old(done) && Queued() == old(Queued())
    {
      hide Placed, Without;
      Whereabouts(r);
      if r.Completed() {
        return true;
      }
      var queued := IsQueued(r);
      if queued {
        var _ := Cancel(r, None);
        return true;
      }
      return false;
    }

    /** An event of the kernel and the complete() of the context that waited for it. */
    method HandleThenComplete(e: Event, ghost transit: set<Request>, blocking: bool) returns (c: Completion)
      requires Placed(transit) && e.req in transit && transit !! done && e.res2 == 0
      modifies this`done, e.req
      ensures Placed(transit - {e.req}) && done == old(done) + {e.req}
      ensures c == Meaning(e.res, blocking) <==> e.res != -1
    {
      HandleReported(e, transit);
      c := e.req.Result(blocking);
      KernelMeaning(e.res, blocking);
    }

    /** No request is ever lost or duplicated. */
    lemma Conservation()
      requires Valid()
      ensures |known| == qcount + inFlight + |done|
    {
      DistinctSize(Queued());
      var q := set r <- known | r in Queued();
      assert q == ToSet(Queued());
      assert known == q + kernel + done;
    }

    /** Until the system is interrupted, an unfinished request always has a callback coming. */
    lemma NobodyStranded(r: Request)
      requires Served() && r in known && r !in done
      ensures chasers > 0 || handleSet
      ensures r in Queued() ==> chasers > 0
      ensures r in kernel ==> handleSet
    {
      if r in kernel {
        assert kernel != {};
      }
    }
  }

  /** One request on its way: submitted at once to a system that is served, accepted by the kernel and
      reported by it. The handler is armed in between, and complete() yields what the kernel meant. */
  method OneRequest(sys: System, r: Request, replies: nat -> Reply, res: int, blocking: bool) returns (c: Completion)
    requires sys.Served() && r !in sys.known && r.retval == -2 && r.completions == 0
    requires sys.qcount + sys.inFlight < sys.maxEvents && replies(0) == Accepted
    modifies sys, sys.queue, sys.known - sys.done, r
    ensures sys.Served() && r in sys.done && r.completions == 1
    ensures c == Meaning(res, blocking) <==> res != -1
  {
    hide System.Placed;
    ghost var q := sys.Queued() + [r];
    var alive, flushed, n := sys.Submit(r, true, replies);
    if n > 0 { AllBadFdAt(replies, n, 0); }
    assert q[0..] == q && q[|q| - 1] == r && r in ToSet(q) && q[..0] == [];
    var e := Event(r, res, 0);
    assert Requests([e]) == {r};
    sys.Whereabouts(r);
    sys.NobodyStranded(r);
    var ok := sys.Handle(Success, 1, [e]);
    sys.Whereabouts(r);
    c := r.Result(blocking);
    KernelMeaning(res, blocking);
  }
}
