/** Cooperative scheduling around docks (ircd/ctx.cc:294-361, 578-640, 1073-1148, 2802-2990): who runs,
    who sleeps, what a note, a timer or an interrupt does, and why no wakeup is lost. The event
    loop picks the next context arbitrarily; a context runs until it yields. */
module DockSchedule {
  import opened Basics

  datatype Phase = Awake | Suspended | Queued

  /** A wakeup condition, and the dock whose waiters may ask for it. */
  datatype Pred = Pred(dock: nat, k: nat)

  datatype Wait = Plain(d: nat) | Until(pred: Pred, timed: bool)

  datatype Context = Context(phase: Phase, notes: nat, wait: Option<Wait>, interrupted: bool)

  datatype Actor = EventLoop | Handler | Running(c: nat)

  /** truth: the conditions that hold. dirty: the docks of conditions that came true since their
      last notify_all; no part of the program, only of what is asked of it. */
  datatype State = State(actor: Actor, ctxs: map<nat, Context>, queues: map<nat, seq<nat>>,
                         truth: set<Pred>, dirty: set<nat>)

  datatype Op =
    | Spawn(c: nat)
    | Resume(c: nat)
    | TimerFires(c: nat)
    | BeginHandler
    | EndHandler
    | Finish
    | Sleep
    | Mutate(truth: set<Pred>)
    | Notify(c: nat)
    | Interrupt(c: nat)
    | DockNotify(d: nat)
    | DockNotifyOne(d: nat)
    | DockNotifyAll(d: nat)
    | BeginWait(w: Wait, place: nat)
    | LoopBack
    | LeaveWait

  function DockOf(w: Wait): nat {
    match w
    case Plain(d) => d
    case Until(p, _) => p.dock
  }

  function Queue(s: State, d: nat): seq<nat> {
    if d in s.queues then s.queues[d] else []
  }

  /** note(): only the first note of a suspended context wakes it. */
  function Noted(x: Context): Context {
    x.(notes := x.notes + 1, phase := if x.notes == 0 then Woken(x.phase) else x.phase)
  }

  /** wake(): a suspended context is queued to resume. */
  function Woken(p: Phase): Phase {
    if p.Suspended? then Queued else p
  }

  function NoteEach(ctxs: map<nat, Context>, q: seq<nat>): map<nat, Context>
    requires forall c <- q :: c in ctxs
  {
    if q == [] then ctxs else NoteEach(ctxs[q[0] := Noted(ctxs[q[0]])], q[1..])
  }

  lemma {:induction false} NoteEachAt(ctxs: map<nat, Context>, q: seq<nat>)
    requires Distinct(q) && forall c <- q :: c in ctxs
    ensures NoteEach(ctxs, q).Keys == ctxs.Keys
    ensures forall c <- ctxs :: NoteEach(ctxs, q)[c] == if c in q then Noted(ctxs[c]) else ctxs[c]
  {
    if q != [] {
      assert q[0] !in q[1..];
      NoteEachAt(ctxs[q[0] := Noted(ctxs[q[0]])], q[1..]);
    }
  }

  /** What the code permits. */
  ghost predicate Legal(s: State, op: Op) {
    match op
    case Spawn(c) => !s.actor.EventLoop? && c !in s.ctxs
    case Resume(c) => s.actor.EventLoop? && c in s.ctxs && s.ctxs[c].phase.Queued?
    case TimerFires(c) => s.actor.EventLoop? && c in s.ctxs && s.ctxs[c].phase.Suspended?
    case BeginHandler => s.actor.EventLoop?
    case EndHandler => s.actor.Handler?
    case Finish => Idle(s)
    case Sleep => Idle(s)
    case Mutate(_) => !s.actor.EventLoop?
    case Notify(c) => !s.actor.EventLoop? && c in s.ctxs
    case Interrupt(c) => !s.actor.EventLoop? && c in s.ctxs
    case DockNotify(_) => !s.actor.EventLoop?
    case DockNotifyOne(_) => !s.actor.EventLoop?
    case DockNotifyAll(_) => !s.actor.EventLoop?
    case BeginWait(w, place) => Idle(s) && place <= |Queue(s, DockOf(w))|
    case LoopBack => Checking(s) && Self(s).wait.value.Until? && Self(s).wait.value.pred !in s.truth
    case LeaveWait =>
      Checking(s) && (Self(s).wait.value.Until? ==> Self(s).wait.value.pred in s.truth || Self(s).wait.value.timed)
  }

  function Self(s: State): Context
    requires s.actor.Running? && s.actor.c in s.ctxs
  {
    s.ctxs[s.actor.c]
  }

  /** A context runs, outside any wait. */
  predicate Idle(s: State) {
    s.actor.Running? && s.actor.c in s.ctxs && Self(s).wait.None?
  }

  /** A context has come out of a wait and is about to check its condition. */
  predicate Checking(s: State) {
    s.actor.Running? && s.actor.c in s.ctxs && Self(s).wait.Some?
  }

  function Put(s: State, c: nat, x: Context): State {
    s.(ctxs := s.ctxs[c := x])
  }

  /** notify_one(): the front of the queue, if any, is noted. */
  function NoteFront(s: State, d: nat): State {
    var q := Queue(s, d);
    if q == [] || q[0] !in s.ctxs then s else Put(s, q[0], Noted(s.ctxs[q[0]]))
  }

  /** The destructor of the waiting frame. */
  function Leave(s: State, c: nat): State
    requires c in s.ctxs && s.ctxs[c].wait.Some?
    requires c in Queue(s, DockOf(s.ctxs[c].wait.value))
  {
    var d := DockOf(s.ctxs[c].wait.value);
    Put(s, c, s.ctxs[c].(wait := None)).(queues := s.queues[d := Without(Queue(s, d), c)])
  }

  /** Suspend the running context and return to the event loop. */
  function Yield(s: State): State
    requires s.actor.Running? && s.actor.c in s.ctxs
  {
    Put(s, s.actor.c, Self(s).(phase := Suspended, notes := 0)).(actor := EventLoop)
  }

  function Step(s: State, op: Op): State
    requires Legal(s, op) && Inv(s)
  {
    match op
    case Spawn(c) => Put(s, c, Context(Queued, 0, None, false))
    case Resume(c) =>
      var x := s.ctxs[c].(phase := Awake, notes := 1);
      var t := Put(s, c, x.(interrupted := false)).(actor := Running(c));
      assert x.wait.Some? ==> c in Queue(s, DockOf(x.wait.value));
      if x.interrupted && x.wait.Some? then NoteFront(Leave(t, c), DockOf(x.wait.value)) else t
    case TimerFires(c) => Put(s, c, s.ctxs[c].(phase := Queued))
    case BeginHandler => s.(actor := Handler)
    case EndHandler => s.(actor := EventLoop)
    case Finish => s.(ctxs := s.ctxs - {s.actor.c}, actor := EventLoop)
    case Sleep => Yield(s)
    case Mutate(truth) => s.(truth := truth, dirty := s.dirty + set p <- truth | p !in s.truth :: p.dock)
    case Notify(c) => Put(s, c, Noted(s.ctxs[c]))
    case Interrupt(c) =>
      if s.ctxs[c].interrupted then s
      else Put(s, c, s.ctxs[c].(interrupted := true, phase := Woken(s.ctxs[c].phase)))
    case DockNotify(d) =>
      var q := Queue(s, d);
      if q == [] then s else NoteFront(s, d).(queues := s.queues[d := q[1..] + [q[0]]])
    case DockNotifyOne(d) => NoteFront(s, d)
    case DockNotifyAll(d) => s.(ctxs := NoteEach(s.ctxs, Queue(s, d)), dirty := s.dirty - {d})
    case BeginWait(w, place) =>
      if w.Until? && w.pred in s.truth then s
      else
        var q, d := Queue(s, DockOf(w)), DockOf(w);
        var c := s.actor.c;
        Yield(Put(s, c, Self(s).(wait := Some(w))).(queues := s.queues[d := Inserted(q, place, c)]))
    case LoopBack => Yield(s)
    case LeaveWait => Leave(s, s.actor.c)
  }

  // ----- what every step keeps -----

  ghost predicate OneRuns(s: State) {
    && (s.actor.Running? ==> s.actor.c in s.ctxs)
    && forall c <- s.ctxs :: s.ctxs[c].phase.Awake? <==> s.actor == Running(c)
  }

  /** A suspended context has no note pending, so the next note will wake it. */
  ghost predicate Wakeable(s: State) {
    forall c <- s.ctxs :: s.ctxs[c].phase.Suspended? ==> s.ctxs[c].notes == 0
  }

  /** Every queue holds exactly the contexts in a wait on its dock, once each. */
  ghost predicate QueuesExact(s: State) {
    && (forall d :: Distinct(Queue(s, d)))
    && (forall d, c :: c in Queue(s, d) <==> c in s.ctxs && s.ctxs[c].wait.Some? && DockOf(s.ctxs[c].wait.value) == d)
  }

  ghost predicate Asleep(s: State, c: nat)
    requires c in s.ctxs
  {
    s.ctxs[c].phase.Suspended? && s.ctxs[c].wait.Some? && s.ctxs[c].wait.value.Until?
  }

  /** Whoever sleeps though its condition holds is on a dock still to be notified. */
  ghost predicate Owed(s: State) {
    forall c <- s.ctxs :: Asleep(s, c) && s.ctxs[c].wait.value.pred in s.truth ==>
      s.ctxs[c].wait.value.pred.dock in s.dirty
  }

  ghost predicate Inv(s: State) {
    OneRuns(s) && Wakeable(s) && QueuesExact(s) && Owed(s)
  }

  /** A step that leaves waits and queues alone keeps the queues exact. */
  lemma SameWaits(s: State, t: State)
    requires QueuesExact(s) && t.queues == s.queues && t.ctxs.Keys == s.ctxs.Keys
    requires forall c <- s.ctxs :: t.ctxs[c].wait == s.ctxs[c].wait
    ensures QueuesExact(t)
  {
    forall d ensures Distinct(Queue(t, d)) { assert Queue(t, d) == Queue(s, d); }
    forall d, c ensures c in Queue(t, d) <==> c in t.ctxs && t.ctxs[c].wait.Some? && DockOf(t.ctxs[c].wait.value) == d {
      assert Queue(t, d) == Queue(s, d);
    }
  }

  lemma NoteFrontKeeps(s: State, d: nat)
    requires Inv(s)
    ensures Inv(NoteFront(s, d))
  {
    var t := NoteFront(s, d);
    SameWaits(s, t);
  }

  lemma NoteAllKeeps(s: State, d: nat)
    requires Inv(s) && Legal(s, DockNotifyAll(d))
    ensures Inv(Step(s, DockNotifyAll(d)))
  {
    var q := Queue(s, d);
    assert Distinct(q) && forall c <- q :: c in s.ctxs;
    NoteEachAt(s.ctxs, q);
    var t := Step(s, DockNotifyAll(d));
    SameWaits(s, t);
    forall c <- t.ctxs | Asleep(t, c) && t.ctxs[c].wait.value.pred in t.truth
      ensures t.ctxs[c].wait.value.pred.dock in t.dirty
    {
      assert c in q <==> DockOf(s.ctxs[c].wait.value) == d;
      assert Asleep(s, c);
    }
  }

  lemma LeaveKeeps(s: State, c: nat)
    requires Inv(s) && c in s.ctxs && s.ctxs[c].wait.Some? && !s.ctxs[c].phase.Suspended?
    ensures c in Queue(s, DockOf(s.ctxs[c].wait.value)) && Inv(Leave(s, c))
  {
    var e := DockOf(s.ctxs[c].wait.value);
    assert c in Queue(s, e);
    WithoutElements(Queue(s, e), c);
    var t := Leave(s, c);
    forall d ensures Distinct(Queue(t, d)) {
      assert Queue(t, d) == if d == e then Without(Queue(s, e), c) else Queue(s, d);
    }
    forall d, x ensures x in Queue(t, d) <==> x in t.ctxs && t.ctxs[x].wait.Some? && DockOf(t.ctxs[x].wait.value) == d {
      assert Queue(t, d) == if d == e then Without(Queue(s, e), c) else Queue(s, d);
    }
  }

  lemma ResumeKeeps(s: State, c: nat)
    requires Inv(s) && Legal(s, Resume(c))
    ensures Inv(Step(s, Resume(c)))
  {
    var x := s.ctxs[c].(phase := Awake, notes := 1);
    var t := Put(s, c, x.(interrupted := false)).(actor := Running(c));
    SameWaits(s, t);
    if x.interrupted && x.wait.Some? {
      LeaveKeeps(t, c);
      NoteFrontKeeps(Leave(t, c), DockOf(x.wait.value));
    }
  }

  lemma NotifyKeeps(s: State, d: nat)
    requires Inv(s) && Legal(s, DockNotify(d))
    ensures Inv(Step(s, DockNotify(d)))
  {
    var q := Queue(s, d);
    if q != [] {
      NoteFrontKeeps(s, d);
      var u, t := NoteFront(s, d), Step(s, DockNotify(d));
      forall e ensures Distinct(Queue(t, e)) {
        assert Queue(t, e) == if e == d then q[1..] + [q[0]] else Queue(u, e);
      }
      forall e, x
        ensures x in Queue(t, e) <==> x in t.ctxs && t.ctxs[x].wait.Some? && DockOf(t.ctxs[x].wait.value) == e
      {
        assert Queue(t, e) == if e == d then q[1..] + [q[0]] else Queue(u, e);
        assert q == [q[0]] + q[1..];
      }
    }
  }

  lemma BeginWaitKeeps(s: State, w: Wait, place: nat)
    requires Inv(s) && Legal(s, BeginWait(w, place))
    ensures Inv(Step(s, BeginWait(w, place)))
  {
    if !(w.Until? && w.pred in s.truth) {
      var d, c := DockOf(w), s.actor.c;
      var q := Queue(s, d);
      var t := Step(s, BeginWait(w, place));
      var r := Inserted(q, place, c);
      assert c !in q && q == q[..place] + q[place..];
      forall e ensures Distinct(Queue(t, e)) {
        assert Queue(t, e) == if e == d then r else Queue(s, e);
      }
      forall e, x
        ensures x in Queue(t, e) <==> x in t.ctxs && t.ctxs[x].wait.Some? && DockOf(t.ctxs[x].wait.value) == e
      {
        assert Queue(t, e) == if e == d then r else Queue(s, e);
      }
    }
  }

  /** Spawning, ending and the steps that touch one context keep the invariant. */
  lemma OtherStepsKeep(s: State, op: Op)
    requires Inv(s) && Legal(s, op)
    requires op.Spawn? || op.Finish?
    ensures Inv(Step(s, op))
  {
    var t := Step(s, op);
    forall d ensures Distinct(Queue(t, d)) { assert Queue(t, d) == Queue(s, d); }
    forall d, c ensures c in Queue(t, d) <==> c in t.ctxs && t.ctxs[c].wait.Some? && DockOf(t.ctxs[c].wait.value) == d {
      assert Queue(t, d) == Queue(s, d);
    }
  }

  lemma StepKeepsInv(s: State, op: Op)
    requires Legal(s, op) && Inv(s)
    ensures Inv(Step(s, op))
  {
    match op
    case Spawn(_) | Finish => OtherStepsKeep(s, op);
    case Resume(c) => ResumeKeeps(s, c);
    case DockNotify(d) => NotifyKeeps(s, d);
    case DockNotifyOne(d) => NoteFrontKeeps(s, d);
    case DockNotifyAll(d) => NoteAllKeeps(s, d);
    case BeginWait(w, place) => BeginWaitKeeps(s, w, place);
    case LeaveWait => LeaveKeeps(s, s.actor.c);
    case _ => SameWaits(s, Step(s, op));
  }

  // ----- whole runs -----

  /** The steps at which the running code gives way to the event loop. */
  ghost predicate Yields(s: State, op: Op) {
    match op
    case EndHandler | Finish | Sleep | LoopBack => true
    case BeginWait(w, _) => !(w.Until? && w.pred in s.truth)
    case _ => false
  }

  /** What is asked of the program: notify_all before yielding. */
  ghost predicate Disciplined(s: State, op: Op) {
    Yields(s, op) ==> s.dirty == {}
  }

  ghost predicate LegalRun(s: State, ops: seq<Op>)
    requires Inv(s)
    decreases |ops|
  {
    ops == [] || (Legal(s, ops[0]) && Disciplined(s, ops[0]) && LegalRun(Next(s, ops[0]), ops[1..]))
  }

  ghost function Next(s: State, op: Op): (t: State)
    requires Inv(s) && Legal(s, op)
    ensures Inv(t)
  {
    StepKeepsInv(s, op);
    Step(s, op)
  }

  ghost function Run(s: State, ops: seq<Op>): (t: State)
    requires Inv(s) && LegalRun(s, ops)
    ensures Inv(t)
    decreases |ops|
  {
    if ops == [] then s else Run(Next(s, ops[0]), ops[1..])
  }

  /** Nothing is owed while the event loop chooses. */
  ghost predicate Settled(s: State) {
    s.actor.EventLoop? ==> s.dirty == {}
  }

  ghost predicate Initial(s: State) {
    s.actor.EventLoop? && s.ctxs == map[] && s.queues == map[] && s.dirty == {}
  }

  lemma InitialInv(s: State)
    requires Initial(s)
    ensures Inv(s) && Settled(s)
  {
    forall d ensures Queue(s, d) == [] {}
  }

  lemma {:induction false} RunSettled(s: State, ops: seq<Op>)
    requires Inv(s) && Settled(s) && LegalRun(s, ops)
    ensures Settled(Run(s, ops))
    decreases |ops|
  {
    if ops != [] {
      RunSettled(Next(s, ops[0]), ops[1..]);
    }
  }

  /** No lost wakeups: whenever the event loop is about to choose, no context sleeps in a wait
      whose condition holds. Timers, interrupts and stray notes may have happened anywhere. */
  lemma NoLostWakeup(s: State, ops: seq<Op>, c: nat)
    requires Initial(s) && Inv(s) && LegalRun(s, ops)
    requires Run(s, ops).actor.EventLoop? && c in Run(s, ops).ctxs && Asleep(Run(s, ops), c)
    ensures Run(s, ops).ctxs[c].wait.value.pred !in Run(s, ops).truth
  {
    InitialInv(s);
    RunSettled(s, ops);
  }

  /** A context that is queued to resume stays so until the event loop resumes it. */
  lemma {:induction false} QueuedUntilResumed(s: State, ops: seq<Op>, c: nat)
    requires Inv(s) && LegalRun(s, ops)
    requires c in s.ctxs && s.ctxs[c].phase.Queued? && Resume(c) !in ops
    ensures c in Run(s, ops).ctxs && Run(s, ops).ctxs[c].phase.Queued?
    decreases |ops|
  {
    if ops != [] {
      QueuedStep(s, ops[0], c);
      QueuedUntilResumed(Next(s, ops[0]), ops[1..], c);
    }
  }

  lemma QueuedStep(s: State, op: Op, c: nat)
    requires Inv(s) && Legal(s, op) && op != Resume(c)
    requires c in s.ctxs && s.ctxs[c].phase.Queued?
    ensures c in Next(s, op).ctxs && Next(s, op).ctxs[c].phase.Queued?
  {
    hide Owed, Wakeable, NoteEach, LegalRun;
    assert s.actor != Running(c);
    match op
    case DockNotifyAll(d) =>
      var q := Queue(s, d);
      assert Distinct(q) && forall x <- q :: x in s.ctxs;
      NoteEachAt(s.ctxs, q);
    case Resume(x) => OthersStayQueued(s, x, c);
    case _ => hide QueuesExact;
  }

  lemma OthersStayQueued(s: State, x: nat, c: nat)
    requires Inv(s) && Legal(s, Resume(x)) && x != c
    requires c in s.ctxs && s.ctxs[c].phase.Queued?
    ensures c in Step(s, Resume(x)).ctxs && Step(s, Resume(x)).ctxs[c].phase.Queued?
  {
    hide Owed, Wakeable;
    var wait := s.ctxs[x].wait;
    assert wait.Some? ==> x in Queue(s, DockOf(wait.value));
  }

  /** After notify_all no context waiting on the dock is left suspended. */
  lemma NotifyAllWakes(s: State, d: nat, c: nat)
    requires Inv(s) && Legal(s, DockNotifyAll(d))
    requires c in Queue(s, d)
    ensures c in Next(s, DockNotifyAll(d)).ctxs && !Next(s, DockNotifyAll(d)).ctxs[c].phase.Suspended?
  {
    var q := Queue(s, d);
    assert Distinct(q) && forall x <- q :: x in s.ctxs;
    NoteEachAt(s.ctxs, q);
  }

  /** A context that an interrupt throws out of its wait hands a wakeup to the next in line. */
  lemma InterruptPassesOn(s: State, c: nat)
    requires Inv(s) && Legal(s, Resume(c)) && s.ctxs[c].interrupted && s.ctxs[c].wait.Some?
    ensures var d, t := DockOf(s.ctxs[c].wait.value), Next(s, Resume(c));
            c !in Queue(t, d) && t.ctxs[c].wait.None? &&
            (Queue(t, d) != [] ==> !t.ctxs[Queue(t, d)[0]].phase.Suspended?)
  {
    var d, t := DockOf(s.ctxs[c].wait.value), Next(s, Resume(c));
    assert t.ctxs[c].wait.None?;
    assert c !in Queue(t, d);
    if Queue(t, d) != [] {
      assert Queue(t, d)[0] in Queue(t, d);
    }
  }

  // ----- why notify_one does not do -----

  lemma {:induction false} RunOneMore(s: State, ops: seq<Op>, op: Op)
    requires Inv(s) && LegalRun(s, ops) && Legal(Run(s, ops), op) && Disciplined(Run(s, ops), op)
    ensures LegalRun(s, ops + [op]) && Run(s, ops + [op]) == Next(Run(s, ops), op)
    decreases |ops|
  {
    hide Inv, Legal, Disciplined;
    var more := ops + [op];
    if ops == [] {
      assert more[0] == op && more[1..] == [];
      assert LegalRun(Next(s, op), more[1..]);
    } else {
      assert more[0] == ops[0] && more[1..] == ops[1..] + [op];
      RunOneMore(Next(s, ops[0]), ops[1..], op);
    }
  }

  /** The states of disciplined runs from an initial one. */
  ghost predicate Reachable(t: State) {
    exists s: State, ops: seq<Op> :: Initial(s) && Inv(s) && LegalRun(s, ops) && Run(s, ops) == t
  }

  lemma ReachableNext(t: State, op: Op, u: State)
    requires Reachable(t) && Inv(t) && Legal(t, op) && Disciplined(t, op) && Step(t, op) == u
    ensures Reachable(u) && Inv(u)
  {
    hide Inv, Legal, Disciplined, Step;
    var s: State, ops: seq<Op> :| Initial(s) && Inv(s) && LegalRun(s, ops) && Run(s, ops) == t;
    RunOneMore(s, ops, op);
    assert Next(t, op) == u;
  }

  const GO := Pred(0, 0)
  const WAITING := Context(Suspended, 0, Some(Until(GO, false)), false)
  const READY := Context(Queued, 0, None, false)
  const AWAKE := Context(Awake, 1, None, false)

  /** Two contexts are spawned. */
  lemma TwoSpawned()
    ensures Reachable(State(EventLoop, map[1 := READY, 2 := READY], map[], {}, {}))
    ensures Inv(State(EventLoop, map[1 := READY, 2 := READY], map[], {}, {}))
  {
    var s0 := State(EventLoop, map[], map[], {}, {});
    InitialInv(s0);
    assert LegalRun(s0, []) && Run(s0, []) == s0;
    assert Reachable(s0);
    var s1 := s0.(actor := Handler);
    ReachableNext(s0, BeginHandler, s1);
    var s2 := s1.(ctxs := map[1 := READY]);
    ReachableNext(s1, Spawn(1), s2);
    var s3 := s1.(ctxs := map[1 := READY, 2 := READY]);
    ReachableNext(s2, Spawn(2), s3);
    ReachableNext(s3, EndHandler, s3.(actor := EventLoop));
  }

  /** They wait for the same condition, one after the other. */
  lemma FirstWaits()
    ensures Reachable(State(EventLoop, map[1 := WAITING, 2 := READY], map[0 := [1]], {}, {}))
    ensures Inv(State(EventLoop, map[1 := WAITING, 2 := READY], map[0 := [1]], {}, {}))
  {
    TwoSpawned();
    var s := State(EventLoop, map[1 := READY, 2 := READY], map[], {}, {});
    var t := State(Running(1), map[1 := AWAKE, 2 := READY], map[], {}, {});
    var u := State(EventLoop, map[1 := WAITING, 2 := READY], map[0 := [1]], {}, {});
    ReachableNext(s, Resume(1), t);
    assert Queue(t, 0) == [] && Inserted([], 0, 1) == [1];
    ReachableNext(t, BeginWait(Until(GO, false), 0), u);
  }

  lemma BothWait()
    ensures Reachable(State(EventLoop, map[1 := WAITING, 2 := WAITING], map[0 := [1, 2]], {}, {}))
    ensures Inv(State(EventLoop, map[1 := WAITING, 2 := WAITING], map[0 := [1, 2]], {}, {}))
  {
    FirstWaits();
    var s := State(EventLoop, map[1 := WAITING, 2 := READY], map[0 := [1]], {}, {});
    var t := State(Running(2), map[1 := WAITING, 2 := AWAKE], map[0 := [1]], {}, {});
    var u := State(EventLoop, map[1 := WAITING, 2 := WAITING], map[0 := [1, 2]], {}, {});
    ReachableNext(s, Resume(2), t);
    assert Queue(t, 0) == [1] && Inserted([1], 1, 2) == [1, 2];
    ReachableNext(t, BeginWait(Until(GO, false), 1), u);
  }

  lemma ConditionComesTrue()
    ensures Reachable(State(Handler, map[1 := WAITING, 2 := WAITING], map[0 := [1, 2]], {GO}, {0}))
    ensures Inv(State(Handler, map[1 := WAITING, 2 := WAITING], map[0 := [1, 2]], {GO}, {0}))
  {
    BothWait();
    var s := State(EventLoop, map[1 := WAITING, 2 := WAITING], map[0 := [1, 2]], {}, {});
    var t := s.(actor := Handler);
    ReachableNext(s, BeginHandler, t);
    ReachableNext(t, Mutate({GO}), t.(truth := {GO}, dirty := {0}));
  }

  /** Waking one waiter is not enough for a condition that several wait for: a disciplined run gets to
      a handler that makes the condition true and notifies one, and could end there by the code's
      own rules, with the other context asleep for good. */
  lemma NotifyOneIsNotEnough()
    ensures exists s: State, ops: seq<Op>, c ::
              && Initial(s) && Inv(s) && LegalRun(s, ops) && |ops| > 0 && ops[|ops| - 1] == DockNotifyOne(0)
              && Legal(Run(s, ops), EndHandler) && c in Run(s, ops).ctxs && Asleep(Run(s, ops), c)
              && Run(s, ops).ctxs[c].wait.value.pred in Run(s, ops).truth
  {
    ConditionComesTrue();
    var u := State(Handler, map[1 := WAITING, 2 := WAITING], map[0 := [1, 2]], {GO}, {0});
    assert Queue(u, 0) == [1, 2];
    var v := u.(ctxs := map[1 := Noted(WAITING), 2 := WAITING]);
    assert Step(u, DockNotifyOne(0)) == v;
    LastStep(u, DockNotifyOne(0), v);
    assert Legal(v, EndHandler) && 2 in v.ctxs && Asleep(v, 2) && v.ctxs[2].wait.value.pred in v.truth;
  }

  lemma LastStep(t: State, op: Op, u: State)
    requires Reachable(t) && Inv(t) && Legal(t, op) && Disciplined(t, op) && Step(t, op) == u
    ensures exists s: State, ops: seq<Op> ::
              Initial(s) && Inv(s) && LegalRun(s, ops) && |ops| > 0 && ops[|ops| - 1] == op && Run(s, ops) == u
  {
    hide Inv, Legal, Disciplined, Step;
    var s: State, ops: seq<Op> :| Initial(s) && Inv(s) && LegalRun(s, ops) && Run(s, ops) == t;
    RunOneMore(s, ops, op);
    assert Next(t, op) == u;
    assert (ops + [op])[|ops + [op]| - 1] == op;
  }
}
