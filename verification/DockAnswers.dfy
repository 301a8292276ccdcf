/** What the steps of DockSchedule mean for one context: what wakes it, with what answer it comes out
    of a wait, and where it stands in line (ircd/ctx.cc:294-361, 618-632, 2802-2990). */
module DockAnswers {
  import opened Basics
  import opened DockSchedule

  ghost predicate InFront(q: seq<nat>, c: nat) {
    q != [] && q[0] == c
  }

  /** A context waits on dock d. */
  ghost predicate WaitsOn(s: State, c: nat, d: nat) {
    c in s.ctxs && s.ctxs[c].wait.Some? && DockOf(s.ctxs[c].wait.value) == d
  }

  /** The context that an interrupt throws out of its wait. */
  ghost predicate ThrownOut(s: State, op: Op, c: nat) {
    op == Resume(c) && c in s.ctxs && s.ctxs[c].interrupted && s.ctxs[c].wait.Some?
  }

  /** What wakes a suspended context: its timer, a note of its own or as one of a dock, an interrupt
      unless one is pending already, and the end of the wait of an interrupted context before it. */
  ghost predicate Wakes(s: State, op: Op, c: nat) {
    match op
    case TimerFires(x) => x == c
    case Notify(x) => x == c
    case Interrupt(x) => x == c && c in s.ctxs && !s.ctxs[c].interrupted
    case DockNotify(d) => InFront(Queue(s, d), c)
    case DockNotifyOne(d) => InFront(Queue(s, d), c)
    case DockNotifyAll(d) => c in Queue(s, d)
    case Resume(x) =>
      && ThrownOut(s, op, x)
      && var q := Queue(s, DockOf(s.ctxs[x].wait.value)); x in q && InFront(Without(q, x), c)
    case _ => false
  }

  ghost predicate SuspendedIn(s: State, c: nat) {
    c in s.ctxs && s.ctxs[c].phase.Suspended?
  }

  lemma ResumeWakes(s: State, op: Op, c: nat)
    requires Inv(s) && Legal(s, op) && SuspendedIn(s, c) && op.Resume?
    ensures var t := Next(s, op);
            && c in t.ctxs && t.ctxs[c].wait == s.ctxs[c].wait
            && (t.ctxs[c].phase == if Wakes(s, op, c) then Queued else Suspended)
  {
    hide Owed;
    assert s.ctxs[op.c].wait.Some? ==> op.c in Queue(s, DockOf(s.ctxs[op.c].wait.value));
  }

  /** Exactly these steps wake a suspended context; no other one resumes it, ends its wait or forgets it. */
  lemma WokenExactly(s: State, op: Op, c: nat)
    requires Inv(s) && Legal(s, op) && SuspendedIn(s, c)
    ensures var t := Next(s, op);
            && c in t.ctxs && t.ctxs[c].wait == s.ctxs[c].wait
            && (t.ctxs[c].phase == if Wakes(s, op, c) then Queued else Suspended)
  {
    hide Owed, NoteEach;
    assert s.actor != Running(c) && s.ctxs[c].notes == 0;
    match op
    case DockNotifyAll(d) =>
      assert Distinct(Queue(s, d)) && forall x <- Queue(s, d) :: x in s.ctxs;
      NoteEachAt(s.ctxs, Queue(s, d));
    case Resume(_) => ResumeWakes(s, op, c);
    case _ =>
  }

  lemma ResumeOut(s: State, op: Op, c: nat)
    requires Inv(s) && Legal(s, op) && c in s.ctxs && s.ctxs[c].wait.Some? && op.Resume?
    ensures c in Next(s, op).ctxs
    ensures Next(s, op).ctxs[c].wait == if ThrownOut(s, op, c) then None else s.ctxs[c].wait
  {
    hide Owed, Wakeable, OneRuns;
    assert s.ctxs[op.c].wait.Some? ==> op.c in Queue(s, DockOf(s.ctxs[op.c].wait.value));
  }

  /** A context comes out of a wait when it leaves it itself, or when it is resumed with an interrupt
      pending, and never otherwise. It leaves a wait without a timer itself only if its condition holds. */
  lemma OutExactly(s: State, op: Op, c: nat)
    requires Inv(s) && Legal(s, op) && c in s.ctxs && s.ctxs[c].wait.Some?
    ensures c in Next(s, op).ctxs
    ensures Next(s, op).ctxs[c].wait == s.ctxs[c].wait || Next(s, op).ctxs[c].wait.None?
    ensures Next(s, op).ctxs[c].wait.None? <==> ThrownOut(s, op, c) || (op.LeaveWait? && s.actor == Running(c))
    ensures Next(s, op).ctxs[c].wait.None? && s.ctxs[c].wait.value.Until? && !s.ctxs[c].wait.value.timed ==>
              s.ctxs[c].wait.value.pred in s.truth || (op == Resume(c) && s.ctxs[c].interrupted)
  {
    hide Owed, NoteEach, Wakeable;
    match op
    case DockNotifyAll(d) =>
      assert Distinct(Queue(s, d)) && forall x <- Queue(s, d) :: x in s.ctxs;
      NoteEachAt(s.ctxs, Queue(s, d));
    case Resume(_) => ResumeOut(s, op, c);
    case _ =>
  }

  /** wait() with a condition that holds does not sleep; any other wait queues the context at its place
      and suspends it. */
  lemma BeginsExactly(s: State, w: Wait, place: nat)
    requires Inv(s) && Legal(s, BeginWait(w, place))
    ensures var t, c := Next(s, BeginWait(w, place)), s.actor.c;
            if w.Until? && w.pred in s.truth then t == s
            else
              && SuspendedIn(t, c) && t.ctxs[c].wait == Some(w) && t.actor.EventLoop?
              && Queue(t, DockOf(w)) == Inserted(Queue(s, DockOf(w)), place, c)
  {
  }

  lemma ResumeLine(s: State, op: Op, d: nat)
    requires Inv(s) && Legal(s, op) && op.Resume?
    ensures var q := Queue(s, d);
            Queue(Next(s, op), d) ==
              if ThrownOut(s, op, op.c) && WaitsOn(s, op.c, d) && op.c in q then Without(q, op.c) else q
  {
    hide Owed, Wakeable, OneRuns;
    assert s.ctxs[op.c].wait.Some? ==> op.c in Queue(s, DockOf(s.ctxs[op.c].wait.value));
  }

  /** The order of waiters changes by joining, leaving and notify() only. */
  lemma LineAfter(s: State, op: Op, d: nat)
    requires Inv(s) && Legal(s, op)
    ensures var q, r := Queue(s, d), Queue(Next(s, op), d);
            match op
            case DockNotify(e) => r == if e == d && q != [] then q[1..] + [q[0]] else q
            case BeginWait(w, place) =>
              r == if DockOf(w) == d && !(w.Until? && w.pred in s.truth) then Inserted(q, place, s.actor.c) else q
            case LeaveWait => r == if WaitsOn(s, s.actor.c, d) && s.actor.c in q then Without(q, s.actor.c) else q
            case Resume(c) =>
              r == if ThrownOut(s, op, c) && WaitsOn(s, c, d) && c in q then Without(q, c) else q
            case _ => r == q
  {
    hide Owed, NoteEach, Wakeable;
    match op
    case Resume(_) => ResumeLine(s, op, d);
    case LeaveWait =>
      assert s.actor.c in Queue(s, DockOf(s.ctxs[s.actor.c].wait.value));
    case _ =>
  }

  /** An interrupt is pending from interrupt() until the context is resumed, and never else. */
  lemma PendingExactly(s: State, op: Op, c: nat)
    requires Inv(s) && Legal(s, op) && c in s.ctxs && c in Next(s, op).ctxs
    ensures Next(s, op).ctxs[c].interrupted <==> op == Interrupt(c) || (s.ctxs[c].interrupted && op != Resume(c))
  {
    hide Owed, NoteEach, Wakeable, OneRuns;
    match op
    case DockNotifyAll(d) =>
      assert Distinct(Queue(s, d)) && forall x <- Queue(s, d) :: x in s.ctxs;
      NoteEachAt(s.ctxs, Queue(s, d));
    case Resume(x) =>
      assert s.ctxs[x].wait.Some? ==> x in Queue(s, DockOf(s.ctxs[x].wait.value));
    case _ =>
  }

  /** Who runs next, who is there, and in which phase a new and a yielding context is. */
  lemma WhoRuns(s: State, op: Op)
    requires Inv(s) && Legal(s, op)
    ensures Next(s, op).actor ==
            match op
            case Resume(c) => Running(c)
            case BeginHandler => Handler
            case _ => if Yields(s, op) then EventLoop else s.actor
    ensures Next(s, op).ctxs.Keys ==
            match op
            case Spawn(c) => s.ctxs.Keys + {c}
            case Finish => s.ctxs.Keys - {s.actor.c}
            case _ => s.ctxs.Keys
    ensures op.Spawn? ==> Next(s, op).ctxs[op.c].phase.Queued? && Next(s, op).ctxs[op.c].wait.None?
    ensures op.Sleep? || op.LoopBack? ==> SuspendedIn(Next(s, op), s.actor.c)
  {
    hide Owed, NoteEach, Wakeable;
    match op
    case DockNotifyAll(d) =>
      assert Distinct(Queue(s, d)) && forall x <- Queue(s, d) :: x in s.ctxs;
      NoteEachAt(s.ctxs, Queue(s, d));
    case Resume(c) => ResumeRuns(s, c);
    case _ =>
  }

  lemma ResumeRuns(s: State, c: nat)
    requires Inv(s) && Legal(s, Resume(c))
    ensures Next(s, Resume(c)).actor == Running(c) && Next(s, Resume(c)).ctxs.Keys == s.ctxs.Keys
  {
    hide Owed, Wakeable, OneRuns;
    assert s.ctxs[c].wait.Some? ==> c in Queue(s, DockOf(s.ctxs[c].wait.value));
  }

  // ----- over runs -----

  lemma RunPrefix(s: State, ops: seq<Op>, i: nat)
    requires Inv(s) && LegalRun(s, ops) && 0 < i <= |ops|
    requires LegalRun(Next(s, ops[0]), ops[1..][..i - 1])
    ensures LegalRun(s, ops[..i]) && Run(s, ops[..i]) == Run(Next(s, ops[0]), ops[1..][..i - 1])
  {
    assert ops[..i][0] == ops[0] && ops[..i][1..] == ops[1..][..i - 1];
  }

  /** No spurious wakeups: over every run, a suspended context stays so until a step that wakes it. */
  lemma {:induction false} WokenHasCause(s: State, ops: seq<Op>, c: nat) returns (i: nat)
    requires Inv(s) && LegalRun(s, ops) && SuspendedIn(s, c) && !SuspendedIn(Run(s, ops), c)
    ensures i < |ops| && LegalRun(s, ops[..i])
    ensures SuspendedIn(Run(s, ops[..i]), c) && Wakes(Run(s, ops[..i]), ops[i], c)
    decreases |ops|
  {
    hide Inv, Legal, Disciplined, Step, Wakes;
    i := 0;
    if Wakes(s, ops[0], c) {
      assert ops[..0] == [];
    } else {
      WokenExactly(s, ops[0], c);
      var j := WokenHasCause(Next(s, ops[0]), ops[1..], c);
      i := j + 1;
      RunPrefix(s, ops, i);
    }
  }

  /** Over every run, a context that is out of a wait without a timer was thrown out by an interrupt,
      or left when its condition held. */
  lemma {:induction false} OutHasCause(s: State, ops: seq<Op>, c: nat) returns (i: nat)
    requires Inv(s) && LegalRun(s, ops)
    requires c in s.ctxs && s.ctxs[c].wait.Some? && s.ctxs[c].wait.value.Until? && !s.ctxs[c].wait.value.timed
    requires c !in Run(s, ops).ctxs || Run(s, ops).ctxs[c].wait != s.ctxs[c].wait
    ensures i < |ops| && LegalRun(s, ops[..i])
    ensures var u := Run(s, ops[..i]);
            && c in u.ctxs && u.ctxs[c].wait == s.ctxs[c].wait
            && (ThrownOut(u, ops[i], c) ||
                (ops[i].LeaveWait? && u.actor == Running(c) && s.ctxs[c].wait.value.pred in u.truth))
    decreases |ops|
  {
    hide Inv, Disciplined, Step;
    OutExactly(s, ops[0], c);
    var t := Next(s, ops[0]);
    i := 0;
    if t.ctxs[c].wait.None? {
      assert ops[..0] == [];
    } else {
      var j := OutHasCause(t, ops[1..], c);
      i := j + 1;
      RunPrefix(s, ops, i);
    }
  }
}
