/** The dock's objects refine the scheduler: each operation on a Dock and its contexts is one step of
    the machine in DockSchedule. */
module DockRefinement {
  import opened Basics
  import opened CtxList
  import D = DockSchedule

  function Ids(q: seq<Ctx>): (ids: seq<nat>)
    ensures |ids| == |q| && forall i :: 0 <= i < |q| ==> ids[i] == q[i].id
  {
    seq(|q|, i requires 0 <= i < |q| => q[i].id)
  }

  /** A context object and its record; current is the object that runs, if any. */
  ghost predicate Agrees(c: Ctx, s: D.State, current: Ctx?)
    reads c`notes, c`woken
  {
    && c.id in s.ctxs
    && c.notes == s.ctxs[c.id].notes
    && c.woken == s.ctxs[c.id].phase.Queued?
    && (c == current <==> s.ctxs[c.id].phase.Awake?)
  }

  ghost predicate AllAgree(q: seq<Ctx>, s: D.State, current: Ctx?)
    reads q`notes, q`woken
  {
    forall c <- q :: Agrees(c, s, current)
  }

  /** The dock object implements dock d of the machine. */
  ghost predicate Coupled(dock: Dock, s: D.State, d: nat, current: Ctx?)
    reads dock.q, dock.q.q`prev, dock.q.q`next, dock.q.q`notes, dock.q.q`woken
  {
    && dock.q.Valid() && Ids(dock.q.q) == D.Queue(s, d) && Distinct(Ids(dock.q.q))
    && AllAgree(dock.q.q, s, current)
  }

  lemma SameId(q: seq<Ctx>, a: Ctx, b: Ctx)
    requires Distinct(Ids(q)) && a in q && b in q && a.id == b.id
    ensures a == b
  {
    var i :| 0 <= i < |q| && q[i] == a;
    var j :| 0 <= j < |q| && q[j] == b;
    assert Ids(q)[i] == Ids(q)[j];
  }

  /** notify() is the step DockNotify. */
  method Notify(dock: Dock, current: Ctx?, ghost s: D.State, ghost d: nat)
    requires D.Inv(s) && D.Legal(s, D.DockNotify(d)) && Coupled(dock, s, d, current)
    modifies dock.q, dock.q.q`prev, dock.q.q`next, dock.q.q`notes, dock.q.q`woken
    ensures Coupled(dock, D.Step(s, D.DockNotify(d)), d, current)
  {
    ghost var q := dock.q.q;
    ghost var t := D.Step(s, D.DockNotify(d));
    dock.Notify(current);
    if q != [] {
      assert Ids(dock.q.q) == D.Queue(t, d);
      forall c | c in q ensures Agrees(c, t, current) {
        if c.id == q[0].id {
          SameId(q, c, q[0]);
        }
      }
    }
  }

  /** notify_one() is the step DockNotifyOne. */
  method NotifyOne(dock: Dock, current: Ctx?, ghost s: D.State, ghost d: nat)
    requires D.Inv(s) && D.Legal(s, D.DockNotifyOne(d)) && Coupled(dock, s, d, current)
    modifies dock.q.q`notes, dock.q.q`woken
    ensures Coupled(dock, D.Step(s, D.DockNotifyOne(d)), d, current)
  {
    ghost var q := dock.q.q;
    ghost var t := D.Step(s, D.DockNotifyOne(d));
    dock.NotifyOne(current);
    forall c | c in q ensures Agrees(c, t, current) {
      if c.id == q[0].id {
        SameId(q, c, q[0]);
      }
    }
  }

  lemma InIds(q: seq<Ctx>, c: Ctx)
    requires c in q
    ensures c.id in Ids(q)
  {
    var i :| 0 <= i < |q| && q[i] == c;
    assert Ids(q)[i] == c.id;
  }

  /** notify_all() is the step DockNotifyAll. */
  method NotifyAll(dock: Dock, current: Ctx?, ghost s: D.State, ghost d: nat)
    requires D.Inv(s) && D.Legal(s, D.DockNotifyAll(d)) && Coupled(dock, s, d, current)
    modifies dock.q.q`notes, dock.q.q`woken
    ensures Coupled(dock, D.Step(s, D.DockNotifyAll(d)), d, current)
  {
    ghost var q, ids := dock.q.q, Ids(dock.q.q);
    ghost var t := D.Step(s, D.DockNotifyAll(d));
    assert forall x <- ids :: x in s.ctxs;
    D.NoteEachAt(s.ctxs, ids);
    dock.NotifyAll(current);
    forall c | c in q ensures Agrees(c, t, current) {
      InIds(q, c);
      assert Noted(c, current);
    }
  }

  /** The place a context takes in the queue. */
  function Place(order: Order, q: seq<Ctx>, id: nat): (k: nat)
    ensures k <= |q|
  {
    match order
    case Lifo => 0
    case Sort => SortedPlace(q, id)
    case Fifo => |q|
  }

  /** What the step BeginWait does to dock d and to the records. */
  lemma WaitStep(s: D.State, w: D.Wait, k: nat, id: nat)
    requires D.Inv(s) && s.actor == D.Running(id) && D.Idle(s) && !(w.Until? && w.pred in s.truth)
    requires k <= |D.Queue(s, D.DockOf(w))|
    ensures D.Legal(s, D.BeginWait(w, k)) && id !in D.Queue(s, D.DockOf(w))
    ensures var t := D.Step(s, D.BeginWait(w, k)); var q := D.Queue(s, D.DockOf(w));
            && D.Queue(t, D.DockOf(w)) == Inserted(q, k, id)
            && t.ctxs == s.ctxs[id := D.Self(s).(wait := Some(w), phase := D.Suspended, notes := 0)]
  {
  }

  lemma IdsInserted(q: seq<Ctx>, k: nat, c: Ctx)
    requires k <= |q| && Distinct(Ids(q)) && c.id !in Ids(q)
    ensures Ids(Inserted(q, k, c)) == Inserted(Ids(q), k, c.id) && Distinct(Ids(Inserted(q, k, c)))
    ensures forall x :: x in Inserted(q, k, c) ==> x == c || x in q
  {
    InsertedDistinct(Ids(q), k, c.id);
    assert Ids(Inserted(q, k, c)) == Inserted(Ids(q), k, c.id);
  }

  /** Joining a dock puts the context at its place. */
  method JoinAtPlace(dock: Dock, c: Ctx, order: Order)
    requires dock.q.Valid() && c !in dock.q.q && c.Isolated()
    modifies dock.q, c`prev, c`next, dock.q.q`prev, dock.q.q`next
    ensures dock.q.Valid() && dock.q.q == Inserted(old(dock.q.q), Place(order, old(dock.q.q), c.id), c)
  {
    dock.Join(c, order);
  }

  /** What the context that is about to wait knows of the queue and of the step. */
  lemma BeforeWait(dock: Dock, c: Ctx, k: nat, s: D.State, w: D.Wait)
    requires D.Inv(s) && Coupled(dock, s, D.DockOf(w), c) && c !in dock.q.q && k <= |dock.q.q|
    requires s.actor == D.Running(c.id) && D.Idle(s) && !(w.Until? && w.pred in s.truth)
    ensures dock.q.Valid() && D.Legal(s, D.BeginWait(w, k)) && c.id in s.ctxs
    ensures var t := D.Step(s, D.BeginWait(w, k)); var r := Inserted(dock.q.q, k, c);
            && Ids(r) == D.Queue(t, D.DockOf(w)) && Distinct(Ids(r)) && (forall x <- r :: x == c || x in dock.q.q)
            && t.ctxs == s.ctxs[c.id := s.ctxs[c.id].(wait := Some(w), phase := D.Suspended, notes := 0)]
    ensures forall x <- dock.q.q :: Agrees(x, s, c) && x.id != c.id
  {
    var q := dock.q.q;
    hide D.Step;
    WaitStep(s, w, k, c.id);
    IdsInserted(q, k, c);
    forall x | x in q ensures Agrees(x, s, c) && x.id != c.id { InIds(q, x); }
  }

  /** Queueing and falling asleep is the step BeginWait, at the place of the order. */
  method Wait(dock: Dock, c: Ctx, order: Order, ghost s: D.State, ghost w: D.Wait)
    requires D.Inv(s) && Coupled(dock, s, D.DockOf(w), c) && Agrees(c, s, c) && c !in dock.q.q && c.Isolated()
    requires s.actor == D.Running(c.id) && D.Idle(s) && !(w.Until? && w.pred in s.truth)
    modifies dock.q, c, dock.q.q`prev, dock.q.q`next
    ensures D.Legal(s, D.BeginWait(w, Place(order, old(dock.q.q), c.id)))
    ensures Coupled(dock, D.Step(s, D.BeginWait(w, Place(order, old(dock.q.q), c.id))), D.DockOf(w), null)
  {
    hide D.Step, D.Inv, Ids, Distinct, Place, Inserted, D.Legal, D.Idle, D.Queue, List.Valid, Linked, Agrees, AllAgree;
    ghost var q := dock.q.q;
    ghost var k := Place(order, q, c.id);
    BeforeWait(dock, c, k, s, w);
    JoinAtPlace(dock, c, order);
    c.Suspend();
    Asleep(dock.q.q, q, c, s, D.Step(s, D.BeginWait(w, k)), w);
  }

  /** The others are as they were, and c sleeps. */
  lemma Asleep(r: seq<Ctx>, q: seq<Ctx>, c: Ctx, s: D.State, t: D.State, w: D.Wait)
    requires forall x <- r :: x == c || x in q
    requires forall x <- q :: Agrees(x, s, c) && x.id != c.id
    requires c.notes == 0 && !c.woken && c.id in s.ctxs
    requires t.ctxs == s.ctxs[c.id := s.ctxs[c.id].(wait := Some(w), phase := D.Suspended, notes := 0)]
    ensures AllAgree(r, t, null)
  {
    forall x | x in r ensures Agrees(x, t, null) {
      if x != c {
        assert x in q && Agrees(x, s, c);
      }
    }
  }

  lemma IdsWithout(q: seq<Ctx>, c: Ctx)
    requires Distinct(q) && Distinct(Ids(q)) && c in q
    ensures c.id in Ids(q) && Ids(Without(q, c)) == Without(Ids(q), c.id) && Distinct(Ids(Without(q, c)))
    ensures forall x <- Without(q, c) :: x in q && x.id != c.id
  {
    InIds(q, c);
    WithoutElements(q, c);
    WithoutElements(Ids(q), c.id);
    var i, j := IndexOf(q, c), IndexOf(Ids(q), c.id);
    assert Ids(q)[i] == c.id == Ids(q)[j];
    assert Ids(Without(q, c)) == Without(Ids(q), c.id);
    forall x | x in Without(q, c) ensures x in q && x.id != c.id {
      if x.id == c.id { SameId(q, x, c); }
    }
  }

  /** What the step LeaveWait does. */
  lemma BeforeLeave(dock: Dock, c: Ctx, s: D.State, d: nat)
    requires D.Inv(s) && Coupled(dock, s, d, c) && c in dock.q.q
    requires s.actor == D.Running(c.id) && D.Legal(s, D.LeaveWait) && D.DockOf(D.Self(s).wait.value) == d
    ensures dock.q.Valid()
    ensures var t := D.Step(s, D.LeaveWait); var r := Without(dock.q.q, c);
            && Ids(r) == D.Queue(t, d) && Distinct(Ids(r)) && (forall x <- r :: x in dock.q.q && x.id != c.id)
            && t.ctxs.Keys == s.ctxs.Keys && (forall x <- s.ctxs :: x != c.id ==> t.ctxs[x] == s.ctxs[x])
    ensures forall x <- dock.q.q :: Agrees(x, s, c)
  {
    IdsWithout(dock.q.q, c);
    assert c.id in D.Queue(s, d);
  }

  /** Leaving the queue, awake, is the step LeaveWait. */
  method LeaveWait(dock: Dock, c: Ctx, ghost s: D.State, ghost d: nat)
    requires D.Inv(s) && Coupled(dock, s, d, c) && c in dock.q.q
    requires s.actor == D.Running(c.id) && D.Legal(s, D.LeaveWait) && D.DockOf(D.Self(s).wait.value) == d
    modifies dock.q, dock.q.q`prev, dock.q.q`next, dock.q.q`notes, dock.q.q`woken
    ensures Coupled(dock, D.Step(s, D.LeaveWait), d, c) && c.Isolated()
  {
    hide D.Step, D.Inv, D.Legal, Ids, Distinct, Without, D.Queue, List.Valid, Linked;
    ghost var q, t := dock.q.q, D.Step(s, D.LeaveWait);
    BeforeLeave(dock, c, s, d);
    dock.Leave(c, false);
    forall x | x in dock.q.q ensures Agrees(x, t, c) {
      assert x in q && Agrees(x, s, c);
    }
  }

  lemma ThrowStep(s: D.State, id: nat, d: nat)
    requires D.Inv(s) && D.Legal(s, D.Resume(id)) && id in D.Queue(s, d)
    requires s.ctxs[id].interrupted && s.ctxs[id].wait.Some? && D.DockOf(s.ctxs[id].wait.value) == d
    ensures var t := D.Step(s, D.Resume(id)); var r := Without(D.Queue(s, d), id);
            && D.Queue(t, d) == r && t.ctxs.Keys == s.ctxs.Keys && (forall x <- r :: x in s.ctxs && x != id)
            && (forall x <- r :: t.ctxs[x] == if x == r[0] then D.Noted(s.ctxs[x]) else s.ctxs[x])
  {
    WithoutElements(D.Queue(s, d), id);
  }

  /** What resuming an interrupted context does. */
  lemma BeforeThrow(dock: Dock, c: Ctx, s: D.State, d: nat)
    requires D.Inv(s) && Coupled(dock, s, d, null) && c in dock.q.q && D.Legal(s, D.Resume(c.id))
    requires s.ctxs[c.id].interrupted && s.ctxs[c.id].wait.Some? && D.DockOf(s.ctxs[c.id].wait.value) == d
    ensures dock.q.Valid()
    ensures var t := D.Step(s, D.Resume(c.id)); var r := Without(dock.q.q, c);
            && Ids(r) == D.Queue(t, d) && Distinct(Ids(r))
            && (forall x <- r :: x in dock.q.q && x.id != c.id && x.id in s.ctxs)
            && t.ctxs.Keys == s.ctxs.Keys
            && (forall x <- r :: t.ctxs[x.id] == if x == r[0] then D.Noted(s.ctxs[x.id]) else s.ctxs[x.id])
    ensures forall x <- dock.q.q :: Agrees(x, s, null)
  {
    hide D.Step, D.Inv, D.Legal;
    var q, r := dock.q.q, Without(dock.q.q, c);
    IdsWithout(q, c);
    ThrowStep(s, c.id, d);
    forall x | x in r ensures x.id in Ids(r) { InIds(r, x); }
    forall x | x in r && x.id == r[0].id ensures x == r[0] { SameId(r, x, r[0]); }
  }

  /** A context that an interrupt throws out of the dock: the step Resume. */
  method ThrowOut(dock: Dock, c: Ctx, ghost s: D.State, ghost d: nat)
    requires D.Inv(s) && Coupled(dock, s, d, null) && c in dock.q.q && D.Legal(s, D.Resume(c.id))
    requires s.ctxs[c.id].interrupted && s.ctxs[c.id].wait.Some? && D.DockOf(s.ctxs[c.id].wait.value) == d
    modifies dock.q, dock.q.q`prev, dock.q.q`next, dock.q.q`notes, dock.q.q`woken
    ensures Coupled(dock, D.Step(s, D.Resume(c.id)), d, c) && c.Isolated()
  {
    hide D.Step, D.Inv, D.Legal, Ids, Distinct, Without, D.Queue, List.Valid, Linked;
    ghost var q, t := dock.q.q, D.Step(s, D.Resume(c.id));
    BeforeThrow(dock, c, s, d);
    c.Enter();
    dock.Leave(c, true);
    forall x | x in dock.q.q ensures Agrees(x, t, c) {
      assert x in q && x.id != c.id;
    }
  }
}
