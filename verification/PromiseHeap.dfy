/** All promises and futures of a program at once: every public operation keeps both lists
    of every event well linked and does to the heap exactly what PromiseSpec.Step says. */
module PromiseHeap {
  import opened Basics
  import opened PromiseSpec
  import opened PromiseLinks
  import opened PromiseMeaning

  /** The outcome stored in a future. */
  ghost function Stored(f: Future): Outcome
    reads f
  {
    if f.eptr.Some? then Failure(f.eptr.value) else Value(f.val)
  }

  ghost predicate EventLinked(c: Cell<Promise, Future>)
    reads if c.Open? then c.ps else [], if c.Open? then c.fs else []
  {
    c.Open? ==> Linked(c.ps, c.fs)
  }

  ghost predicate PromiseAgrees(s: State<Promise, Future>, p: Promise)
    reads p
  {
    p !in s.homeP ==> p.st == null
  }

  ghost predicate FutureAgrees(s: State<Promise, Future>, f: Future)
    requires Inv(s)
    reads f
  {
    if f !in s.homeF then !f.u.Ptr?
    else if Pending(s, f) then f.eptr == None && f.notified == 0
    else f.u == Ready && f.notified == 1 && Observed(s, f) == Some(Stored(f))
  }

  /** The objects in P and F implement the machine state s. */
  ghost predicate Coupled(s: State<Promise, Future>, P: set<Promise>, F: set<Future>)
    reads P, F
  {
    && Inv(s) && s.homeP.Keys <= P && s.homeF.Keys <= F
    && (forall k: nat | k < |s.cells| && CellInv(s, k) :: EventLinked(s.cells[k]))
    && (forall p <- P :: PromiseAgrees(s, p))
    && (forall f <- F :: FutureAgrees(s, f))
  }

  twostate predicate SamePromise(p: Promise)
    reads p
  {
    p.st == old(p.st) && p.next == old(p.next)
  }

  twostate predicate SameFuture(f: Future)
    reads f
  {
    && f.next == old(f.next) && f.u == old(f.u)
    && f.val == old(f.val) && f.eptr == old(f.eptr) && f.notified == old(f.notified)
  }

  twostate lemma SameEvent(c: Cell<Promise, Future>)
    requires c.Open? && old(Linked(c.ps, c.fs))
    requires forall p <- c.ps :: SamePromise(p)
    requires forall f <- c.fs :: SameFuture(f)
    ensures Linked(c.ps, c.fs)
  {
    assert forall i :: 0 <= i < |c.ps| ==> c.ps[i] in c.ps && SamePromise(c.ps[i]);
    assert forall i :: 0 <= i < |c.fs| ==> c.fs[i] in c.fs && SameFuture(c.fs[i]);
  }

  /** A machine state and the live objects that implement it. */
  datatype Snapshot = Snapshot(s: State<Promise, Future>, P: set<Promise>, F: set<Future>)

  /** After a step from a.s to b.s at event k it is enough to repair event k: the others do not notice. */
  twostate lemma Recouple(a: Snapshot, new b: Snapshot, new k: nat)
    requires old(Coupled(a.s, a.P, a.F))
    requires forall p <- a.P :: p in a.s.homeP && a.s.homeP[p] != k ==> SamePromise(p)
    requires forall f <- a.F :: f in a.s.homeF && a.s.homeF[f] != k ==> SameFuture(f)
    requires Inv(b.s) && SameBut(a.s, b.s, k) && b.s.homeP.Keys <= b.P && b.s.homeF.Keys <= b.F
    requires k < |b.s.cells| ==> EventLinked(b.s.cells[k])
    requires forall p <- b.P :: p in b.s.homeP || p.st == null
    requires forall f <- b.F :: f !in b.s.homeF || b.s.homeF[f] == k ==> FutureAgrees(b.s, f)
    ensures Coupled(b.s, b.P, b.F)
  {
    var Snapshot(s, P, F) := a;
    var Snapshot(t, P', F') := b;
    forall j: nat | j < |t.cells| && j != k && t.cells[j].Open? ensures EventLinked(t.cells[j]) {
      assert CellInv(s, j) && old(EventLinked(s.cells[j]));
      SameEvent(s.cells[j]);
    }
    forall f | f in F' && f in t.homeF && t.homeF[f] != k ensures FutureAgrees(t, f) {
      assert f in F && SameFuture(f) && old(FutureAgrees(s, f));
      assert ValidFuture(s, f);
    }
  }

  class World {
    ghost var state: State<Promise, Future>
    ghost var promises: set<Promise>   // objects whose lifetime has not ended
    ghost var futures: set<Future>

    ghost predicate Valid()
      reads this, promises, futures
    {
      Coupled(state, promises, futures)
    }

    /** What an operation on event k needs to know of the rest of the heap. */
    ghost predicate Around(k: nat, ps: seq<Promise>, fs: seq<Future>)
      reads this, promises, futures, ps, fs
    {
      && Inv(state) && state.homeP.Keys <= promises && state.homeF.Keys <= futures
      && (forall p <- ps :: p in state.homeP && state.homeP[p] == k)
      && (forall f <- fs :: f in state.homeF && state.homeF[f] == k && f.eptr == None && f.notified == 0)
      && (forall p <- promises :: p in state.homeP || p.st == null)
      && (forall p <- promises :: p in state.homeP && state.homeP[p] == k ==> p in ps)
      && (forall f <- futures :: f in state.homeF || !f.u.Ptr?)
      && (forall f <- futures :: f in state.homeF && state.homeF[f] == k ==> f in fs)
    }

    /** The event of a valid promise, and its two lists. */
    lemma Enter(p: Promise) returns (k: nat, ps: seq<Promise>, fs: seq<Future>)
      requires Valid() && p in promises && p.st != null
      ensures p in state.homeP && k == state.homeP[p] < |state.cells| && state.cells[k] == Open(ps, fs)
      ensures Linked(ps, fs) && Group(ps, fs) && fs != [] && p in ps && Around(k, ps, fs)
    {
      assert PromiseAgrees(state, p) && ValidPromise(state, p) && CellInv(state, state.homeP[p]);
      k := state.homeP[p];
      assert EventLinked(state.cells[k]);
      ps, fs := state.cells[k].ps, state.cells[k].fs;
    }

    constructor ()
      ensures Valid() && state == State([], map[], map[]) && promises == {} && futures == {}
    {
      state, promises, futures := State([], map[], map[]), {}, {};
    }

    /** What the objects show is what they mean: a promise is valid exactly when futures wait on it, a
        future is pending exactly when it waits, and a READY one holds what it has seen. */
    lemma Shows(p: Promise, f: Future)
      requires Valid() && p in promises && f in futures
      ensures Inv(state)
      ensures var v := ViewOf(state);
              && (p.st != null <==> Speaks(v, p))
              && (f.u.Ptr? <==> f in v.waits)
              && (f in v.seen <==> f.u == Ready && f in state.homeF)
              && (f in v.seen ==> v.seen[f] == Stored(f) && f.notified == 1)
    {
      EventView(state, p);
      ViewAt(state);
      assert PromiseAgrees(state, p) && FutureAgrees(state, f);
      if p in state.homeP { assert EventLinked(state.cells[state.homeP[p]]); }
      if f in ViewOf(state).waits {
        FutureEvent(state, f);
        assert EventLinked(state.cells[state.homeF[f]]);
      }
    }

    /** promise() */
    method NewPromise() returns (p: Promise)
      requires Valid()
      modifies this
      ensures fresh(p) && p.st == null && p.next == null
      ensures Valid() && state == old(state) && promises == old(promises) + {p} && futures == old(futures)
    {
      p := new Promise();
      promises := promises + {p};
    }

    /** A promise without a state stands outside all events. */
    lemma Alone(p: Promise)
      requires Valid() && p in promises && p.st == null
      ensures p !in state.homeP && Group([p], []) && Around(|state.cells|, [], [])
    {
      assert p in state.homeP ==>
        ValidPromise(state, p) && CellInv(state, state.homeP[p]) && EventLinked(state.cells[state.homeP[p]]);
      forall f | f in state.homeF ensures state.homeF[f] < |state.cells| { assert ValidFuture(state, f); }
      forall q | q in state.homeP ensures state.homeP[q] < |state.cells| { assert ValidPromise(state, q); }
    }

    /** The event of a pending future, and its two lists. */
    lemma EnterFuture(f: Future) returns (k: nat, ps: seq<Promise>, fs: seq<Future>)
      requires Valid() && f in futures && f.u.Ptr?
      ensures f in state.homeF && k == state.homeF[f] < |state.cells| && state.cells[k] == Open(ps, fs)
      ensures Linked(ps, fs) && Circle(ps, fs) && ps != [] && f in fs && Around(k, ps, fs)
    {
      assert FutureAgrees(state, f) && ValidFuture(state, f) && CellInv(state, state.homeF[f]);
      k := state.homeF[f];
      assert EventLinked(state.cells[k]);
      ps, fs := state.cells[k].ps, state.cells[k].fs;
    }

    /** A future that is not pending is on no list; it may still carry an outcome. */
    lemma NotPending(f: Future) returns (k: nat)
      requires Valid() && f in futures && !f.u.Ptr?
      ensures Inv(state) && state.homeP.Keys <= promises && state.homeF.Keys <= futures
      ensures k == (if f in state.homeF then state.homeF[f] else |state.cells|)
      ensures f in state.homeF ==> k < |state.cells| && state.cells[k].Settled?
      ensures FutureAgrees(state, f)
      ensures k < |state.cells| ==> EventLinked(state.cells[k])
      ensures forall p <- promises :: PromiseAgrees(state, p)
      ensures forall g <- futures :: FutureAgrees(state, g)
    {
      k := if f in state.homeF then state.homeF[f] else |state.cells|;
      assert FutureAgrees(state, f);
      if f in state.homeF {
        assert ValidFuture(state, f) && CellInv(state, k) && EventLinked(state.cells[k]);
      }
    }

    /** promise(const promise &) */
    method CopyPromise(p: Promise, q: Promise)
      requires Valid() && p in promises && q !in state.homeP
      requires p.st != null
      modifies this, promises, q
      ensures Valid() && state == Step(old(state), Op.CopyPromise(p, q))
      ensures promises == old(promises) + {q} && futures == old(futures)
    {
      hide Inv, SameBut, Linked, Coupled;
      ghost var s, op := state, Op.CopyPromise(p, q);
      ghost var k, ps, fs := Enter(p);
      StepKeepsInv(s, op);
      OneEventOnly(s, op);
      CopyPromiseInto(p, q, ps, fs);
      state, promises := Step(s, op), promises + {q};
      Recouple(Snapshot(s, old(promises), futures), Snapshot(state, promises, futures), k);
    }

    /** promise(promise &&) */
    method MovePromise(p: Promise, q: Promise)
      requires Valid() && p in promises && q !in state.homeP && q != p
      modifies this, promises, futures, q
      ensures Valid() && state == Step(old(state), Op.MovePromise(p, q))
      ensures promises == old(promises) + {q} && futures == old(futures)
      ensures p.st == null
    {
      if p.st == null {
        MoveInvalidPromise(p, q);
      } else {
        MoveValidPromise(p, q);
      }
    }

    method MoveInvalidPromise(p: Promise, q: Promise)
      requires Valid() && p in promises && q !in state.homeP && q != p && p.st == null
      modifies this, p, q
      ensures Valid() && state == Step(old(state), Op.MovePromise(p, q))
      ensures promises == old(promises) + {q} && futures == old(futures)
      ensures p.st == null
    {
      hide Inv, SameBut, Linked, Coupled;
      ghost var s, op := state, Op.MovePromise(p, q);
      Alone(p);
      StepKeepsInv(s, op);
      OneEventOnly(s, op);
      MovePromiseInto(p, q, [p], []);
      state, promises := Step(s, op), promises + {q};
      Recouple(Snapshot(s, old(promises), futures), Snapshot(state, promises, futures), |s.cells|);
    }

    method MoveValidPromise(p: Promise, q: Promise)
      requires Valid() && p in promises && q !in state.homeP && q != p && p.st != null
      modifies this, promises, futures, q
      ensures Valid() && state == Step(old(state), Op.MovePromise(p, q))
      ensures promises == old(promises) + {q} && futures == old(futures)
      ensures p.st == null
    {
      hide Inv, SameBut, Linked, Coupled, Group, Replace;
      ghost var s, op := state, Op.MovePromise(p, q);
      ghost var k, ps, fs := Enter(p);
      StepKeepsInv(s, op);
      OneEventOnly(s, op);
      MoveLinkedPromise(p, q, ps, fs);
      state, promises := Step(s, op), promises + {q};
      Recouple(Snapshot(s, old(promises), futures), Snapshot(state, promises, futures), k);
    }

    /** ~promise(): the last copy breaks the promise, any other copy leaves the futures pending. */
    method DropPromise(p: Promise)
      requires Valid() && p in promises
      modifies this, promises, futures
      ensures Valid() && state == Step(old(state), Op.DropPromise(p))
      ensures promises == old(promises) - {p} && futures == old(futures)
    {
      if p.st == null {
        DropInvalidPromise(p);
      } else {
        DropValidPromise(p);
      }
    }

    method DropInvalidPromise(p: Promise)
      requires Valid() && p in promises && p.st == null
      modifies this, p
      ensures Valid() && state == Step(old(state), Op.DropPromise(p))
      ensures promises == old(promises) - {p} && futures == old(futures)
    {
      hide Inv, SameBut, Linked, Coupled;
      ghost var s, op := state, Op.DropPromise(p);
      Alone(p);
      StepKeepsInv(s, op);
      OneEventOnly(s, op);
      DestroyPromise(p, [p], []);
      state, promises := Step(s, op), promises - {p};
      Recouple(Snapshot(s, old(promises), futures), Snapshot(state, promises, futures), |s.cells|);
    }

    method DropValidPromise(p: Promise)
      requires Valid() && p in promises && p.st != null
      modifies this, promises, futures
      ensures Valid() && state == Step(old(state), Op.DropPromise(p))
      ensures promises == old(promises) - {p} && futures == old(futures)
    {
      hide Inv, SameBut, Linked, Coupled, Without;
      ghost var s, op := state, Op.DropPromise(p);
      ghost var k, ps, fs := Enter(p);
      StepKeepsInv(s, op);
      OneEventOnly(s, op);
      DestroyPromise(p, ps, fs);
      state, promises := Step(s, op), promises - {p};
      Recouple(Snapshot(s, old(promises), futures), Snapshot(state, promises, futures), k);
    }

    /** set_exception(eptr) on any copy; nothing happens when the promise is no longer valid. */
    method SetPromiseException(p: Promise, e: Exception)
      requires Valid() && p in promises
      modifies this, promises, futures
      ensures Valid() && state == Step(old(state), Op.Resolve(p, Failure(e)))
      ensures promises == old(promises) && futures == old(futures)
      ensures p.st == null
    {
      hide Inv, SameBut, Linked, Coupled;
      ghost var s, op := state, Op.Resolve(p, Failure(e));
      ghost var k, ps, fs := |state.cells|, [p], [];
      if p.st == null {
        Alone(p);
      } else {
        k, ps, fs := Enter(p);
      }
      StepKeepsInv(s, op);
      OneEventOnly(s, op);
      SetException(p, e, ps, fs);
      state := Step(s, op);
      Recouple(Snapshot(s, promises, futures), Snapshot(state, promises, futures), k);
    }

    /** set_value(v) on any copy. */
    method SetPromiseValue(p: Promise, v: int, rvalue: bool)
      requires Valid() && p in promises
      modifies this, promises, futures
      ensures Valid() && state == Step(old(state), Op.Resolve(p, Value(v)))
      ensures promises == old(promises) && futures == old(futures)
      ensures p.st == null
    {
      hide Inv, SameBut, Linked, Coupled;
      ghost var s, op := state, Op.Resolve(p, Value(v));
      ghost var k, ps, fs := |state.cells|, [p], [];
      if p.st == null {
        Alone(p);
      } else {
        k, ps, fs := Enter(p);
      }
      StepKeepsInv(s, op);
      OneEventOnly(s, op);
      SetValue(p, v, rvalue, ps, fs);
      state := Step(s, op);
      Recouple(Snapshot(s, promises, futures), Snapshot(state, promises, futures), k);
    }

    /** Behind p are the copies it had when its last event ended, all alive and without an event. */
    ghost predicate Followed(p: Promise, stale: seq<Promise>)
      reads this, p, stale
    {
      PromiseChain([p] + stale) && forall q <- stale :: q in promises && q.st == null
    }

    /** future(promise &): a first future opens an event, a further one shares it. The copies that
        are still linked behind p come with it into the new event. */
    method TakeFuture(p: Promise, f: Future, ghost stale: seq<Promise>)
      requires Valid() && p in promises && f !in state.homeF
      requires p.st == null ==> Followed(p, stale)
      modifies this, promises, futures, f
      ensures old(Legal(state, Op.TakeFuture(p, f, stale)))
      ensures Valid() && state == Step(old(state), Op.TakeFuture(p, f, stale))
      ensures promises == old(promises) && futures == old(futures) + {f}
      ensures p.st != null
    {
      if p.st == null {
        TakeFirstFuture(p, f, stale);
      } else {
        TakeFurtherFuture(p, f, stale);
      }
    }

    /** A promise without a state and its followers open a new event. */
    lemma OpensEvent(p: Promise, f: Future, stale: seq<Promise>) returns (t: State<Promise, Future>)
      requires Valid() && p in promises && f !in state.homeF && p.st == null && Followed(p, stale)
      ensures Around(|state.cells|, [], []) && forall q <- [p] + stale :: q !in state.homeP
      ensures var op, k := Op.TakeFuture(p, f, stale), |state.cells|;
              && Inv(state) && Legal(state, op) && t == Step(state, op)
              && Inv(t) && SameBut(state, t, k)
              && |t.cells| == k + 1 && t.cells[k] == Open([p] + stale, [f])
              && (forall q :: q in t.homeP <==> q in state.homeP || q in [p] + stale)
              && t.homeP.Keys <= promises && t.homeF == state.homeF[f := k]
    {
      Alone(p);
      forall q | q in stale ensures q !in state.homeP { Alone(q); }
      var op := Op.TakeFuture(p, f, stale);
      StepKeepsInv(state, op);
      OneEventOnly(state, op);
      t := Step(state, op);
    }

    method TakeFirstFuture(p: Promise, f: Future, ghost stale: seq<Promise>)
      requires Valid() && p in promises && f !in state.homeF
      requires p.st == null && Followed(p, stale)
      modifies this, promises, futures, f
      ensures old(Legal(state, Op.TakeFuture(p, f, stale)))
      ensures Valid() && state == Step(old(state), Op.TakeFuture(p, f, stale))
      ensures promises == old(promises) && futures == old(futures) + {f}
      ensures p.st == f
    {
      hide Inv, SameBut, Linked, Coupled, Step, Legal, PromiseChain;
      ghost var s := state;
      ghost var t := OpensEvent(p, f, stale);
      TakeFirstInto(p, f, [p] + stale);
      state, futures := t, futures + {f};
      Recouple(Snapshot(s, promises, old(futures)), Snapshot(state, promises, futures), |s.cells|);
    }

    method TakeFurtherFuture(p: Promise, f: Future, ghost stale: seq<Promise>)
      requires Valid() && p in promises && f !in state.homeF
      requires p.st != null
      modifies this, promises, futures, f
      ensures old(Legal(state, Op.TakeFuture(p, f, stale)))
      ensures Valid() && state == Step(old(state), Op.TakeFuture(p, f, stale))
      ensures promises == old(promises) && futures == old(futures) + {f}
      ensures p.st != null
    {
      hide Inv, SameBut, Linked, Coupled;
      ghost var s, op := state, Op.TakeFuture(p, f, stale);
      ghost var k, ps, fs := Enter(p);
      StepKeepsInv(s, op);
      OneEventOnly(s, op);
      TakeFutureInto(p, f, ps, fs);
      state, futures := Step(s, op), futures + {f};
      Recouple(Snapshot(s, promises, old(futures)), Snapshot(state, promises, futures), k);
    }

    /** future(const future &) */
    method CopyFuture(f: Future, g: Future)
      requires Valid() && f in futures && g !in state.homeF
      requires f.u.Ptr? && g.next == null
      modifies this, futures, g
      ensures Valid() && state == Step(old(state), Op.CopyFuture(f, g))
      ensures promises == old(promises) && futures == old(futures) + {g}
    {
      hide Inv, SameBut, Linked, Coupled;
      ghost var s, op := state, Op.CopyFuture(f, g);
      ghost var k, ps, fs := EnterFuture(f);
      StepKeepsInv(s, op);
      OneEventOnly(s, op);
      CopyFutureInto(f, g, ps, fs);
      state, futures := Step(s, op), futures + {g};
      Recouple(Snapshot(s, promises, old(futures)), Snapshot(state, promises, futures), k);
    }

    /** future(future &&). A future that is not pending may have followers from its old event, which
        must be alive: the source walks over them. */
    method MoveFuture(f: Future, g: Future, ghost stale: seq<Future>)
      requires Valid() && f in futures && g !in state.homeF && g != f
      requires !f.u.Ptr? ==> FutureChain([f] + stale) && g !in stale && forall h <- stale :: h in futures
      modifies this, promises, futures, g
      ensures Valid() && state == Step(old(state), Op.MoveFuture(f, g))
      ensures promises == old(promises) && futures == old(futures) + {g}
      ensures f.u == Null
    {
      if f.u.Ptr? {
        MovePendingFuture(f, g);
      } else {
        MoveIdleFuture(f, g, stale);
      }
    }

    method MovePendingFuture(f: Future, g: Future)
      requires Valid() && f in futures && g !in state.homeF && g != f && f.u.Ptr?
      modifies this, promises, futures, g
      ensures Valid() && state == Step(old(state), Op.MoveFuture(f, g))
      ensures promises == old(promises) && futures == old(futures) + {g}
      ensures f.u == Null
    {
      hide Inv, SameBut, Linked, Coupled, Circle, Replace;
      ghost var s, op := state, Op.MoveFuture(f, g);
      ghost var k, ps, fs := EnterFuture(f);
      StepKeepsInv(s, op);
      OneEventOnly(s, op);
      MoveLinkedFuture(f, g, ps, fs);
      state, futures := Step(s, op), futures + {g};
      Recouple(Snapshot(s, promises, old(futures)), Snapshot(state, promises, futures), k);
    }

    method MoveIdleFuture(f: Future, g: Future, ghost stale: seq<Future>)
      requires Valid() && f in futures && g !in state.homeF && g != f && !f.u.Ptr?
      requires FutureChain([f] + stale) && g !in stale && forall h <- stale :: h in futures
      modifies this, futures, g
      ensures Valid() && state == Step(old(state), Op.MoveFuture(f, g))
      ensures promises == old(promises) && futures == old(futures) + {g}
      ensures f.u == Null
    {
      hide Inv, SameBut, Linked, Coupled, FutureChain;
      ghost var s, op := state, Op.MoveFuture(f, g);
      ghost var k := NotPending(f);
      StepKeepsInv(s, op);
      OneEventOnly(s, op);
      MoveIdleInto(f, g, stale);
      state, futures := Step(s, op), futures + {g};
      Recouple(Snapshot(s, promises, old(futures)), Snapshot(state, promises, futures), k);
    }

    /** ~future(): the last one dissolves the event, any other one leaves it. */
    method DropFuture(f: Future)
      requires Valid() && f in futures
      modifies this, promises, futures
      ensures Valid() && state == Step(old(state), Op.DropFuture(f))
      ensures promises == old(promises) && futures == old(futures) - {f}
    {
      if f.u.Ptr? {
        DropPendingFuture(f);
      } else {
        DropIdleFuture(f);
      }
    }

    method DropPendingFuture(f: Future)
      requires Valid() && f in futures && f.u.Ptr?
      modifies this, promises, futures
      ensures Valid() && state == Step(old(state), Op.DropFuture(f))
      ensures promises == old(promises) && futures == old(futures) - {f}
    {
      hide Inv, SameBut, Linked, Coupled, Without;
      ghost var s, op := state, Op.DropFuture(f);
      ghost var k, ps, fs := EnterFuture(f);
      StepKeepsInv(s, op);
      OneEventOnly(s, op);
      DestroyFuture(f, ps, fs);
      state, futures := Step(s, op), futures - {f};
      Recouple(Snapshot(s, promises, old(futures)), Snapshot(state, promises, futures), k);
    }

    method DropIdleFuture(f: Future)
      requires Valid() && f in futures && !f.u.Ptr?
      modifies this, futures
      ensures Valid() && state == Step(old(state), Op.DropFuture(f))
      ensures promises == old(promises) && futures == old(futures) - {f}
    {
      hide Inv, SameBut, Linked, Coupled;
      ghost var s, op := state, Op.DropFuture(f);
      ghost var k := NotPending(f);
      StepKeepsInv(s, op);
      OneEventOnly(s, op);
      DestroyFuture(f, [], []);
      state, futures := Step(s, op), futures - {f};
      Recouple(Snapshot(s, promises, old(futures)), Snapshot(state, promises, futures), k);
    }
  }
}
