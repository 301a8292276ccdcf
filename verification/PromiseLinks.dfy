/** The two intrusive lists behind promises and futures, and the internal routines that
    rewrite them in place (ircd/ctx.cc, promise.h and shared_state.h sections). */
module PromiseLinks {
  import opened Basics
  import opened PromiseSpec

  /** The union of a promise pointer and a state number inside a future: setting one
      clobbers the other. */
  datatype Union = Null | Ptr(p: Promise) | Ready | Retrieved

  class Promise {
    var st: Future?        // the head of all sharing futures
    var next: Promise?     // next sharing promise

    constructor ()
      ensures st == null && next == null
    {
      st, next := null, null;
    }
  }

  class Future {
    var next: Future?      // next sharing future
    var u: Union           // the head of all sharing promises, or a state
    var val: int
    var eptr: Option<Exception>
    ghost var notified: nat

    constructor ()
      ensures next == null && u == Null && eptr == None && notified == 0
    {
      next, u, val, eptr, notified := null, Null, 0, None, 0;
    }
  }

  ghost predicate PromiseChain(ps: seq<Promise>)
    reads ps
  {
    && ps != [] && Distinct(ps)
    && forall i {:trigger ps[i].next} :: 0 <= i < |ps| ==> ps[i].next == if i + 1 < |ps| then ps[i + 1] else null
  }

  ghost predicate FutureChain(fs: seq<Future>)
    reads fs
  {
    && fs != [] && Distinct(fs)
    && forall i {:trigger fs[i].next} :: 0 <= i < |fs| ==> fs[i].next == if i + 1 < |fs| then fs[i + 1] else null
  }

  /** Two finite acyclic lists that point at each other's heads. */
  ghost predicate Linked(ps: seq<Promise>, fs: seq<Future>)
    reads ps, fs
  {
    && PromiseChain(ps) && FutureChain(fs)
    && (forall p <- ps :: p.st == fs[0])
    && (forall f <- fs :: f.u == Ptr(ps[0]))
  }

  /** The lists of one promise's event; a promise without a state stands alone. */
  ghost predicate Group(ps: seq<Promise>, fs: seq<Future>)
    reads ps, fs
  {
    if fs == [] then |ps| == 1 && ps[0].st == null else Linked(ps, fs)
  }

  /** The lists of one future's event; one that is not pending may have followers of an old event. */
  ghost predicate Circle(ps: seq<Promise>, fs: seq<Future>)
    reads ps, fs
  {
    if ps == [] then FutureChain(fs) && !fs[0].u.Ptr? else Linked(ps, fs)
  }

  // ----- heads (ctx.cc:2195-2230, 2570-2602) -----

  function PromiseHeadOf(st: Future): Promise?
    reads st
  {
    if st.u.Ptr? then st.u.p else null
  }

  function PromiseHead(p: Promise): Promise
    reads p, p.st
  {
    if p.st != null && PromiseHeadOf(p.st) != null then PromiseHeadOf(p.st) else p
  }

  function FutureHead(f: Future): Future
    reads f, if f.u.Ptr? then {f.u.p} else {}
  {
    if f.u.Ptr? && f.u.p.st != null then f.u.p.st else f
  }

  // ----- promise side (ctx.cc:2185-2345) -----

  method PromiseRefcount(p: Promise, ghost ps: seq<Promise>, ghost fs: seq<Future>) returns (n: nat)
    requires Group(ps, fs) && p in ps
    ensures n == if p.st == null then 0 else |ps|
  {
    n := 0;
    if p.st == null { return; }
    assert PromiseChain(ps) && p.st.u == Ptr(ps[0]);
    var next := PromiseHeadOf(p.st);
    while next != null
      invariant n <= |ps| && next == if n < |ps| then ps[n] else null
      decreases |ps| - n
    {
      next := next.next;
      n := n + 1;
    }
  }

  method SetFuturesPromise(p: Promise, ghost fs: seq<Future>)
    requires if fs == [] then p.st == null else FutureChain(fs) && p.st == fs[0]
    modifies fs`u
    ensures forall f <- fs :: f.u == Ptr(p)
  {
    var next := p.st;
    ghost var i := 0;
    while next != null
      invariant 0 <= i <= |fs| && next == if i < |fs| then fs[i] else null
      invariant forall j :: 0 <= j < i ==> fs[j].u == Ptr(p)
      decreases |fs| - i
    {
      next.u := Ptr(p);
      next := next.next;
      i := i + 1;
    }
  }

  method InvalidateFutures(p: Promise, ghost fs: seq<Future>)
    requires FutureChain(fs) && p.st == fs[0]
    modifies fs`u
    ensures forall f <- fs :: f.u == Null
  {
    var next := p.st;
    ghost var i := 0;
    while next != null
      invariant 0 <= i <= |fs| && next == if i < |fs| then fs[i] else null
      invariant forall j :: 0 <= j < i ==> fs[j].u == Null
      decreases |fs| - i
    {
      next.u := Null;
      next := next.next;
      i := i + 1;
    }
  }

  method InvalidatePromises(st: Future, ghost ps: seq<Promise>)
    requires PromiseChain(ps) && st.u == Ptr(ps[0])
    modifies ps`st
    ensures forall p <- ps :: p.st == null
  {
    var next := PromiseHeadOf(st);
    ghost var i := 0;
    while next != null
      invariant 0 <= i <= |ps| && next == if i < |ps| then ps[i] else null
      invariant forall j :: 0 <= j < i ==> ps[j].st == null
      decreases |ps| - i
    {
      next.st := null;
      next := next.next;
      i := i + 1;
    }
  }

  /** The search shared by remove() and update(): p's predecessor is made to point at to. */
  method RelinkPromise(head: Promise, p: Promise, to: Promise?, ghost ps: seq<Promise>, ghost k: nat)
    requires PromiseChain(ps) && head == ps[0] && 0 < k < |ps| && p == ps[k]
    modifies ps`next
    ensures forall j {:trigger ps[j].next} :: 0 <= j < |ps| && j + 1 != k ==> ps[j].next == old(ps[j].next)
    ensures ps[k - 1].next == to
  {
    var last, next := head, head.next;
    ghost var i := 1;
    while next != null
      invariant 1 <= i <= k && last == ps[i - 1] && next == ps[i]
      invariant PromiseChain(ps) && forall q <- ps :: q.next == old(q.next)
      decreases k - i
    {
      if next == p {
        last.next := to;
        return;
      }
      last := next;
      next := next.next;
      i := i + 1;
    }
  }

  lemma PromiseChainPast(ps: seq<Promise>, k: nat)
    requires Distinct(ps) && k < |ps| && |ps| > 1
    requires forall j {:trigger ps[j].next} :: 0 <= j < |ps| && j != k ==>
               ps[j].next == var n := if j + 1 == k then k + 1 else j + 1; if n < |ps| then ps[n] else null
    ensures PromiseChain(Without(ps, ps[k]))
  {
    var rest := Without(ps, ps[k]);
    WithoutElements(ps, ps[k]);
    assert forall j :: 0 <= j < |rest| ==> rest[j] == ps[if j < k then j else j + 1];
  }

  lemma LinkedPast(ps: seq<Promise>, fs: seq<Future>, k: nat)
    requires Distinct(ps) && k < |ps| && |ps| > 1 && FutureChain(fs)
    requires forall j {:trigger ps[j].next} :: 0 <= j < |ps| && j != k ==>
               ps[j].next == var n := if j + 1 == k then k + 1 else j + 1; if n < |ps| then ps[n] else null
    requires forall j :: 0 <= j < |ps| && j != k ==> ps[j].st == fs[0]
    requires forall f <- fs :: f.u == Ptr(ps[if k == 0 then 1 else 0])
    ensures Linked(Without(ps, ps[k]), fs)
  {
    PromiseChainPast(ps, k);
    WithoutElements(ps, ps[k]);
    var rest := Without(ps, ps[k]);
    forall p | p in rest ensures p.st == fs[0] {
      var j :| 0 <= j < |ps| && ps[j] == p;
    }
  }

  /** remove(promise_base &): unlink one copy; the last one invalidates the futures. */
  method RemovePromise(p: Promise, ghost ps: seq<Promise>, ghost fs: seq<Future>)
    requires Linked(ps, fs) && p in ps
    modifies ps, fs`u
    ensures |ps| > 1 ==> Linked(Without(ps, p), fs)
    ensures |ps| == 1 ==> forall f <- fs :: f.u == Null
    ensures p.st == null && p.next == null
  {
    hide Without;
    ghost var k := IndexOf(ps, p);
    assert ps[0] in ps;
    var last := PromiseHead(p);
    if last == p {
      if p.next != null {
        assert ps[1] in ps;
        SetFuturesPromise(p.next, fs);
      } else {
        InvalidateFutures(p, fs);
      }
    } else {
      RelinkPromise(last, p, p.next, ps, k);
    }
    p.st := null;
    p.next := null;
    if |ps| > 1 {
      LinkedPast(ps, fs, k);
    }
  }

  /** update(promise_base &, promise_base &): repl takes orig's place in the list. */
  method UpdatePromise(repl: Promise, orig: Promise, ghost ps: seq<Promise>, ghost fs: seq<Future>)
    requires Group(ps, fs) && orig in ps && repl !in ps && repl.st == orig.st
    modifies ps, fs`u, repl
    ensures Group(Replace(ps, orig, repl), fs)
    ensures orig.st == null && orig.next == null
  {
    ghost var k := IndexOf(ps, orig);
    repl.next := orig.next;
    var last := PromiseHead(orig);
    if last == orig {
      SetFuturesPromise(repl, fs);
    } else {
      RelinkPromise(last, orig, repl, ps, k);
    }
    orig.st := null;
    orig.next := null;
    ReplaceElements(ps, orig, repl);
  }

  /** append(promise_base &, promise_base &): walk from old to the end and hang repl there. */
  method AppendPromise(repl: Promise, orig: Promise, ghost ps: seq<Promise>, ghost fs: seq<Future>)
    requires Linked(ps, fs) && orig in ps && repl !in ps && repl.st == orig.st && repl.next == null
    modifies ps`next
    ensures Linked(ps + [repl], fs)
  {
    ghost var i := IndexOf(ps, orig);
    if orig.next == null {
      orig.next := repl;
      return;
    }
    var next := orig.next;
    i := i + 1;
    while next.next != null
      invariant 0 <= i < |ps| && next == ps[i]
      decreases |ps| - i
    {
      next := next.next;
      i := i + 1;
    }
    next.next := repl;
  }

  // ----- future side (ctx.cc:2553-2709) -----

  method FutureRefcount(f: Future, ghost ps: seq<Promise>, ghost fs: seq<Future>) returns (n: nat)
    requires !f.u.Ptr? || (Linked(ps, fs) && f in fs)
    ensures n == if f.u.Ptr? then |fs| else 0
  {
    n := 0;
    if !f.u.Ptr? { return; }
    assert ps[0] in ps;
    var next: Future? := FutureHead(f);
    while next != null
      invariant n <= |fs| && next == if n < |fs| then fs[n] else null
      decreases |fs| - n
    {
      next := next.next;
      n := n + 1;
    }
  }

  method SetPromisesState(f: Future, ghost ps: seq<Promise>)
    requires PromiseChain(ps) && f.u == Ptr(ps[0])
    modifies ps`st
    ensures forall p <- ps :: p.st == f
  {
    var next := PromiseHeadOf(f);
    ghost var i := 0;
    while next != null
      invariant 0 <= i <= |ps| && next == if i < |ps| then ps[i] else null
      invariant forall j :: 0 <= j < i ==> ps[j].st == f
      decreases |ps| - i
    {
      next.st := f;
      next := next.next;
      i := i + 1;
    }
  }

  /** The search shared by remove() and update(): f's predecessor, if any, is made to point at to. */
  method RelinkFuture(head: Future, f: Future, to: Future?, ghost fs: seq<Future>, ghost k: nat)
    requires FutureChain(fs) && head == fs[0] && k < |fs| && f == fs[k]
    modifies fs`next
    ensures forall j {:trigger fs[j].next} :: 0 <= j < |fs| && j + 1 != k ==> fs[j].next == old(fs[j].next)
    ensures k > 0 ==> fs[k - 1].next == to
  {
    var last, next := head, head.next;
    ghost var i := 1;
    while next != null
      invariant 1 <= i <= |fs| && last == fs[i - 1] && next == if i < |fs| then fs[i] else null
      invariant k == 0 || i <= k
      invariant FutureChain(fs) && forall g <- fs :: g.next == old(g.next)
      decreases |fs| - i
    {
      if next == f {
        last.next := to;
        return;
      }
      last := next;
      next := next.next;
      i := i + 1;
    }
  }

  lemma FutureChainPast(fs: seq<Future>, k: nat)
    requires Distinct(fs) && k < |fs| && |fs| > 1
    requires forall j {:trigger fs[j].next} :: 0 <= j < |fs| && j != k ==>
               fs[j].next == var n := if j + 1 == k then k + 1 else j + 1; if n < |fs| then fs[n] else null
    ensures FutureChain(Without(fs, fs[k]))
  {
    var rest := Without(fs, fs[k]);
    WithoutElements(fs, fs[k]);
    assert forall j :: 0 <= j < |rest| ==> rest[j] == fs[if j < k then j else j + 1];
  }

  /** remove(shared_state_base &): unlink one future; the last one invalidates the promises. */
  method RemoveFuture(f: Future, ghost ps: seq<Promise>, ghost fs: seq<Future>)
    requires Linked(ps, fs) && f in fs
    modifies ps`st, fs`next, f`u
    ensures |fs| > 1 ==> Linked(ps, Without(fs, f))
    ensures |fs| == 1 ==> forall p <- ps :: p.st == null
    ensures f.u == Null && f.next == null
  {
    ghost var k := IndexOf(fs, f);
    assert ps[0] in ps && fs[0] in fs;
    var last := FutureHead(f);
    if last == f && f.u.Ptr? {
      if last.next != null {
        assert fs[1] in fs;
        SetPromisesState(last.next, ps);
      } else {
        InvalidatePromises(f, ps);
      }
    } else {
      RelinkFuture(last, f, f.next, fs, k);
    }
    f.next := null;
    f.u := Null;
    if |fs| > 1 {
      FutureChainPast(fs, k);
      WithoutElements(fs, f);
    }
  }

  lemma FutureChainWith(fs: seq<Future>, k: nat, repl: Future)
    requires Distinct(fs) && k < |fs| && repl !in fs
    requires forall j {:trigger fs[j].next} :: 0 <= j < |fs| && j != k ==>
               fs[j].next == if j + 1 == k then repl else if j + 1 < |fs| then fs[j + 1] else null
    requires repl.next == if k + 1 < |fs| then fs[k + 1] else null
    ensures FutureChain(Replace(fs, fs[k], repl))
  {
    ReplaceElements(fs, fs[k], repl);
  }

  /** update(shared_state_base &, shared_state_base &): repl takes orig's place in the list. */
  method UpdateFuture(repl: Future, orig: Future, ghost ps: seq<Promise>, ghost fs: seq<Future>)
    requires Circle(ps, fs) && orig in fs && repl !in fs && repl.u == orig.u && repl.next == orig.next
    requires ps == [] ==> orig == fs[0]
    modifies ps`st, fs`next, orig`u, repl`next
    ensures Circle(ps, Replace(fs, orig, repl))
    ensures ps == [] ==> forall f <- fs :: f != orig ==> f.next == old(f.next)
    ensures orig.u == Null && orig.next == null
  {
    ghost var k := IndexOf(fs, orig);
    if ps != [] { assert ps[0] in ps; }
    var last := FutureHead(orig);
    if last == orig && last.u.Ptr? {
      SetPromisesState(repl, ps);
    }
    repl.next := orig.next;
    RelinkFuture(last, orig, repl, fs, k);
    orig.u := Null;
    orig.next := null;
    FutureChainWith(fs, k, repl);
    ReplaceElements(fs, orig, repl);
  }

  method AppendFuture(repl: Future, orig: Future, ghost ps: seq<Promise>, ghost fs: seq<Future>)
    requires Linked(ps, fs) && orig in fs && repl !in fs && repl.u == Ptr(ps[0]) && repl.next == null
    modifies fs`next
    ensures Linked(ps, fs + [repl])
  {
    ghost var i := IndexOf(fs, orig);
    if orig.next == null {
      orig.next := repl;
      return;
    }
    var next := orig.next;
    i := i + 1;
    while next.next != null
      invariant 0 <= i < |fs| && next == fs[i]
      decreases |fs| - i
    {
      next := next.next;
      i := i + 1;
    }
    next.next := repl;
  }

  /** promise_base::make_ready: invalidate every copy, then set each future READY and notify it. */
  method MakeReady(p: Promise, ghost ps: seq<Promise>, ghost fs: seq<Future>)
    requires Linked(ps, fs) && p in ps
    modifies ps`st, fs`u, fs`notified
    ensures forall q <- ps :: q.st == null
    ensures forall f <- fs :: f.u == Ready && f.notified == old(f.notified) + 1
  {
    assert ps[0] in ps && fs[0] in fs;
    var head := PromiseHead(p);
    var next := head.st;
    InvalidatePromises(next, ps);
    assert FutureChain(fs);
    ghost var i := 0;
    while next != null
      invariant 0 <= i <= |fs| && next == if i < |fs| then fs[i] else null
      invariant forall j :: 0 <= j < i ==> fs[j].u == Ready && fs[j].notified == old(fs[j].notified) + 1
      invariant forall j :: i <= j < |fs| ==> fs[j].notified == old(fs[j].notified)
      invariant FutureChain(fs)
      decreases |fs| - i
      modifies fs`u, fs`notified
    {
      next.u := Ready;
      next.notified := next.notified + 1;
      next := next.next;
      i := i + 1;
    }
    p.st := null;
  }

  // ----- the special members (ctx.cc:2063-2096, 2435-2538) -----

  /** promise_base(const promise_base &) */
  method CopyPromiseInto(p: Promise, q: Promise, ghost ps: seq<Promise>, ghost fs: seq<Future>)
    requires Linked(ps, fs) && p in ps && q !in ps
    modifies ps`next, q
    ensures Linked(ps + [q], fs)
  {
    q.st, q.next := p.st, null;
    AppendPromise(q, p, ps, fs);
  }

  /** promise_base(promise_base &&) */
  method MovePromiseInto(p: Promise, q: Promise, ghost ps: seq<Promise>, ghost fs: seq<Future>)
    requires Group(ps, fs) && p in ps && q !in ps
    modifies ps, fs`u, q
    ensures Group(Replace(ps, p, q), fs) && p.st == null
  {
    q.st, q.next := p.st, p.next;
    UpdatePromise(q, p, ps, fs);
  }

  /** The same for a valid promise, whose event stays linked. */
  method MoveLinkedPromise(p: Promise, q: Promise, ghost ps: seq<Promise>, ghost fs: seq<Future>)
    requires Group(ps, fs) && fs != [] && p in ps && q !in ps
    modifies ps, fs`u, q
    ensures Linked(Replace(ps, p, q), fs) && p.st == null
  {
    hide Linked;
    MovePromiseInto(p, q, ps, fs);
  }

  /** shared_state_base(promise_base &), which re-initialises the whole future. The followers of a
      promise without a state share the new event. */
  method TakeFutureInto(p: Promise, f: Future, ghost ps: seq<Promise>, ghost fs: seq<Future>)
    requires p in ps && f !in fs
    requires if fs == [] then PromiseChain(ps) && p == ps[0] && p.st == null else Linked(ps, fs)
    modifies ps`st, fs`next, f
    ensures Linked(ps, fs + [f]) && f.eptr == None && f.notified == 0
  {
    f.next, f.eptr, f.notified := null, None, 0;
    if p.st != null { assert fs[0] in fs; }
    f.u := Ptr(PromiseHead(p));
    if p.st == null {
      p.st := f;
      SetPromisesState(f, ps);
    } else {
      AppendFuture(f, p.st, ps, fs);
    }
  }

  /** The same for a promise without a state. */
  method TakeFirstInto(p: Promise, f: Future, ghost ps: seq<Promise>)
    requires PromiseChain(ps) && p == ps[0] && p.st == null
    modifies ps`st, f
    ensures Linked(ps, [f]) && f.eptr == None && f.notified == 0 && f.u.Ptr? && p.st == f
  {
    TakeFutureInto(p, f, ps, []);
    assert [] + [f] == [f];
  }

  /** shared_state_base(const shared_state_base &) */
  method CopyFutureInto(f: Future, g: Future, ghost ps: seq<Promise>, ghost fs: seq<Future>)
    requires Linked(ps, fs) && f in fs && g !in fs && g.next == null
    modifies fs`next, g
    ensures Linked(ps, fs + [g]) && g.eptr == f.eptr && g.notified == 0
  {
    g.u, g.eptr, g.notified := f.u, f.eptr, 0;
    AppendFuture(g, f, ps, fs);
  }

  /** set_exception(eptr): the exception goes to every future, then all become ready. */
  method SetException(p: Promise, e: Exception, ghost ps: seq<Promise>, ghost fs: seq<Future>)
    requires Group(ps, fs) && p in ps
    modifies ps`st, fs
    ensures forall q <- ps :: q.st == null
    ensures forall f <- fs :: f.u == Ready && f.notified == old(f.notified) + 1 && f.eptr == Some(e)
  {
    if p.st == null { return; }
    var next := p.st;
    ghost var i := 0;
    while next != null
      invariant 0 <= i <= |fs| && next == if i < |fs| then fs[i] else null
      invariant forall j :: 0 <= j < i ==> fs[j].eptr == Some(e)
      invariant Linked(ps, fs) && forall f <- fs :: f.notified == old(f.notified)
      decreases |fs| - i
    {
      next.eptr := Some(e);
      next := next.next;
      i := i + 1;
    }
    MakeReady(p, ps, fs);
  }

  /** set_value(v): a sole future gets an rvalue by move, several get a copy each. */
  method SetValue(p: Promise, v: int, rvalue: bool, ghost ps: seq<Promise>, ghost fs: seq<Future>)
    requires Group(ps, fs) && p in ps
    modifies ps`st, fs
    ensures forall q <- ps :: q.st == null
    ensures forall f <- fs :: f.u == Ready && f.notified == old(f.notified) + 1 && f.val == v && f.eptr == old(f.eptr)
  {
    if p.st == null { return; }
    assert fs[0] in fs;
    var n := FutureRefcount(p.st, ps, fs);
    if rvalue && n == 1 {
      p.st.val := v;
    } else {
      var state := p.st;
      ghost var i := 0;
      while state != null
        invariant 0 <= i <= |fs| && state == if i < |fs| then fs[i] else null
        invariant forall j :: 0 <= j < i ==> fs[j].val == v
        invariant Linked(ps, fs) && forall f <- fs :: f.notified == old(f.notified) && f.eptr == old(f.eptr)
        decreases |fs| - i
      {
        state.val := v;
        state := state.next;
        i := i + 1;
      }
    }
    assert forall f <- fs :: f.val == v;
    MakeReady(p, ps, fs);
  }

  /** ~promise_base(): the last copy breaks the promise, any other copy just leaves the list. */
  method DestroyPromise(p: Promise, ghost ps: seq<Promise>, ghost fs: seq<Future>)
    requires Group(ps, fs) && p in ps
    modifies ps, fs
    ensures p.st == null
    ensures |ps| == 1 ==> forall f <- fs ::
              f.u == Ready && f.notified == old(f.notified) + 1 && f.eptr == Some(BrokenPromise)
    ensures |ps| > 1 ==> Linked(Without(ps, p), fs)
    ensures |ps| > 1 ==> forall f <- fs :: f.notified == old(f.notified) && f.eptr == old(f.eptr)
  {
    var n := PromiseRefcount(p, ps, fs);
    if n == 1 {
      SetException(p, BrokenPromise, ps, fs);
    }
    if p.st != null {
      RemovePromise(p, ps, fs);
    }
  }

  /** shared_state_base(shared_state_base &&), together with the value. */
  method MoveFutureInto(f: Future, g: Future, ghost ps: seq<Promise>, ghost fs: seq<Future>)
    requires Circle(ps, fs) && f in fs && g !in fs && (ps == [] ==> f == fs[0])
    modifies ps`st, fs`next, f`u, g
    ensures Circle(ps, Replace(fs, f, g)) && f.u == Null
    ensures ps == [] ==> g.u == old(f.u) && forall h <- fs :: h != f ==> h.next == old(h.next)
    ensures g.val == f.val && g.eptr == f.eptr && g.notified == f.notified
  {
    g.val, g.eptr, g.notified := f.val, f.eptr, f.notified;
    g.next, g.u := f.next, f.u;
    UpdateFuture(g, f, ps, fs);
  }

  /** The same for a pending future, whose event stays linked. */
  method MoveLinkedFuture(f: Future, g: Future, ghost ps: seq<Promise>, ghost fs: seq<Future>)
    requires Circle(ps, fs) && ps != [] && f in fs && g !in fs
    modifies ps`st, fs`next, f`u, g
    ensures Linked(ps, Replace(fs, f, g)) && f.u == Null
    ensures g.eptr == f.eptr && g.notified == f.notified
  {
    hide Linked;
    MoveFutureInto(f, g, ps, fs);
  }

  /** The same for a future that is not pending: its followers do not notice. */
  method MoveIdleInto(f: Future, g: Future, ghost stale: seq<Future>)
    requires FutureChain([f] + stale) && !f.u.Ptr? && g != f && g !in stale
    modifies f, stale`next, g
    ensures g.u == old(f.u) && f.u == Null
    ensures g.val == old(f.val) && g.eptr == old(f.eptr) && g.notified == old(f.notified)
    ensures forall h <- stale :: h.next == old(h.next)
  {
    forall h | h in stale ensures h in [f] + stale && h != f {
      var j :| 0 <= j < |stale| && stale[j] == h;
      assert ([f] + stale)[0] == f && ([f] + stale)[j + 1] == h;
    }
    MoveFutureInto(f, g, [], [f] + stale);
  }

  /** ~shared_state_base(): the last future invalidates the promises, any other just leaves. */
  method DestroyFuture(f: Future, ghost ps: seq<Promise>, ghost fs: seq<Future>)
    requires if f.u.Ptr? then Linked(ps, fs) && f in fs else ps == [] && fs == []
    modifies ps`st, fs`next, f`u
    ensures |fs| == 1 ==> forall p <- ps :: p.st == null
    ensures |fs| > 1 ==> Linked(ps, Without(fs, f))
  {
    var n := FutureRefcount(f, ps, fs);
    if n == 1 {
      InvalidatePromises(f, ps);
    } else if n > 1 {
      RemoveFuture(f, ps, fs);
    }
  }
}
