/** What promises and futures mean, with no pointers in sight.

    Each resolution event is a write-once cell. While it is open, a list of promises
    may settle it and a list of futures waits on it. The heap in PromiseHeap.dfy refines
    this machine step by step. */
module PromiseSpec {
  import opened Basics

  datatype Exception = BrokenPromise | UserError(code: int)

  datatype Outcome = Value(v: int) | Failure(e: Exception)

  /** One resolution event. Abandoned: every future died before a promise was set. */
  datatype Cell<P, F> = Open(ps: seq<P>, fs: seq<F>) | Settled(outcome: Outcome) | Abandoned

  /** homeP holds exactly the valid promises, homeF the live futures that have an event. */
  datatype State<P, F> = State(cells: seq<Cell<P, F>>, homeP: map<P, nat>, homeF: map<F, nat>)

  /** The copies behind a promise whose event is over are still linked to it; when it takes a
      future they share the new event. */
  datatype Op<P, F> =
    | TakeFuture(p: P, f: F, stale: seq<P>)
    | CopyPromise(p: P, q: P)
    | MovePromise(p: P, q: P)
    | DropPromise(p: P)
    | Resolve(p: P, o: Outcome)
    | CopyFuture(f: F, g: F)
    | MoveFuture(f: F, g: F)
    | DropFuture(f: F)

  ghost predicate CellInv<P, F>(s: State<P, F>, k: nat)
    requires k < |s.cells|
  {
    var c := s.cells[k];
    c.Open? ==>
      && c.ps != [] && c.fs != []
      && Distinct(c.ps) && Distinct(c.fs)
      && (forall p <- c.ps :: p in s.homeP && s.homeP[p] == k)
      && (forall f <- c.fs :: f in s.homeF && s.homeF[f] == k)
  }

  /** Every handle belongs to one cell only, and an open cell has handles on both sides. */
  ghost predicate ValidPromise<P, F>(s: State<P, F>, p: P)
    requires p in s.homeP
  {
    s.homeP[p] < |s.cells| && s.cells[s.homeP[p]].Open? && p in s.cells[s.homeP[p]].ps
  }

  ghost predicate ValidFuture<P, F>(s: State<P, F>, f: F)
    requires f in s.homeF
  {
    && s.homeF[f] < |s.cells|
    && !s.cells[s.homeF[f]].Abandoned?
    && (s.cells[s.homeF[f]].Open? ==> f in s.cells[s.homeF[f]].fs)
  }

  ghost predicate Inv<P, F>(s: State<P, F>) {
    && (forall k: nat | k < |s.cells| :: CellInv(s, k))
    && (forall p <- s.homeP :: ValidPromise(s, p))
    && (forall f <- s.homeF :: ValidFuture(s, f))
  }

  /** What the holder of a future sees; None is pending. */
  function Observed<P, F>(s: State<P, F>, f: F): Option<Outcome>
    requires f in s.homeF ==> s.homeF[f] < |s.cells|
  {
    if f in s.homeF && s.cells[s.homeF[f]].Settled? then Some(s.cells[s.homeF[f]].outcome) else None
  }

  function Settle<P, F>(s: State<P, F>, k: nat, o: Outcome): State<P, F>
    requires k < |s.cells| && s.cells[k].Open?
  {
    s.(cells := s.cells[k := Settled(o)], homeP := s.homeP - ToSet(s.cells[k].ps))
  }

  ghost predicate Pending<P, F>(s: State<P, F>, f: F) {
    f in s.homeF && s.homeF[f] < |s.cells| && s.cells[s.homeF[f]].Open?
  }

  /** What an operation asks of its caller: targets of a construction hold no event yet,
      and only valid promises and pending futures are copied. */
  ghost predicate Legal<P, F>(s: State<P, F>, op: Op<P, F>) {
    match op
    case TakeFuture(p, f, stale) =>
      f !in s.homeF && (p !in s.homeP ==> Distinct([p] + stale) && forall q <- stale :: q !in s.homeP)
    case CopyPromise(p, q) => p in s.homeP && q !in s.homeP
    case MovePromise(_, q) => q !in s.homeP
    case CopyFuture(f, g) => Pending(s, f) && g !in s.homeF
    case MoveFuture(_, g) => g !in s.homeF
    case DropPromise(_) => true
    case Resolve(_, _) => true
    case DropFuture(_) => true
  }

  ghost function NewEvent<P, F>(s: State<P, F>, ps: seq<P>, f: F): State<P, F> {
    var k := |s.cells|;
    State(s.cells + [Open(ps, [f])], s.homeP + (map p <- ps :: k), s.homeF[f := k])
  }

  function AddPromise<P, F>(s: State<P, F>, k: nat, q: P): State<P, F>
    requires k < |s.cells| && s.cells[k].Open?
  {
    s.(cells := s.cells[k := Open(s.cells[k].ps + [q], s.cells[k].fs)], homeP := s.homeP[q := k])
  }

  function AddFuture<P, F>(s: State<P, F>, k: nat, g: F): State<P, F>
    requires k < |s.cells| && s.cells[k].Open?
  {
    s.(cells := s.cells[k := Open(s.cells[k].ps, s.cells[k].fs + [g])], homeF := s.homeF[g := k])
  }

  function SwapPromise<P(==), F>(s: State<P, F>, k: nat, p: P, q: P): State<P, F>
    requires k < |s.cells| && s.cells[k].Open? && p in s.cells[k].ps
  {
    s.(cells := s.cells[k := Open(Replace(s.cells[k].ps, p, q), s.cells[k].fs)], homeP := (s.homeP - {p})[q := k])
  }

  function SwapFuture<P, F(==)>(s: State<P, F>, k: nat, f: F, g: F): State<P, F>
    requires k < |s.cells| && (s.cells[k].Open? ==> f in s.cells[k].fs)
  {
    var t := s.(homeF := (s.homeF - {f})[g := k]);
    if s.cells[k].Open? then t.(cells := s.cells[k := Open(s.cells[k].ps, Replace(s.cells[k].fs, f, g))]) else t
  }

  function WithoutPromise<P(==), F>(s: State<P, F>, k: nat, p: P): State<P, F>
    requires k < |s.cells| && s.cells[k].Open? && p in s.cells[k].ps
  {
    if |s.cells[k].ps| == 1 then Settle(s, k, Failure(BrokenPromise))
    else s.(cells := s.cells[k := Open(Without(s.cells[k].ps, p), s.cells[k].fs)], homeP := s.homeP - {p})
  }

  function WithoutFuture<P, F(==)>(s: State<P, F>, k: nat, f: F): State<P, F>
    requires k < |s.cells| && (s.cells[k].Open? ==> f in s.cells[k].fs)
  {
    var t := s.(homeF := s.homeF - {f});
    if !s.cells[k].Open? then t
    else if |s.cells[k].fs| == 1 then t.(cells := s.cells[k := Abandoned], homeP := s.homeP - ToSet(s.cells[k].ps))
    else t.(cells := s.cells[k := Open(s.cells[k].ps, Without(s.cells[k].fs, f))])
  }

  ghost function Step<P, F>(s: State<P, F>, op: Op<P, F>): State<P, F>
    requires Inv(s) && Legal(s, op)
  {
    match op
    case TakeFuture(p, f, stale) =>
      if p in s.homeP then AddFuture(s, s.homeP[p], f) else NewEvent(s, [p] + stale, f)
    case CopyPromise(p, q) => AddPromise(s, s.homeP[p], q)
    case MovePromise(p, q) => if p in s.homeP then SwapPromise(s, s.homeP[p], p, q) else s
    case DropPromise(p) => if p in s.homeP then WithoutPromise(s, s.homeP[p], p) else s
    case Resolve(p, o) => if p in s.homeP then Settle(s, s.homeP[p], o) else s
    case CopyFuture(f, g) => AddFuture(s, s.homeF[f], g)
    case MoveFuture(f, g) => if f in s.homeF then SwapFuture(s, s.homeF[f], f, g) else s
    case DropFuture(f) => if f in s.homeF then WithoutFuture(s, s.homeF[f], f) else s
  }

  lemma CellAfterTake<P, F>(s: State<P, F>, op: Op<P, F>, k: nat)
    requires Inv(s) && Legal(s, op) && k < |s.cells| && op.TakeFuture?
    ensures CellInv(Step(s, op), k)
  {
    assert CellInv(s, k);
    if op.p in s.homeP {
      assert ValidPromise(s, op.p);
    }
  }

  lemma CellAfterPromiseOp<P, F>(s: State<P, F>, op: Op<P, F>, k: nat)
    requires Inv(s) && Legal(s, op) && k < |s.cells|
    requires op.CopyPromise? || op.MovePromise? || op.DropPromise? || op.Resolve?
    ensures CellInv(Step(s, op), k)
  {
    assert CellInv(s, k);
    if s.cells[k].Open? && op.p in s.homeP {
      assert ValidPromise(s, op.p) && CellInv(s, s.homeP[op.p]);
      if op.p in s.cells[k].ps {
        if op.MovePromise? { ReplaceElements(s.cells[k].ps, op.p, op.q); }
        if op.DropPromise? { WithoutElements(s.cells[k].ps, op.p); }
      }
    }
  }

  lemma CellAfterFutureOp<P, F>(s: State<P, F>, op: Op<P, F>, k: nat)
    requires Inv(s) && Legal(s, op) && k < |s.cells|
    requires op.CopyFuture? || op.MoveFuture? || op.DropFuture?
    ensures CellInv(Step(s, op), k)
  {
    assert CellInv(s, k);
    if s.cells[k].Open? && op.f in s.homeF {
      assert ValidFuture(s, op.f) && CellInv(s, s.homeF[op.f]);
      if op.f in s.cells[k].fs {
        if op.MoveFuture? { ReplaceElements(s.cells[k].fs, op.f, op.g); }
        if op.DropFuture? { WithoutElements(s.cells[k].fs, op.f); }
      }
    }
  }

  lemma PromiseAfterStep<P, F>(s: State<P, F>, op: Op<P, F>, x: P)
    requires Inv(s) && Legal(s, op) && x in Step(s, op).homeP
    ensures ValidPromise(Step(s, op), x)
  {
    if x in s.homeP {
      assert ValidPromise(s, x) && CellInv(s, s.homeP[x]);
    }
    match op
    case MovePromise(p, q) =>
      if p in s.homeP {
        assert ValidPromise(s, p) && CellInv(s, s.homeP[p]);
        ReplaceElements(s.cells[s.homeP[p]].ps, p, q);
      }
    case DropPromise(p) =>
      if p in s.homeP {
        assert ValidPromise(s, p) && CellInv(s, s.homeP[p]);
        WithoutElements(s.cells[s.homeP[p]].ps, p);
      }
    case CopyPromise(p, q) =>
      assert ValidPromise(s, p);
      assert q in s.cells[s.homeP[p]].ps + [q];
    case _ =>
  }

  lemma FutureAfterStep<P, F>(s: State<P, F>, op: Op<P, F>, x: F)
    requires Inv(s) && Legal(s, op) && x in Step(s, op).homeF
    ensures ValidFuture(Step(s, op), x)
  {
    if x in s.homeF {
      assert ValidFuture(s, x) && CellInv(s, s.homeF[x]);
    }
    match op
    case MoveFuture(f, g) =>
      if Pending(s, f) {
        assert ValidFuture(s, f) && CellInv(s, s.homeF[f]);
        ReplaceElements(s.cells[s.homeF[f]].fs, f, g);
      }
    case DropFuture(f) =>
      if Pending(s, f) {
        assert ValidFuture(s, f) && CellInv(s, s.homeF[f]);
        WithoutElements(s.cells[s.homeF[f]].fs, f);
      }
    case CopyFuture(f, g) =>
      assert g in s.cells[s.homeF[f]].fs + [g];
    case TakeFuture(p, f, _) =>
      if p in s.homeP { assert ValidPromise(s, p); assert f in s.cells[s.homeP[p]].fs + [f]; }
    case _ =>
  }

  /** Every legal operation leaves every handle in exactly one event. */
  lemma StepKeepsInv<P, F>(s: State<P, F>, op: Op<P, F>)
    requires Inv(s) && Legal(s, op)
    ensures Inv(Step(s, op))
  {
    var t := Step(s, op);
    forall k: nat | k < |t.cells| ensures CellInv(t, k) {
      if k < |s.cells| {
        if op.CopyFuture? || op.MoveFuture? || op.DropFuture? {
          CellAfterFutureOp(s, op, k);
        } else if op.TakeFuture? {
          CellAfterTake(s, op, k);
        } else {
          CellAfterPromiseOp(s, op, k);
        }
      }
    }
    forall p | p in t.homeP ensures ValidPromise(t, p) { PromiseAfterStep(s, op, p); }
    forall f | f in t.homeF ensures ValidFuture(t, f) { FutureAfterStep(s, op, f); }
  }

  /** The event an operation works on; past the last one when it has none yet. */
  function EventOf<P, F>(s: State<P, F>, op: Op<P, F>): nat {
    if op.CopyFuture? || op.MoveFuture? || op.DropFuture? then
      if op.f in s.homeF then s.homeF[op.f] else |s.cells|
    else
      if op.p in s.homeP then s.homeP[op.p] else |s.cells|
  }

  /** Events other than k, and the handles that belong to them, are the same in s and t. */
  ghost predicate SameBut<P, F>(s: State<P, F>, t: State<P, F>, k: nat) {
    && |s.cells| <= |t.cells|
    && (forall j: nat :: j < |t.cells| && j != k ==> j < |s.cells| && t.cells[j] == s.cells[j])
    && (forall p <- s.homeP :: s.homeP[p] != k ==> p in t.homeP && t.homeP[p] == s.homeP[p])
    && (forall p <- t.homeP :: t.homeP[p] != k ==> p in s.homeP && t.homeP[p] == s.homeP[p])
    && (forall f <- s.homeF :: s.homeF[f] != k ==> f in t.homeF && t.homeF[f] == s.homeF[f])
    && (forall f <- t.homeF :: t.homeF[f] != k ==> f in s.homeF && t.homeF[f] == s.homeF[f])
  }

  lemma OneTake<P, F>(s: State<P, F>, op: Op<P, F>)
    requires Inv(s) && Legal(s, op) && op.TakeFuture?
    ensures SameBut(s, Step(s, op), EventOf(s, op))
  {
    if op.p in s.homeP {
      assert ValidPromise(s, op.p);
    }
  }

  lemma OnePromiseEvent<P, F>(s: State<P, F>, op: Op<P, F>)
    requires Inv(s) && Legal(s, op)
    requires op.CopyPromise? || op.MovePromise? || op.DropPromise? || op.Resolve?
    ensures SameBut(s, Step(s, op), EventOf(s, op))
  {
    if op.p in s.homeP {
      assert ValidPromise(s, op.p);
      assert CellInv(s, s.homeP[op.p]);
    }
  }

  lemma OneFutureEvent<P, F>(s: State<P, F>, op: Op<P, F>)
    requires Inv(s) && Legal(s, op)
    requires op.CopyFuture? || op.MoveFuture? || op.DropFuture?
    ensures SameBut(s, Step(s, op), EventOf(s, op))
  {
    if op.f in s.homeF {
      assert ValidFuture(s, op.f);
      assert CellInv(s, s.homeF[op.f]);
    }
  }

  /** No operation reaches a second event. */
  lemma OneEventOnly<P, F>(s: State<P, F>, op: Op<P, F>)
    requires Inv(s) && Legal(s, op)
    ensures SameBut(s, Step(s, op), EventOf(s, op))
  {
    hide Inv, Legal, SameBut, Step, EventOf;
    if op.CopyFuture? || op.MoveFuture? || op.DropFuture? {
      OneFutureEvent(s, op);
    } else if op.TakeFuture? {
      OneTake(s, op);
    } else {
      OnePromiseEvent(s, op);
    }
  }

  /** The step op settles event k with outcome o: a promise of k is set, or the last copy dies. */
  ghost predicate Settles<P, F>(s: State<P, F>, op: Op<P, F>, k: nat, o: Outcome) {
    && k < |s.cells| && s.cells[k].Open?
    && match op
       case Resolve(p, v) => p in s.cells[k].ps && o == v
       case DropPromise(p) => s.cells[k].ps == [p] && o == Failure(BrokenPromise)
       case _ => false
  }

  /** Resolution is all or nothing. Exactly when op settles event k, every future waiting on k
      sees the one outcome and every promise of k is invalid; otherwise all of k's surviving
      futures are still pending, unless the last future itself went away. */
  lemma AllOrNothing<P, F>(s: State<P, F>, op: Op<P, F>, k: nat)
    requires Inv(s) && Legal(s, op) && k < |s.cells| && s.cells[k].Open?
    ensures var t := Step(s, op); Inv(t) && |s.cells| <= |t.cells|
    ensures var t := Step(s, op); t.cells[k].Settled? <==> exists o :: Settles(s, op, k, o)
    ensures var t := Step(s, op); forall o :: Settles(s, op, k, o) ==>
              && (forall f <- s.cells[k].fs :: Observed(t, f) == Some(o))
              && (forall p <- s.cells[k].ps :: p !in t.homeP)
    ensures var t := Step(s, op); !t.cells[k].Settled? ==> forall f <- s.cells[k].fs :: Observed(t, f) == None
    ensures var t := Step(s, op); t.cells[k].Abandoned? <==> op.DropFuture? && s.cells[k].fs == [op.f]
    ensures var t := Step(s, op); t.cells[k].Abandoned? ==> forall p <- s.cells[k].ps :: p !in t.homeP
  {
    StepKeepsInv(s, op);
    assert CellInv(s, k);
    var t := Step(s, op);
    if !op.CopyFuture? && !op.MoveFuture? && !op.DropFuture? && op.p in s.homeP {
      assert ValidPromise(s, op.p) && CellInv(s, s.homeP[op.p]);
    }
    if (op.CopyFuture? || op.MoveFuture? || op.DropFuture?) && op.f in s.homeF {
      assert ValidFuture(s, op.f) && CellInv(s, s.homeF[op.f]);
    }
    if t.cells[k].Settled? { assert Settles(s, op, k, t.cells[k].outcome); }
  }

  ghost predicate LegalRun<P, F>(s: State<P, F>, ops: seq<Op<P, F>>)
    requires Inv(s)
    decreases |ops|
  {
    ops == [] || (Legal(s, ops[0]) && (StepKeepsInv(s, ops[0]); LegalRun(Step(s, ops[0]), ops[1..])))
  }

  ghost function Run<P, F>(s: State<P, F>, ops: seq<Op<P, F>>): (t: State<P, F>)
    requires Inv(s) && LegalRun(s, ops)
    ensures Inv(t) && |s.cells| <= |t.cells|
    decreases |ops|
  {
    if ops == [] then s else
      StepKeepsInv(s, ops[0]);
      Run(Step(s, ops[0]), ops[1..])
  }

  /** Over every run an event is resolved at most once: a closed event never changes again. */
  lemma {:induction false} ClosedIsFinal<P, F>(s: State<P, F>, ops: seq<Op<P, F>>, k: nat)
    requires Inv(s) && LegalRun(s, ops) && k < |s.cells| && !s.cells[k].Open?
    ensures Run(s, ops).cells[k] == s.cells[k]
    decreases |ops|
  {
    if ops != [] {
      var op := ops[0];
      if !op.CopyFuture? && !op.MoveFuture? && !op.DropFuture? && op.p in s.homeP {
        assert ValidPromise(s, op.p);
      }
      if (op.CopyFuture? || op.MoveFuture? || op.DropFuture?) && op.f in s.homeF {
        assert ValidFuture(s, op.f);
      }
      StepKeepsInv(s, op);
      ClosedIsFinal(Step(s, op), ops[1..], k);
    }
  }

  /** Over every run, an outcome comes from one operation on a promise of the same event:
      no event settles on its own, and none settles with anything but what that operation said. */
  lemma {:induction false} OutcomeHasCause<P, F>(s: State<P, F>, ops: seq<Op<P, F>>, k: nat)
    returns (i: nat)
    requires Inv(s) && LegalRun(s, ops) && k < |s.cells| && s.cells[k].Open?
    requires Run(s, ops).cells[k].Settled?
    ensures i < |ops| && LegalRun(s, ops[..i])
    ensures Settles(Run(s, ops[..i]), ops[i], k, Run(s, ops).cells[k].outcome)
    decreases |ops|
  {
    AllOrNothing(s, ops[0], k);
    var t := Step(s, ops[0]);
    if t.cells[k].Open? {
      var j := OutcomeHasCause(t, ops[1..], k);
      i := j + 1;
      assert ops[..i][1..] == ops[1..][..j] && ops[..i][0] == ops[0];
    } else {
      ClosedIsFinal(t, ops[1..], k);
      i := 0;
    }
  }
}
