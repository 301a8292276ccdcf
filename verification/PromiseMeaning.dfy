/** What promises and futures mean to each other, with no events in sight: every pending future waits
    on a set of promises, every other one holds an outcome. The machine of events in PromiseSpec does
    exactly this, over every run. */
module PromiseMeaning {
  import opened Basics
  import opened PromiseSpec

  /** waits: the promises that can settle a pending future. seen: what the settled futures hold. */
  datatype View<P(==), F(==)> = View(waits: map<F, set<P>>, seen: map<F, Outcome>)

  /** The promises that settle the same futures as p. */
  ghost function Copies<P, F>(v: View<P, F>, p: P): set<P> {
    set f <- v.waits, q <- v.waits[f] | p in v.waits[f] :: q
  }

  ghost predicate Speaks<P, F>(v: View<P, F>, p: P) {
    exists f <- v.waits :: p in v.waits[f]
  }

  /** A further future waits on the same promises, and a first one on its promise with the copies still
      behind it. A copy settles what the original does, and a moved handle stands in for the old one.
      An outcome reaches all that wait on the promise; so does its last copy's end. */
  ghost function After<P, F>(v: View<P, F>, op: Op<P, F>): View<P, F> {
    match op
    case TakeFuture(p, f, stale) =>
      v.(waits := v.waits[f := if Speaks(v, p) then Copies(v, p) else ToSet([p] + stale)])
    case CopyPromise(p, q) =>
      v.(waits := map f <- v.waits :: if p in v.waits[f] then v.waits[f] + {q} else v.waits[f])
    case MovePromise(p, q) =>
      v.(waits := map f <- v.waits :: if p in v.waits[f] then v.waits[f] - {p} + {q} else v.waits[f])
    case DropPromise(p) =>
      View((map f <- v.waits | v.waits[f] != {p} :: v.waits[f] - {p}),
           v.seen + (map f <- v.waits | v.waits[f] == {p} :: Failure(BrokenPromise)))
    case Resolve(p, o) =>
      View((map f <- v.waits | p !in v.waits[f] :: v.waits[f]),
           v.seen + (map f <- v.waits | p in v.waits[f] :: o))
    case CopyFuture(f, g) => if f in v.waits then v.(waits := v.waits[g := v.waits[f]]) else v
    case MoveFuture(f, g) =>
      if f in v.waits then v.(waits := (v.waits - {f})[g := v.waits[f]])
      else if f in v.seen then v.(seen := (v.seen - {f})[g := v.seen[f]])
      else v
    case DropFuture(f) => View(v.waits - {f}, v.seen - {f})
  }

  ghost function ViewOf<P, F>(s: State<P, F>): View<P, F>
    requires Inv(s)
  {
    View((map f <- s.homeF | ValidFuture(s, f) && s.cells[s.homeF[f]].Open? :: ToSet(s.cells[s.homeF[f]].ps)),
         (map f <- s.homeF | ValidFuture(s, f) && s.cells[s.homeF[f]].Settled? :: s.cells[s.homeF[f]].outcome))
  }

  lemma ViewAt<P, F>(s: State<P, F>)
    requires Inv(s)
    ensures forall f :: f in s.homeF ==> s.homeF[f] < |s.cells| && !s.cells[s.homeF[f]].Abandoned?
    ensures forall f :: f in ViewOf(s).waits <==> f in s.homeF && s.cells[s.homeF[f]].Open?
    ensures forall f <- ViewOf(s).waits :: ViewOf(s).waits[f] == ToSet(s.cells[s.homeF[f]].ps)
    ensures forall f :: f in ViewOf(s).seen <==> f in s.homeF && s.cells[s.homeF[f]].Settled?
    ensures forall f <- ViewOf(s).seen :: ViewOf(s).seen[f] == s.cells[s.homeF[f]].outcome
  {
    assert forall f :: f in s.homeF ==> ValidFuture(s, f);
  }

  lemma ChangedSet<T>(c: seq<T>, x: T, y: T)
    ensures ToSet(c + [y]) == ToSet(c) + {y}
    ensures Distinct(c) && x in c ==> ToSet(Without(c, x)) == ToSet(c) - {x}
    ensures Distinct(c) && x in c && y !in c ==> ToSet(Replace(c, x, y)) == ToSet(c) - {x} + {y}
  {
    if Distinct(c) && x in c {
      WithoutElements(c, x);
      if y !in c { ReplaceElements(c, x, y); }
    }
  }

  /** A promise speaks to the futures of its event and to no others. */
  lemma EventView<P, F>(s: State<P, F>, p: P)
    requires Inv(s)
    ensures forall f <- ViewOf(s).waits :: p in ViewOf(s).waits[f] <==> p in s.homeP && s.homeP[p] == s.homeF[f]
    ensures Speaks(ViewOf(s), p) <==> p in s.homeP
    ensures p in s.homeP ==> ValidPromise(s, p) && CellInv(s, s.homeP[p])
    ensures p in s.homeP ==> Copies(ViewOf(s), p) == ToSet(s.cells[s.homeP[p]].ps)
    ensures p in s.homeP ==> (|s.cells[s.homeP[p]].ps| == 1 <==> ToSet(s.cells[s.homeP[p]].ps) == {p})
  {
    var v := ViewOf(s);
    forall f | f in v.waits ensures p in v.waits[f] <==> p in s.homeP && s.homeP[p] == s.homeF[f] {
      assert ValidFuture(s, f) && CellInv(s, s.homeF[f]);
      if p in s.homeP { assert ValidPromise(s, p); }
    }
    if p in s.homeP {
      assert ValidPromise(s, p) && CellInv(s, s.homeP[p]);
      var c := s.cells[s.homeP[p]];
      assert c.fs[0] in c.fs && ValidFuture(s, c.fs[0]) && c.fs[0] in v.waits;
      if |c.ps| > 1 {
        assert c.ps[0] in ToSet(c.ps) && c.ps[1] in ToSet(c.ps);
      } else {
        assert c.ps == [p] && forall x :: x in ToSet(c.ps) <==> x == p;
      }
    }
  }

  lemma FutureEvent<P, F>(s: State<P, F>, f: F)
    requires Inv(s) && f in s.homeF
    ensures ValidFuture(s, f) && CellInv(s, s.homeF[f])
  {
    assert ValidFuture(s, f) && CellInv(s, s.homeF[f]);
  }

  lemma SameView<P, F>(a: View<P, F>, b: View<P, F>)
    requires forall f :: f in a.waits <==> f in b.waits
    requires forall f <- a.waits :: f in b.waits ==> a.waits[f] == b.waits[f]
    requires forall f :: f in a.seen <==> f in b.seen
    requires forall f <- a.seen :: f in b.seen ==> a.seen[f] == b.seen[f]
    ensures a == b
  {
    assert a.waits == b.waits && a.seen == b.seen;
  }

  /** A promise without an event changes nothing. */
  lemma StepNothing<P, F>(s: State<P, F>, op: Op<P, F>)
    requires Inv(s) && Legal(s, op) && (op.MovePromise? || op.DropPromise? || op.Resolve?) && op.p !in s.homeP
    ensures ViewOf(Step(s, op)) == After(ViewOf(s), op)
  {
    EventView(s, op.p);
    hide Inv, CellInv, ViewOf;
    SameView(ViewOf(s), After(ViewOf(s), op));
  }

  lemma StepNoFuture<P, F>(s: State<P, F>, op: Op<P, F>)
    requires Inv(s) && Legal(s, op) && (op.MoveFuture? || op.DropFuture?) && op.f !in s.homeF
    ensures ViewOf(Step(s, op)) == After(ViewOf(s), op)
  {
    ViewAt(s);
    hide Inv, CellInv, ViewOf;
    SameView(ViewOf(s), After(ViewOf(s), op));
  }

  lemma StepTakeFirst<P, F>(s: State<P, F>, op: Op<P, F>)
    requires Inv(s) && Legal(s, op) && op.TakeFuture? && op.p !in s.homeP && Inv(Step(s, op))
    ensures ViewOf(Step(s, op)) == After(ViewOf(s), op)
  {
    hide Inv, CellInv, ViewOf, ToSet, Speaks, Copies;
    ViewAt(s);
    ViewAt(Step(s, op));
    EventView(s, op.p);
    SameView(ViewOf(Step(s, op)), After(ViewOf(s), op));
  }

  lemma StepTakeFurther<P, F>(s: State<P, F>, op: Op<P, F>)
    requires Inv(s) && Legal(s, op) && op.TakeFuture? && op.p in s.homeP && Inv(Step(s, op))
    ensures ViewOf(Step(s, op)) == After(ViewOf(s), op)
  {
    hide Inv, CellInv, ViewOf, ToSet, Speaks, Copies;
    ViewAt(s);
    ViewAt(Step(s, op));
    EventView(s, op.p);
    SameView(ViewOf(Step(s, op)), After(ViewOf(s), op));
  }

  lemma StepCopyPromise<P, F>(s: State<P, F>, op: Op<P, F>)
    requires Inv(s) && Legal(s, op) && op.CopyPromise? && Inv(Step(s, op))
    ensures ViewOf(Step(s, op)) == After(ViewOf(s), op)
  {
    hide Inv, CellInv, ViewOf, ToSet, Speaks, Copies, Without, Replace;
    ViewAt(s);
    ViewAt(Step(s, op));
    EventView(s, op.p);
    if op.p in s.homeP { ChangedSet(s.cells[s.homeP[op.p]].ps, op.p, op.q); }
    SameView(ViewOf(Step(s, op)), After(ViewOf(s), op));
  }

  lemma StepMovePromise<P, F>(s: State<P, F>, op: Op<P, F>)
    requires Inv(s) && Legal(s, op) && op.MovePromise? && op.p in s.homeP && Inv(Step(s, op))
    ensures ViewOf(Step(s, op)) == After(ViewOf(s), op)
  {
    hide Inv, CellInv, ViewOf, ToSet, Speaks, Copies, Without, Replace;
    ViewAt(s);
    ViewAt(Step(s, op));
    EventView(s, op.p);
    ChangedSet(s.cells[s.homeP[op.p]].ps, op.p, op.q);
    SameView(ViewOf(Step(s, op)), After(ViewOf(s), op));
  }

  lemma StepDropPromise<P, F>(s: State<P, F>, op: Op<P, F>)
    requires Inv(s) && Legal(s, op) && op.DropPromise? && op.p in s.homeP && Inv(Step(s, op))
    ensures ViewOf(Step(s, op)) == After(ViewOf(s), op)
  {
    hide Inv, CellInv, ViewOf, ToSet, Speaks, Copies, Without, Replace;
    ViewAt(s);
    ViewAt(Step(s, op));
    EventView(s, op.p);
    ChangedSet(s.cells[s.homeP[op.p]].ps, op.p, op.p);
    SameView(ViewOf(Step(s, op)), After(ViewOf(s), op));
  }

  lemma StepResolve<P, F>(s: State<P, F>, op: Op<P, F>)
    requires Inv(s) && Legal(s, op) && op.Resolve? && op.p in s.homeP && Inv(Step(s, op))
    ensures ViewOf(Step(s, op)) == After(ViewOf(s), op)
  {
    hide Inv, CellInv, ViewOf, ToSet, Speaks, Copies, Without, Replace;
    ViewAt(s);
    ViewAt(Step(s, op));
    EventView(s, op.p);
    SameView(ViewOf(Step(s, op)), After(ViewOf(s), op));
  }

  lemma StepCopyFuture<P, F>(s: State<P, F>, op: Op<P, F>)
    requires Inv(s) && Legal(s, op) && op.CopyFuture? && Inv(Step(s, op))
    ensures ViewOf(Step(s, op)) == After(ViewOf(s), op)
  {
    hide Inv, CellInv, ViewOf, ToSet, Speaks, Copies, Without, Replace;
    ViewAt(s);
    ViewAt(Step(s, op));
    if op.f in s.homeF { FutureEvent(s, op.f); }
    SameView(ViewOf(Step(s, op)), After(ViewOf(s), op));
  }

  lemma StepMoveFuture<P, F>(s: State<P, F>, op: Op<P, F>)
    requires Inv(s) && Legal(s, op) && op.MoveFuture? && op.f in s.homeF && Inv(Step(s, op))
    ensures ViewOf(Step(s, op)) == After(ViewOf(s), op)
  {
    hide Inv, CellInv, ViewOf, ToSet, Speaks, Copies, Without, Replace;
    ViewAt(s);
    ViewAt(Step(s, op));
    FutureEvent(s, op.f);
    SameView(ViewOf(Step(s, op)), After(ViewOf(s), op));
  }

  lemma StepDropFuture<P, F>(s: State<P, F>, op: Op<P, F>)
    requires Inv(s) && Legal(s, op) && op.DropFuture? && op.f in s.homeF && Inv(Step(s, op))
    ensures ViewOf(Step(s, op)) == After(ViewOf(s), op)
  {
    hide Inv, CellInv, ViewOf, ToSet, Speaks, Copies, Without, Replace;
    ViewAt(s);
    ViewAt(Step(s, op));
    FutureEvent(s, op.f);
    SameView(ViewOf(Step(s, op)), After(ViewOf(s), op));
  }

  /** Every step of the machine is the step of the meaning. */
  lemma StepIsAfter<P, F>(s: State<P, F>, op: Op<P, F>)
    requires Inv(s) && Legal(s, op)
    ensures Inv(Step(s, op)) && ViewOf(Step(s, op)) == After(ViewOf(s), op)
  {
    hide Inv, Legal, Step, ViewOf, After;
    StepKeepsInv(s, op);
    match op
    case TakeFuture(p, _, _) => if p in s.homeP { StepTakeFurther(s, op); } else { StepTakeFirst(s, op); }
    case CopyPromise(_, _) => StepCopyPromise(s, op);
    case MovePromise(p, _) => if p in s.homeP { StepMovePromise(s, op); } else { StepNothing(s, op); }
    case DropPromise(p) => if p in s.homeP { StepDropPromise(s, op); } else { StepNothing(s, op); }
    case Resolve(p, _) => if p in s.homeP { StepResolve(s, op); } else { StepNothing(s, op); }
    case CopyFuture(_, _) => StepCopyFuture(s, op);
    case MoveFuture(f, _) => if f in s.homeF { StepMoveFuture(s, op); } else { StepNoFuture(s, op); }
    case DropFuture(f) => if f in s.homeF { StepDropFuture(s, op); } else { StepNoFuture(s, op); }
  }

  ghost function AfterAll<P, F>(v: View<P, F>, ops: seq<Op<P, F>>): View<P, F>
    decreases |ops|
  {
    if ops == [] then v else AfterAll(After(v, ops[0]), ops[1..])
  }

  /** Over every run, who waits on whom and what everyone has seen is what the meaning says. */
  lemma {:induction false} RunIsAfter<P, F>(s: State<P, F>, ops: seq<Op<P, F>>)
    requires Inv(s) && LegalRun(s, ops)
    ensures ViewOf(Run(s, ops)) == AfterAll(ViewOf(s), ops)
    decreases |ops|
  {
    hide Inv, Legal, Step, ViewOf, After;
    if ops != [] {
      StepIsAfter(s, ops[0]);
      RunIsAfter(Step(s, ops[0]), ops[1..]);
    }
  }

  /** Setting a promise is seen by exactly the futures that wait on it. */
  lemma ResolveSeen<P, F>(s: State<P, F>, p: P, o: Outcome, f: F)
    requires Inv(s)
    ensures Legal(s, Resolve(p, o)) && Inv(Step(s, Resolve(p, o)))
    ensures Observed(Step(s, Resolve(p, o)), f) ==
            if f in ViewOf(s).waits && p in ViewOf(s).waits[f] then Some(o) else Observed(s, f)
  {
    hide Inv, Step, ViewOf;
    var op := Op<P, F>.Resolve(p, o);
    StepIsAfter(s, op);
    ViewAt(s);
    ViewAt(Step(s, op));
  }

  /** A copy settles what its original does, and so does the original still. */
  lemma CopySettles<P, F>(s: State<P, F>, p: P, q: P, x: P, o: Outcome, f: F)
    requires Inv(s) && Legal(s, Op.CopyPromise(p, q)) && f in ViewOf(s).waits && p in ViewOf(s).waits[f]
    requires x == p || x == q
    ensures var t := Step(s, Op.CopyPromise(p, q)); Inv(t) && Observed(Step(t, Resolve(x, o)), f) == Some(o)
  {
    hide Inv, Step, Legal, ViewOf, Observed;
    StepIsAfter(s, Op.CopyPromise(p, q));
    ResolveSeen(Step(s, Op.CopyPromise(p, q)), x, o, f);
  }

  /** The moved-to promise settles what the moved-from one did, which settles nothing any more. */
  lemma MoveSettles<P, F>(s: State<P, F>, p: P, q: P, o: Outcome, f: F)
    requires Inv(s) && Legal(s, Op.MovePromise(p, q)) && f in ViewOf(s).waits && p in ViewOf(s).waits[f] && p != q
    ensures var t := Step(s, Op.MovePromise(p, q));
            && Inv(t) && Observed(Step(t, Resolve(q, o)), f) == Some(o)
            && Observed(Step(t, Resolve(p, o)), f) == None
  {
    hide Inv, Step, Legal, ViewOf;
    var t := Step(s, Op.MovePromise(p, q));
    StepIsAfter(s, Op.MovePromise(p, q));
    ResolveSeen(t, q, o, f);
    ResolveSeen(t, p, o, f);
    ViewAt(t);
  }

  /** A future sees what is set on the promise it was taken from. */
  lemma TakenSees<P, F>(s: State<P, F>, p: P, f: F, stale: seq<P>, o: Outcome)
    requires Inv(s) && Legal(s, Op.TakeFuture(p, f, stale))
    ensures var t := Step(s, Op.TakeFuture(p, f, stale)); Inv(t) && Observed(Step(t, Resolve(p, o)), f) == Some(o)
  {
    hide Inv, Step, Legal, ViewOf, Observed;
    StepIsAfter(s, Op.TakeFuture(p, f, stale));
    ResolveSeen(Step(s, Op.TakeFuture(p, f, stale)), p, o, f);
  }

  /** A copied or moved future sees what the original would have. */
  lemma SharedSees<P, F>(s: State<P, F>, f: F, g: F, p: P, o: Outcome, move: bool)
    requires Inv(s) && f in ViewOf(s).waits && g !in s.homeF
    ensures var op: Op<P, F> := if move then Op.MoveFuture(f, g) else Op.CopyFuture(f, g);
            && Legal(s, op) && Inv(Step(s, op))
            && Observed(Step(Step(s, op), Resolve(p, o)), g) == Observed(Step(s, Resolve(p, o)), f)
  {
    var op: Op<P, F> := if move then Op.MoveFuture(f, g) else Op.CopyFuture(f, g);
    ViewAt(s);
    assert Legal(s, op);
    StepIsAfter(s, op);
    ViewAt(Step(s, op));
    hide Inv, Step, ViewOf;
    ResolveSeen(Step(s, op), p, o, g);
    ResolveSeen(s, p, o, f);
  }

  /** A copy that goes away leaves the others speaking, and a future that goes away the others waiting. */
  lemma DropLeaves<P, F>(s: State<P, F>, op: Op<P, F>, x: P, o: Outcome, f: F)
    requires Inv(s) && f in ViewOf(s).waits && x in ViewOf(s).waits[f]
    requires (op.DropPromise? && op.p != x) || (op.DropFuture? && op.f != f)
    ensures Legal(s, op) && Inv(Step(s, op)) && Observed(Step(Step(s, op), Resolve(x, o)), f) == Some(o)
  {
    assert Legal(s, op);
    hide Inv, Step, ViewOf, Observed;
    StepIsAfter(s, op);
    ResolveSeen(Step(s, op), x, o, f);
  }

  /** A moved future keeps what was seen, and the old one sees nothing. */
  lemma MovedKeeps<P, F>(s: State<P, F>, f: F, g: F)
    requires Inv(s) && Legal(s, Op.MoveFuture(f, g)) && f != g
    ensures var t := Step(s, Op.MoveFuture(f, g));
            Inv(t) && Observed(t, g) == Observed(s, f) && Observed(t, f) == None
  {
    hide Inv, Step, ViewOf;
    StepIsAfter(s, Op.MoveFuture(f, g));
    ViewAt(s);
    ViewAt(Step(s, Op.MoveFuture(f, g)));
  }
}
