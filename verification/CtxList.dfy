/** The intrusive doubly linked list of contexts (ircd/ctx.cc:3003-3265) and the dock built on it
    (ircd/ctx.cc:2802-3000). Every context carries one node, so it is in at most one list. */
module CtxList {
  import opened Basics

  class Ctx {
    const id: nat
    var prev: Ctx?
    var next: Ctx?
    var notes: nat
    /** The alarm was cancelled: the context will resume. */
    var woken: bool

    constructor (id: nat)
      ensures this.id == id && Isolated() && notes == 0 && !woken
    {
      this.id, prev, next, notes, woken := id, null, null, 0, false;
    }

    predicate Isolated()
      reads this`prev, this`next
    {
      prev == null && next == null
    }

    /** note(): only the first note of a suspended context wakes it. */
    method Note(current: Ctx?) returns (first: bool)
      modifies this`notes, this`woken
      ensures notes == old(notes) + 1
      ensures first == (old(notes) == 0)
      ensures woken == (old(woken) || (first && this != current))
    {
      notes := notes + 1;
      if notes - 1 > 0 {
        return false;
      }
      if this != current {
        woken := true;
      }
      return true;
    }

    /** wait(), up to the switch: the notes are cleared and the alarm is armed. */
    method Suspend()
      modifies this`notes, this`woken
      ensures notes == 0 && !woken
    {
      notes, woken := 0, false;
    }

    /** Back from the switch: awake, with one note. */
    method Enter()
      modifies this`notes, this`woken
      ensures notes == 1 && !woken
    {
      notes, woken := 1, false;
    }
  }

  predicate Sorted(q: seq<Ctx>) {
    forall i, j :: 0 <= i < j < |q| ==> q[i].id <= q[j].id
  }

  /** The place of the first context with a greater id. */
  function SortedPlace(q: seq<Ctx>, id: nat): (k: nat)
    ensures k <= |q|
    ensures forall i :: 0 <= i < k ==> q[i].id <= id
    ensures k < |q| ==> id < q[k].id
  {
    if q == [] || id < q[0].id then 0 else 1 + SortedPlace(q[1..], id)
  }

  function Removed<T>(q: seq<T>, k: nat): seq<T>
    requires k < |q|
  {
    q[..k] + q[k + 1..]
  }

  /** Inserting before the first greater id keeps a sorted queue sorted, behind its equals. */
  lemma SortedInsert(q: seq<Ctx>, c: Ctx)
    requires Sorted(q)
    ensures Sorted(Inserted(q, SortedPlace(q, c.id), c))
    ensures forall i :: 0 <= i < |q| && q[i].id == c.id ==> i < SortedPlace(q, c.id)
  {
    hide SortedPlace, Inserted;
    var k := SortedPlace(q, c.id);
    InsertedAt(q, k, c);
    var r := Inserted(q, k, c);
    forall i, j | 0 <= i < j < |r| ensures r[i].id <= r[j].id {
      assert r[i] == if i < k then q[i] else if i == k then c else q[i - 1];
      if j < k {
        assert q[i].id <= q[j].id && r[j] == q[j];
      } else if j > k {
        assert r[j] == q[j - 1];
        assert q[k].id <= q[j - 1].id;
        if i < k { assert q[i].id <= q[k].id; } else if i > k { assert q[i - 1].id <= q[j - 1].id; }
      }
    }
    forall i | k <= i < |q| ensures c.id < q[i].id {
      assert k < i ==> q[k].id <= q[i].id;
    }
  }

  /** One step of the search for the place, from k on. */
  lemma PlaceFrom(q: seq<Ctx>, k: nat, id: nat)
    requires k <= |q|
    ensures k == 0 ==> q[k..] == q
    ensures SortedPlace(q[k..], id) ==
            if k == |q| || id < q[k].id then 0 else 1 + SortedPlace(q[k + 1..], id)
  {
    if k < |q| {
      assert q[k..][1..] == q[k + 1..];
    }
  }

  lemma InsertedDistinct<T>(q: seq<T>, k: nat, c: T)
    requires k <= |q| && Distinct(q) && c !in q
    ensures Distinct(Inserted(q, k, c))
  {
  }

  ghost predicate Linked(q: seq<Ctx>)
    reads q`prev, q`next
  {
    forall i {:trigger q[i].prev} {:trigger q[i].next} :: 0 <= i < |q| ==>
      && q[i].prev == (if i == 0 then null else q[i - 1])
      && q[i].next == (if i == |q| - 1 then null else q[i + 1])
  }

  class List {
    var head: Ctx?
    var tail: Ctx?
    ghost var q: seq<Ctx>

    ghost predicate Valid()
      reads this, q`prev, q`next
    {
      && Distinct(q) && Linked(q)
      && head == (if q == [] then null else q[0])
      && tail == (if q == [] then null else q[|q| - 1])
    }

    constructor ()
      ensures Valid() && q == []
    {
      head, tail, q := null, null, [];
    }

    predicate Empty()
      requires Valid()
      reads this, q`prev, q`next
      ensures Empty() <==> q == []
    {
      head == null
    }

    method PushFront(c: Ctx)
      requires Valid() && c !in q && c.Isolated()
      modifies this, c`next, q`prev
      ensures Valid() && q == [c] + old(q)
    {
      if head == null {
        head, tail, q := c, c, [c];
        return;
      }
      head.prev := c;
      c.next := head;
      head := c;
      q := [c] + q;
    }

    method PushBack(c: Ctx)
      requires Valid() && c !in q && c.Isolated()
      modifies this, c`prev, q`next
      ensures Valid() && q == old(q) + [c]
    {
      if tail == null {
        head, tail, q := c, c, [c];
        return;
      }
      tail.next := c;
      c.prev := tail;
      tail := c;
      q := q + [c];
    }

    method PushAfter(o: Ctx, c: Ctx, ghost k: nat)
      requires Valid() && c !in q && c.Isolated() && k < |q| && q[k] == o
      modifies this, c`prev, c`next, q`prev, q`next
      ensures Valid() && q == Inserted(old(q), k + 1, c)
    {
      ghost var was, r := q, Inserted(q, k + 1, c);
      InsertedDistinct(q, k + 1, c);
      c.prev := o;
      c.next := o.next;
      o.next := c;
      if c.next != null {
        c.next.prev := c;
      }
      if tail == o {
        tail := c;
      }
      q := r;
      assert Linked(q) by {
        forall i {:trigger r[i].prev} | 0 <= i < |r|
          ensures r[i].prev == (if i == 0 then null else r[i - 1])
          ensures r[i].next == (if i == |r| - 1 then null else r[i + 1])
        {
          if i <= k {
            assert r[i] == was[i];
          } else if i > k + 1 {
            assert r[i] == was[i - 1];
          }
        }
      }
    }

    method PushBefore(o: Ctx, c: Ctx, ghost k: nat)
      requires Valid() && c !in q && c.Isolated() && k < |q| && q[k] == o
      modifies this, c`prev, c`next, q`prev, q`next
      ensures Valid() && q == Inserted(old(q), k, c)
    {
      InsertedDistinct(q, k, c);
      assert o.prev == if k == 0 then null else q[k - 1];
      c.next := o;
      c.prev := o.prev;
      o.prev := c;
      if c.prev != null {
        c.prev.next := c;
      }
      if head == o {
        head := c;
      }
      q := Inserted(q, k, c);
    }

    /** The first context with a greater id. */
    method FirstGreater(id: nat) returns (o: Ctx?, ghost k: nat)
      requires Valid()
      ensures k == SortedPlace(q, id) <= |q| && o == if k < |q| then q[k] else null
    {
      hide SortedPlace;
      o, k := head, 0;
      PlaceFrom(q, 0, id);
      while o != null && o.id <= id
        invariant k <= |q| && o == if k < |q| then q[k] else null
        invariant SortedPlace(q, id) == k + SortedPlace(q[k..], id)
        decreases |q| - k
      {
        assert o.next == if k == |q| - 1 then null else q[k + 1];
        PlaceFrom(q, k, id);
        o := o.next;
        k := k + 1;
      }
      PlaceFrom(q, k, id);
    }

    method PushSort(c: Ctx)
      requires Valid() && c !in q && c.Isolated()
      modifies this, c`prev, c`next, q`prev, q`next
      ensures Valid() && q == Inserted(old(q), SortedPlace(old(q), c.id), c)
      ensures Sorted(old(q)) ==> Sorted(q)
    {
      var o, k := FirstGreater(c.id);
      hide SortedPlace, Sorted;
      if Sorted(q) {
        SortedInsert(q, c);
      }
      if o != null {
        PushBefore(o, c, k);
        return;
      }
      PushBack(c);
    }

    method PopFront() returns (c: Ctx?)
      requires Valid()
      modifies this, q`prev, q`next
      ensures Valid()
      ensures old(q) == [] ==> c == null && q == []
      ensures old(q) != [] ==> c == old(q)[0] && c.Isolated() && q == old(q)[1..]
    {
      c := head;
      if c == null {
        return;
      }
      if c.next == null {
        head, tail := null, null;
      } else {
        c.next.prev := null;
        head := c.next;
      }
      c.prev, c.next := null, null;
      q := q[1..];
    }

    method PopBack() returns (c: Ctx?)
      requires Valid()
      modifies this, q`prev, q`next
      ensures Valid()
      ensures old(q) == [] ==> c == null && q == []
      ensures old(q) != [] ==> c == old(q)[|old(q)| - 1] && c.Isolated() && q == old(q)[..|old(q)| - 1]
    {
      c := tail;
      if c == null {
        return;
      }
      if c.prev == null {
        head, tail := null, null;
      } else {
        c.prev.next := null;
        tail := c.prev;
      }
      c.prev, c.next := null, null;
      q := q[..|q| - 1];
    }

    method Unlink(c: Ctx, ghost k: nat)
      requires Valid() && 0 < k < |q| - 1 && q[k] == c
      modifies this`q, q`prev, q`next
      ensures Valid() && c.Isolated() && q == Removed(old(q), k)
    {
      c.next.prev := c.prev;
      c.prev.next := c.next;
      c.next := null;
      c.prev := null;
      q := Removed(q, k);
    }

    method Remove(c: Ctx)
      requires Valid() && c in q
      modifies this, q`prev, q`next
      ensures Valid() && c.Isolated() && q == Without(old(q), c)
    {
      ghost var k := IndexOf(q, c);
      if c == head {
        var _ := PopFront();
      } else if c == tail {
        var _ := PopBack();
      } else {
        Unlink(c, k);
      }
    }

    method Size() returns (n: nat)
      requires Valid()
      ensures n == |q|
    {
      n := 0;
      var c := head;
      while c != null
        invariant n <= |q| && c == if n < |q| then q[n] else null
        decreases |q| - n
      {
        assert q[n].next == q[n].next;
        n, c := n + 1, c.next;
      }
    }
  }

  // ----- the dock -----

  datatype Order = Fifo | Lifo | Sort

  function Rotated<T>(q: seq<T>): seq<T> {
    if q == [] then [] else q[1..] + [q[0]]
  }

  /** The queue after n notifications. */
  function After<T>(q: seq<T>, n: nat): seq<T> {
    if n == 0 then q else Rotated(After(q, n - 1))
  }

  /** A full round of notifications restores the order; the n-th one goes to the n-th context. */
  lemma {:induction false} RoundRobin<T>(q: seq<T>, n: nat)
    requires n <= |q|
    ensures After(q, n) == q[n..] + q[..n]
    ensures n == 0 || n == |q| ==> After(q, n) == q
  {
    if n > 0 {
      RoundRobin(q, n - 1);
      assert q[n - 1..] + q[..n - 1] == [q[n - 1]] + (q[n..] + q[..n - 1]);
      assert q[..n] == q[..n - 1] + [q[n - 1]];
    }
  }

  lemma FrontOnce(l: List)
    requires l.Valid()
    ensures l.q != [] ==> l.q[0] !in l.q[1..]
  {
  }

  /** What the n-th notification of a round finds. */
  lemma RoundFront<T>(q: seq<T>, n: nat)
    requires n < |q|
    ensures After(q, n) != [] && After(q, n)[0] == q[n]
    ensures forall x :: x in After(q, n) <==> x in q
  {
    RoundRobin(q, n);
    assert q == q[..n] + q[n..];
  }

  /** One context was noted once more, and nothing else happened to it. */
  twostate predicate Noted(c: Ctx, current: Ctx?)
    reads c`notes, c`woken
  {
    && c.notes == old(c.notes) + 1
    && c.woken == (old(c.woken) || (old(c.notes) == 0 && c != current))
  }

  class Dock {
    const q: List

    constructor ()
      ensures fresh(q) && q.Valid() && q.q == []
    {
      q := new List();
    }

    /** notify(): the front context goes to the back and is woken. */
    method Notify(current: Ctx?)
      requires q.Valid()
      modifies q, q.q`prev, q.q`next, q.q`notes, q.q`woken
      ensures q.Valid()
      ensures q.q == Rotated(old(q.q))
      ensures old(q.q) != [] ==> Noted(old(q.q[0]), current)
      ensures forall c <- old(q.q) :: c != old(q.q[0]) ==> c.notes == old(c.notes) && c.woken == old(c.woken)
    {
      hide Linked, Distinct;
      FrontOnce(q);
      var c := q.PopFront();
      if c == null {
        return;
      }
      q.PushBack(c);
      var _ := c.Note(current);
    }

    /** notify_one(): the front context is woken where it stands. */
    method NotifyOne(current: Ctx?)
      requires q.Valid()
      modifies q.q`notes, q.q`woken
      ensures q.q != [] ==> Noted(q.q[0], current)
      ensures forall c <- q.q :: c != q.q[0] ==> c.notes == old(c.notes) && c.woken == old(c.woken)
    {
      if q.Empty() {
        return;
      }
      var _ := q.head.Note(current);
    }

    /** notify_all(): everyone is noted once, in place. */
    method NotifyAll(current: Ctx?)
      requires q.Valid()
      modifies q.q`notes, q.q`woken
      ensures q.Valid()
      ensures forall c <- q.q :: Noted(c, current)
    {
      var c := q.head;
      ghost var k := 0;
      while c != null
        invariant k <= |q.q| && c == if k < |q.q| then q.q[k] else null
        invariant q.Valid()
        invariant forall j :: 0 <= j < k ==> Noted(q.q[j], current)
        invariant forall j :: k <= j < |q.q| ==> q.q[j].notes == old(q.q[j].notes) && q.q[j].woken == old(q.q[j].woken)
        decreases |q.q| - k
      {
        assert q.q[k].next == q.q[k].next;
        var _ := c.Note(current);
        c, k := c.next, k + 1;
      }
    }

    /** Whether the context waits on this dock. */
    method Waiting(a: Ctx) returns (b: bool)
      requires q.Valid()
      ensures b <==> a in q.q
    {
      var c := q.head;
      ghost var k := 0;
      while c != null && c != a
        invariant k <= |q.q| && c == if k < |q.q| then q.q[k] else null
        invariant a !in q.q[..k]
        decreases |q.q| - k
      {
        assert q.q[k].next == q.q[k].next;
        c, k := c.next, k + 1;
      }
      b := c != null;
    }

    /** The next notification of a round that began with the queue `was`. */
    method NotifyNext(current: Ctx?, ghost was: seq<Ctx>, ghost i: nat)
      requires q.Valid() && i < |was| && Distinct(was) && q.q == After(was, i)
      modifies q, was`prev, was`next, was`notes, was`woken
      ensures q.Valid() && q.q == After(was, i + 1)
      ensures Noted(was[i], current)
      ensures forall j :: 0 <= j < |was| && j != i ==>
                was[j].notes == old(was[j].notes) && was[j].woken == old(was[j].woken)
    {
      RoundRobin(was, i);
      RoundFront(was, i);
      forall j | 0 <= j < |was| ensures was[j] in q.q {}
      Notify(current);
    }

    /** As many notifications as there are contexts note each exactly once and restore the queue. */
    method NotifyRound(current: Ctx?)
      requires q.Valid()
      modifies q, q.q`prev, q.q`next, q.q`notes, q.q`woken
      ensures q.Valid() && q.q == old(q.q)
      ensures forall c <- q.q :: Noted(c, current)
    {
      hide Linked, Distinct, Rotated, After;
      var n := q.Size();
      ghost var was := q.q;
      RoundRobin(was, 0);
      for i := 0 to n
        invariant q.Valid() && n == |was| && q.q == After(was, i)
        invariant forall j :: 0 <= j < i ==> Noted(was[j], current)
        invariant forall j :: i <= j < n ==> was[j].notes == old(was[j].notes) && was[j].woken == old(was[j].woken)
        modifies q, was`prev, was`next, was`notes, was`woken
      {
        label before:
        NotifyNext(current, was, i);
        assert Noted(was[i], current);
        forall j | 0 <= j < i ensures Noted(was[j], current) {
          assert was[j].notes == old@before(was[j].notes) && was[j].woken == old@before(was[j].woken);
        }
      }
      RoundRobin(was, n);
    }

    /** The constructor of a waiting frame: where the context queues. */
    method Join(c: Ctx, order: Order)
      requires q.Valid() && c !in q.q && c.Isolated()
      modifies q, c`prev, c`next, q.q`prev, q.q`next
      ensures q.Valid()
      ensures order.Lifo? ==> q.q == [c] + old(q.q)
      ensures order.Fifo? ==> q.q == old(q.q) + [c]
      ensures order.Sort? ==> q.q == Inserted(old(q.q), SortedPlace(old(q.q), c.id), c)
    {
      match order
      case Lifo => q.PushFront(c);
      case Sort => q.PushSort(c);
      case Fifo => q.PushBack(c);
    }

    /** Its destructor: out of the queue; a context that unwinds passes the wakeup on. */
    method Leave(c: Ctx, unwinding: bool)
      requires q.Valid() && c in q.q
      modifies q, q.q`prev, q.q`next, q.q`notes, q.q`woken
      ensures q.Valid() && c.Isolated() && q.q == Without(old(q.q), c)
      ensures unwinding && q.q != [] ==> Noted(q.q[0], c)
      ensures forall x <- old(q.q) :: !(unwinding && q.q != [] && x == q.q[0]) ==>
                x.notes == old(x.notes) && x.woken == old(x.woken)
    {
      q.Remove(c);
      if unwinding {
        NotifyOne(c);
      }
    }
  }
}
