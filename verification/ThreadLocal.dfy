/** Context-local storage over one ordered map (ircd/db_fixes.cc:117-312): a 32-bit storage id and a
    32-bit context id make a 64-bit key. Pointers are numbers, zero the null pointer; the map is
    the sequence of its entries in key order. */
module ThreadLocal {
  import opened Basics
  import opened Powers

  const WORD := 0x1_0000_0000

  datatype Entry = Entry(key: nat, value: nat)

  /** A call of the unref handler h on a stored pointer. */
  datatype Call = Call(h: int, value: nat)

  ghost predicate Sorted(m: seq<Entry>) {
    forall i, j :: 0 <= i < j < |m| ==> m[i].key < m[j].key
  }

  /** The entries as a map from keys to pointers. */
  ghost function View(m: seq<Entry>): map<nat, nat> {
    if m == [] then map[] else
      var n := |m| - 1;
      View(m[..n])[m[n].key := m[n].value]
  }

  lemma {:induction false} ViewAt(m: seq<Entry>, i: nat)
    requires Sorted(m) && i < |m|
    ensures m[i].key in View(m) && View(m)[m[i].key] == m[i].value
  {
    var n := |m| - 1;
    if i < n {
      ViewAt(m[..n], i);
    }
  }

  lemma {:induction false} ViewMisses(m: seq<Entry>, key: nat)
    requires forall i :: 0 <= i < |m| ==> m[i].key != key
    ensures key !in View(m)
  {
    if m != [] {
      ViewMisses(m[..|m| - 1], key);
    }
  }

  lemma InsertSorted(m: seq<Entry>, i: nat, e: Entry)
    requires Sorted(m) && i <= |m|
    requires forall j :: 0 <= j < i ==> m[j].key < e.key
    requires forall j :: i <= j < |m| ==> e.key < m[j].key
    ensures Sorted(Inserted(m, i, e))
  {
    InsertedAt(m, i, e);
  }

  /** Inserting an entry where its key belongs. */
  lemma {:induction false} InsertView(m: seq<Entry>, i: nat, e: Entry)
    requires i <= |m| && forall j :: 0 <= j < |m| ==> m[j].key != e.key
    ensures View(Inserted(m, i, e)) == View(m)[e.key := e.value]
  {
    InsertedAt(m, i, e);
    var r := Inserted(m, i, e);
    var n := |m| - 1;
    if i == |m| {
      assert r[..|m|] == m;
    } else {
      assert r[..|m|] == Inserted(m[..n], i, e);
      InsertView(m[..n], i, e);
    }
  }

  lemma {:induction false} AssignView(m: seq<Entry>, i: nat, v: nat)
    requires Sorted(m) && i < |m|
    ensures var r := m[i := Entry(m[i].key, v)]; Sorted(r) && View(r) == View(m)[m[i].key := v]
  {
    var r := m[i := Entry(m[i].key, v)];
    var n := |m| - 1;
    if i == n {
      assert r[..n] == m[..n];
    } else {
      assert r[..n] == m[..n][i := Entry(m[i].key, v)];
      AssignView(m[..n], i, v);
    }
  }

  function Cut(m: seq<Entry>, lo: nat, hi: nat): seq<Entry>
    requires lo <= hi <= |m|
  {
    m[..lo] + m[hi..]
  }

  lemma CutAt(m: seq<Entry>, lo: nat, hi: nat)
    requires lo <= hi <= |m|
    ensures |Cut(m, lo, hi)| == |m| - (hi - lo)
    ensures forall i :: 0 <= i < |m| - (hi - lo) ==> Cut(m, lo, hi)[i] == m[if i < lo then i else i + (hi - lo)]
  {
  }

  lemma CutNothing(m: seq<Entry>, lo: nat)
    requires lo <= |m|
    ensures Cut(m, lo, lo) == m && m[lo..lo] == []
  {
  }

  lemma CutMore(m: seq<Entry>, lo: nat, hi: nat)
    requires lo <= hi < |m|
    ensures Cut(m, lo, hi)[lo] == m[hi] && Cut(Cut(m, lo, hi), lo, lo + 1) == Cut(m, lo, hi + 1)
  {
  }

  /** Erasing a range leaves every other key as it was. */
  lemma CutView(m: seq<Entry>, lo: nat, hi: nat, k: nat)
    requires Sorted(m) && lo <= hi <= |m|
    ensures Sorted(Cut(m, lo, hi))
    ensures (forall i :: lo <= i < hi ==> m[i].key != k) ==>
              (k in View(Cut(m, lo, hi)) <==> k in View(m)) && (k in View(m) ==> View(Cut(m, lo, hi))[k] == View(m)[k])
    ensures (forall i :: 0 <= i < |m| && !(lo <= i < hi) ==> m[i].key != k) ==> k !in View(Cut(m, lo, hi))
  {
    hide View, Cut;
    CutAt(m, lo, hi);
    var o := Cut(m, lo, hi);
    if forall i :: 0 <= i < |m| && !(lo <= i < hi) ==> m[i].key != k {
      ViewMisses(o, k);
      if forall i :: lo <= i < hi ==> m[i].key != k { ViewMisses(m, k); }
    } else {
      var i :| 0 <= i < |m| && !(lo <= i < hi) && m[i].key == k;
      var j := if i < lo then i else i - (hi - lo);
      assert o[j] == m[i];
      ViewAt(m, i);
      ViewAt(o, j);
    }
  }

  // ----- keys -----

  function IdOf(key: nat): nat {
    key / WORD
  }

  function MakeKey(id: nat, ctx: nat): nat
    requires id < WORD && ctx < WORD
  {
    id * WORD % (WORD * WORD) + ctx
  }

  function SplitKey(key: nat): (nat, nat) {
    (key / WORD % WORD, key % WORD)
  }

  lemma KeyParts(id: nat, ctx: nat)
    requires id < WORD && ctx < WORD
    ensures MakeKey(id, ctx) == id * WORD + ctx < WORD * WORD
    ensures IdOf(MakeKey(id, ctx)) == id && MakeKey(id, ctx) % WORD == ctx
  {
    DivMod(0, id * WORD, WORD * WORD);
    DivMod(id, ctx, WORD);
  }

  /** The two make_key functions are inverse to each other. */
  lemma KeyRoundTrip(id: nat, ctx: nat, key: nat)
    requires id < WORD && ctx < WORD && key < WORD * WORD
    ensures SplitKey(MakeKey(id, ctx)) == (id, ctx)
    ensures MakeKey(SplitKey(key).0, SplitKey(key).1) == key
  {
    KeyParts(id, ctx);
    DivMod(0, id, WORD);
    var q, r := key / WORD, key % WORD;
    assert key == q * WORD + r && q < WORD;
    DivMod(0, q, WORD);
    KeyParts(q, r);
  }

  /** Keys order by storage id first: those of one id are the range up to the next id's zero key. */
  lemma KeyRange(id: nat, key: nat)
    requires id < WORD - 1
    ensures MakeKey(id, 0) <= key < MakeKey(id + 1, 0) <==> IdOf(key) == id
  {
    KeyParts(id, 0);
    KeyParts(id + 1, 0);
    var q, r := key / WORD, key % WORD;
    assert key == q * WORD + r;
  }

  // ----- one operation on the abstract map -----

  /** What a context sees: null unless something was stored. */
  ghost function At(v: map<nat, nat>, id: nat, ctx: nat): nat
    requires id < WORD && ctx < WORD
  {
    var k := MakeKey(id, ctx);
    if k in v then v[k] else 0
  }

  /** Storing under one id and context is seen there and nowhere else. */
  lemma StoreIsLocal(v: map<nat, nat>, id: nat, ctx: nat, ptr: nat, id': nat, ctx': nat)
    requires id < WORD && ctx < WORD && id' < WORD && ctx' < WORD
    ensures At(v[MakeKey(id, ctx) := ptr], id', ctx') == if id == id' && ctx == ctx' then ptr else At(v, id', ctx')
  {
    KeyParts(id, ctx);
    KeyParts(id', ctx');
  }

  /** The entries of one storage id, and the rest. */
  function Owned(m: seq<Entry>, id: nat): seq<Entry> {
    if m == [] then [] else (if IdOf(m[0].key) == id then [m[0]] else []) + Owned(m[1..], id)
  }

  function Others(m: seq<Entry>, id: nat): seq<Entry> {
    if m == [] then [] else (if IdOf(m[0].key) != id then [m[0]] else []) + Others(m[1..], id)
  }

  /** One handler call for every entry, in key order, if there is a handler. */
  function Due(h: Option<int>, m: seq<Entry>): (c: seq<Call>)
    ensures |c| == if h.Some? then |m| else 0
    ensures h.Some? ==> forall i :: 0 <= i < |m| ==> c[i] == Call(h.value, m[i].value)
  {
    if h.None? then [] else seq(|m|, i requires 0 <= i < |m| => Call(h.value, m[i].value))
  }

  lemma DueMore(h: Option<int>, m: seq<Entry>, lo: nat, hi: nat)
    requires lo <= hi < |m|
    ensures Due(h, m[lo..hi + 1]) == Due(h, m[lo..hi]) + if h.Some? then [Call(h.value, m[hi].value)] else []
  {
  }

  lemma OwnedFirst(e: Entry, m: seq<Entry>, id: nat)
    ensures Owned([e] + m, id) == (if IdOf(e.key) == id then [e] else []) + Owned(m, id)
  {
    hide IdOf;
    assert ([e] + m)[1..] == m;
  }

  lemma {:induction false} OwnedSplit(a: seq<Entry>, b: seq<Entry>, id: nat)
    ensures Owned(a + b, id) == Owned(a, id) + Owned(b, id)
  {
    hide IdOf, Owned;
    if a == [] {
      assert a + b == b;
      OwnedNone(a, id);
    } else {
      var e, rest := a[0], a[1..];
      assert a == [e] + rest && a + b == [e] + (rest + b);
      OwnedFirst(e, rest, id);
      OwnedFirst(e, rest + b, id);
      OwnedSplit(rest, b, id);
    }
  }

  lemma OwnedNone(m: seq<Entry>, id: nat)
    requires m == []
    ensures Owned(m, id) == []
  {
  }

  lemma OthersFirst(e: Entry, m: seq<Entry>, id: nat)
    ensures Others([e] + m, id) == (if IdOf(e.key) != id then [e] else []) + Others(m, id)
  {
    hide IdOf;
    assert ([e] + m)[1..] == m;
  }

  lemma {:induction false} OthersSplit(a: seq<Entry>, b: seq<Entry>, id: nat)
    ensures Others(a + b, id) == Others(a, id) + Others(b, id)
  {
    hide IdOf, Others;
    if a == [] {
      assert a + b == b;
      OthersNone(a, id);
    } else {
      var e, rest := a[0], a[1..];
      assert a == [e] + rest && a + b == [e] + (rest + b);
      OthersFirst(e, rest, id);
      OthersFirst(e, rest + b, id);
      OthersSplit(rest, b, id);
    }
  }

  lemma OthersNone(m: seq<Entry>, id: nat)
    requires m == []
    ensures Others(m, id) == []
  {
  }

  lemma {:induction false} OwnedUniform(m: seq<Entry>, id: nat)
    ensures (forall i :: 0 <= i < |m| ==> IdOf(m[i].key) == id) ==> Owned(m, id) == m && Others(m, id) == []
    ensures (forall i :: 0 <= i < |m| ==> IdOf(m[i].key) != id) ==> Owned(m, id) == [] && Others(m, id) == m
  {
    hide IdOf;
    if m != [] {
      OwnedUniform(m[1..], id);
      assert m == [m[0]] + m[1..];
    }
  }

  lemma SliceCut(m: seq<Entry>, lo: nat, hi: nat)
    requires lo <= hi <= |m|
    ensures Cut(m, lo, hi) == m[..lo] + ([] + m[hi..])
  {
  }

  /** An id's entries lie together. */
  lemma OwnedIsARange(m: seq<Entry>, id: nat, lo: nat, hi: nat)
    requires lo <= hi <= |m|
    requires forall i :: 0 <= i < |m| ==> (lo <= i < hi <==> IdOf(m[i].key) == id)
    ensures Owned(m, id) == m[lo..hi] && Others(m, id) == Cut(m, lo, hi)
  {
    hide IdOf, Owned, Others, Cut;
    assert Cut(m, lo, hi) == m[..lo] + ([] + m[hi..]) by { SliceCut(m, lo, hi); }
    var a, b, c := m[..lo], m[lo..hi], m[hi..];
    assert m == a + (b + c);
    OwnedSplit(a, b + c, id);
    OwnedSplit(b, c, id);
    OthersSplit(a, b + c, id);
    OthersSplit(b, c, id);
    forall i | 0 <= i < |a| ensures IdOf(a[i].key) != id { assert a[i] == m[i]; }
    forall i | 0 <= i < |b| ensures IdOf(b[i].key) == id { assert b[i] == m[lo + i]; }
    forall i | 0 <= i < |c| ensures IdOf(c[i].key) != id { assert c[i] == m[hi + i]; }
    OwnedUniform(a, id);
    OwnedUniform(b, id);
    OwnedUniform(c, id);
  }

  /** Dropping an id's entries: what other ids see does not change, and the id's own contexts see null. */
  lemma OthersKeep(m: seq<Entry>, id: nat, lo: nat, hi: nat, id': nat, ctx: nat)
    requires Sorted(m) && lo <= hi <= |m| && id < WORD && id' < WORD && ctx < WORD
    requires forall i :: 0 <= i < |m| ==> (lo <= i < hi <==> IdOf(m[i].key) == id)
    ensures Sorted(Others(m, id))
    ensures At(View(Others(m, id)), id', ctx) == if id' == id then 0 else At(View(m), id', ctx)
  {
    OwnedIsARange(m, id, lo, hi);
    KeyParts(id', ctx);
    hide IdOf, MakeKey, Others, Owned, View;
    CutView(m, lo, hi, MakeKey(id', ctx));
  }

  /** The id of the n-th object. */
  function IdOfObject(n: nat): (id: nat)
    ensures id < WORD
  {
    n % WORD
  }

  lemma NextId(n: nat)
    ensures (n % WORD + 1) % WORD == (n + 1) % WORD
  {
  }

  /** Two objects share an id if and only if a multiple of 2^32 objects lies between them; so the
      first 2^32 ids are all different. */
  lemma IdsRepeat(m: nat, n: nat)
    requires m <= n
    ensures IdOfObject(m) == IdOfObject(n) <==> (n - m) % WORD == 0
    ensures m < n < WORD ==> IdOfObject(m) != IdOfObject(n)
  {
    var p, q, r := m / WORD, n / WORD, (n - m) / WORD;
    assert m == WORD * p + m % WORD && n == WORD * q + n % WORD && n - m == WORD * r + (n - m) % WORD;
  }

  class Store {
    var idCtr: nat
    var entries: seq<Entry>
    var dtors: map<nat, int>
    /** How many ids were given out. */
    ghost var constructed: nat
    /** The unref handler calls made so far. */
    ghost var calls: seq<Call>

    ghost predicate Valid()
      reads this
    {
      && idCtr == constructed % WORD && Sorted(entries)
      && (forall i :: 0 <= i < |entries| ==> entries[i].key < WORD * WORD)
    }

    constructor ()
      ensures Valid() && entries == [] && dtors == map[] && constructed == 0 && calls == []
    {
      idCtr, entries, dtors, calls, constructed := 0, [], map[], [], 0;
    }

    /** The ThreadLocalPtr constructor: the next id of a wrapping counter, and its handler if there is
        one; a handler that an earlier object of the same id left is kept. */
    method Construct(handler: Option<int>) returns (id: nat)
      requires Valid()
      modifies this`idCtr, this`dtors, this`constructed
      ensures Valid() && constructed == old(constructed) + 1 && id == IdOfObject(old(constructed))
      ensures dtors == if handler.Some? && id !in old(dtors) then old(dtors)[id := handler.value] else old(dtors)
    {
      NextId(constructed);
      id := idCtr;
      idCtr := (idCtr + 1) % WORD;
      constructed := constructed + 1;
      if handler.Some? && id !in dtors {
        dtors := dtors[id := handler.value];
      }
    }

    method LowerBound(key: nat) returns (i: nat)
      requires Valid()
      ensures i <= |entries|
      ensures forall j :: 0 <= j < i ==> entries[j].key < key
      ensures forall j :: i <= j < |entries| ==> key <= entries[j].key
    {
      i := 0;
      while i < |entries| && entries[i].key < key
        invariant i <= |entries| && forall j :: 0 <= j < i ==> entries[j].key < key
      {
        i := i + 1;
      }
    }

    lemma Missing(i: nat, key: nat)
      requires Valid() && i <= |entries|
      requires forall j :: 0 <= j < i ==> entries[j].key < key
      requires forall j :: i <= j < |entries| ==> key <= entries[j].key
      ensures key in View(entries) <==> i < |entries| && entries[i].key == key
      ensures i < |entries| && entries[i].key == key ==> View(entries)[key] == entries[i].value
    {
      hide View;
      if i < |entries| && entries[i].key == key {
        ViewAt(entries, i);
      } else {
        ViewMisses(entries, key);
      }
    }

    method Get(id: nat, ctx: nat) returns (ptr: nat)
      requires Valid() && id < WORD && ctx < WORD
      ensures ptr == At(View(entries), id, ctx)
    {
      var key := MakeKey(id, ctx);
      var i := LowerBound(key);
      Missing(i, key);
      ptr := if i < |entries| && entries[i].key == key then entries[i].value else 0;
    }

    /** Insert before place i, which is the key's lower bound. */
    method Insert(i: nat, key: nat, ptr: nat)
      requires Valid() && i <= |entries| && key < WORD * WORD
      requires forall j :: 0 <= j < i ==> entries[j].key < key
      requires forall j :: i <= j < |entries| ==> key < entries[j].key
      modifies this`entries
      ensures Valid() && View(entries) == old(View(entries))[key := ptr]
    {
      hide View;
      var e := Entry(key, ptr);
      InsertView(entries, i, e);
      InsertSorted(entries, i, e);
      entries := Inserted(entries, i, e);
    }

    /** Overwrite the value at place i. */
    method Assign(i: nat, ptr: nat)
      requires Valid() && i < |entries|
      modifies this`entries
      ensures Valid() && View(entries) == old(View(entries))[old(entries)[i].key := ptr]
    {
      AssignView(entries, i, ptr);
      entries := entries[i := Entry(entries[i].key, ptr)];
    }

    /** Swap: store and return what was there; an absent entry counts as null. */
    method Swap(id: nat, ctx: nat, ptr: nat) returns (r: nat)
      requires Valid() && id < WORD && ctx < WORD
      modifies this`entries
      ensures Valid() && r == old(At(View(entries), id, ctx))
      ensures View(entries) == old(View(entries))[MakeKey(id, ctx) := ptr]
    {
      var key := MakeKey(id, ctx);
      KeyParts(id, ctx);
      var i := LowerBound(key);
      Missing(i, key);
      if i == |entries| || entries[i].key != key {
        Insert(i, key, ptr);
        return 0;
      }
      r := entries[i].value;
      Assign(i, ptr);
    }

    /** CompareAndSwap: also on an absent entry, which counts as null. */
    method CompareAndSwap(id: nat, ctx: nat, ptr: nat, expected: nat) returns (ok: bool, seen: nat)
      requires Valid() && id < WORD && ctx < WORD
      modifies this`entries
      ensures Valid() && ok == (old(At(View(entries), id, ctx)) == expected)
      ensures seen == old(At(View(entries), id, ctx))
      ensures View(entries) == if ok then old(View(entries))[MakeKey(id, ctx) := ptr] else old(View(entries))
    {
      var key := MakeKey(id, ctx);
      KeyParts(id, ctx);
      var i := LowerBound(key);
      Missing(i, key);
      if i == |entries| || entries[i].key != key {
        if expected != 0 {
          return false, 0;
        }
        Insert(i, key, ptr);
        return true, expected;
      }
      if entries[i].value != expected {
        return false, entries[i].value;
      }
      Assign(i, ptr);
      return true, expected;
    }

    /** Hand one value to the handler and erase its entry: the one at hi before any was erased. */
    method EraseOne(it: nat, dtor: Option<int>, ghost was: seq<Entry>, ghost hi: nat)
      requires it <= hi < |was| && entries == Cut(was, it, hi)
      modifies this`entries, this`calls
      ensures entries == Cut(was, it, hi + 1)
      ensures forall c :: old(calls) == c + Due(dtor, was[it..hi]) ==> calls == c + Due(dtor, was[it..hi + 1])
    {
      hide Cut, Due;
      CutAt(was, it, hi);
      CutMore(was, it, hi);
      DueMore(dtor, was, it, hi);
      if dtor.Some? {
        calls := calls + [Call(dtor.value, entries[it].value)];
      }
      entries := Cut(entries, it, it + 1);
    }

    /** The destructor: erase the id's range entry by entry, handing each value to the handler. */
    method Destroy(id: nat)
      requires Valid() && id < WORD
      modifies this`entries, this`dtors, this`calls
      ensures Valid() && dtors == old(dtors) - {id}
      ensures entries == AfterDestroy(old(entries), id)
      ensures calls == old(calls) +
                if id < WORD - 1 then
                  Due(if id in old(dtors) then Some(old(dtors)[id]) else None, Owned(old(entries), id))
                else []
    {
      hide IdOf, Cut, Due, Owned, Others, MakeKey, View;
      ghost var was := entries;
      var dtor := if id in dtors then Some(dtors[id]) else None;
      dtors := dtors - {id};
      var lower, upper := MakeKey(id, 0), MakeKey((id + 1) % WORD, 0);
      var it := LowerBound(lower);
      assert id == WORD - 1 ==> upper == 0 by { KeyParts(0, 0); }
      ghost var hi := it;
      CutNothing(was, it);
      while it < |entries| && entries[it].key < upper
        invariant it <= hi <= |was| && entries == Cut(was, it, hi) && dtors == old(dtors) - {id}
        invariant forall i :: it <= i < hi ==> was[i].key < upper
        invariant id == WORD - 1 ==> it == hi
        invariant calls == old(calls) + Due(dtor, was[it..hi])
        decreases |entries|
      {
        CutAt(was, it, hi);
        EraseOne(it, dtor, was, hi);
        hi := hi + 1;
        CutAt(was, it, hi);
      }
      CutAt(was, it, hi);
      Bounded(was, id, it, hi);
      CutView(was, it, hi, 0);
    }
  }

  function AfterDestroy(m: seq<Entry>, id: nat): seq<Entry> {
    if id < WORD - 1 then Others(m, id) else m
  }

  /** The range found by the two bounds is the id's own, unless the upper bound wrapped to zero. */
  lemma Bounded(m: seq<Entry>, id: nat, lo: nat, hi: nat)
    requires Sorted(m) && lo <= hi <= |m| && id < WORD
    requires forall i :: 0 <= i < lo ==> m[i].key < MakeKey(id, 0)
    requires forall i :: lo <= i < |m| ==> MakeKey(id, 0) <= m[i].key
    requires forall i :: lo <= i < hi ==> m[i].key < MakeKey((id + 1) % WORD, 0)
    requires hi < |m| ==> MakeKey((id + 1) % WORD, 0) <= m[hi].key
    ensures id < WORD - 1 ==> Owned(m, id) == m[lo..hi] && Others(m, id) == Cut(m, lo, hi)
  {
    hide IdOf, Owned, Others, MakeKey;
    if id < WORD - 1 {
      DivMod(0, id + 1, WORD);
      forall i | 0 <= i < |m| ensures lo <= i < hi <==> IdOf(m[i].key) == id {
        KeyRange(id, m[i].key);
        if i > hi { assert m[hi].key < m[i].key; }
      }
      OwnedIsARange(m, id, lo, hi);
    }
  }

  // ----- what destruction means -----

  lemma IdMonotone(a: nat, b: nat)
    requires a <= b
    ensures IdOf(a) <= IdOf(b)
  {
  }

  lemma RangeExists(m: seq<Entry>, id: nat) returns (lo: nat, hi: nat)
    requires Sorted(m)
    ensures lo <= hi <= |m| && forall i :: 0 <= i < |m| ==> (lo <= i < hi <==> IdOf(m[i].key) == id)
  {
    hide IdOf;
    lo := 0;
    while lo < |m| && IdOf(m[lo].key) < id
      invariant lo <= |m| && forall i :: 0 <= i < lo ==> IdOf(m[i].key) < id
    {
      lo := lo + 1;
    }
    hi := lo;
    while hi < |m| && IdOf(m[hi].key) == id
      invariant lo <= hi <= |m| && forall i :: lo <= i < hi ==> IdOf(m[i].key) == id
    {
      hi := hi + 1;
    }
    forall i | hi <= i < |m| ensures IdOf(m[i].key) > id {
      IdMonotone(m[hi].key, m[i].key);
      IdMonotone(m[lo].key, m[hi].key);
    }
  }

  /** Destroying an id erases precisely its own entries: its contexts see null, all others what
      they saw. */
  lemma DestroyIsLocal(m: seq<Entry>, id: nat, id': nat, ctx: nat)
    requires Sorted(m) && id < WORD - 1 && id' < WORD && ctx < WORD
    ensures At(View(AfterDestroy(m, id)), id', ctx) == if id' == id then 0 else At(View(m), id', ctx)
  {
    var lo, hi := RangeExists(m, id);
    OthersKeep(m, id, lo, hi, id', ctx);
  }

  lemma {:induction false} OthersOwnNothing(m: seq<Entry>, id: nat)
    ensures Owned(Others(m, id), id) == []
  {
    if m != [] {
      OthersOwnNothing(m[1..], id);
      if IdOf(m[0].key) != id {
        assert Others(m, id) == [m[0]] + Others(m[1..], id);
        assert Others(m, id)[1..] == Others(m[1..], id);
      } else {
        assert Others(m, id) == Others(m[1..], id);
      }
    }
  }

  /** The last 32-bit id is the exception: its upper bound wraps, so what it stored stays. */
  lemma DestroyErasesAll(m: seq<Entry>, id: nat)
    requires id < WORD
    ensures Owned(AfterDestroy(m, id), id) == [] <==> id < WORD - 1 || Owned(m, id) == []
  {
    OthersOwnNothing(m, id);
  }
}
