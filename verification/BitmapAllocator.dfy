/** The next-fit block allocator over a bitmap of 64-bit words (ircd/allocator.cc:401-479,
    include/ircd/allocator/state.h). Positions are 32-bit in the source, so is the size here. */
module BitmapAllocator {
  import opened Basics

  /** word_t(1) << bit */
  function Mask(bit: nat): bv64 {
    if bit == 0 then 1 else Mask(bit - 1) << 1
  }

  lemma TopMask()
    ensures Mask(63) == 0x8000_0000_0000_0000
  {
    assert Mask(8) == 0x100;
    assert Mask(16) == 0x1_0000;
    assert Mask(24) == 0x100_0000;
    assert Mask(32) == 0x1_0000_0000;
    assert Mask(40) == 0x100_0000_0000;
    assert Mask(48) == 0x1_0000_0000_0000;
    assert Mask(56) == 0x100_0000_0000_0000;
  }

  lemma ShiftBoth(x: bv64, y: bv64)
    ensures (x << 1) & (y << 1) == (x & y) << 1 && 1 & (y << 1) == 0 && (x << 1) & 1 == 0
  {
  }

  lemma {:induction false} MasksDisjoint(b: nat, c: nat)
    requires b < 64 && c < 64 && b != c
    ensures Mask(b) & Mask(c) == 0
  {
    if b > 0 && c > 0 {
      ShiftBoth(Mask(b - 1), Mask(c - 1));
      MasksDisjoint(b - 1, c - 1);
    } else if b > 0 {
      ShiftBoth(Mask(b - 1), 0);
    } else {
      ShiftBoth(0, Mask(c - 1));
    }
  }

  lemma ShiftNonzero(x: bv64)
    requires x != 0 && x & 0x8000_0000_0000_0000 == 0
    ensures x << 1 != 0
  {
  }

  lemma {:induction false} MaskNonzero(b: nat)
    requires b < 64
    ensures Mask(b) != 0
  {
    if b > 0 {
      MaskNonzero(b - 1);
      MasksDisjoint(b - 1, 63);
      TopMask();
      ShiftNonzero(Mask(b - 1));
    }
  }

  function Meets(w: bv64, m: bv64): bool {
    w & m != 0
  }

  function With(w: bv64, m: bv64): bv64 {
    w | m
  }

  function Less(w: bv64, m: bv64): bv64 {
    w & !m
  }

  lemma OrMasked(w: bv64, m: bv64, k: bv64)
    requires m & k == 0
    ensures (w | m) & k == w & k
  {
  }

  lemma AndMasked(w: bv64, m: bv64, k: bv64)
    requires m & k == 0
    ensures (w & !m) & k == w & k
  {
  }

  lemma WithOther(w: bv64, m: bv64, k: bv64)
    requires !Meets(m, k)
    ensures Meets(With(w, m), k) == Meets(w, k)
  {
    assert m & k == 0;
    OrMasked(w, m, k);
  }

  lemma LessOther(w: bv64, m: bv64, k: bv64)
    requires !Meets(m, k)
    ensures Meets(Less(w, m), k) == Meets(w, k)
  {
    AndMasked(w, m, k);
  }

  lemma SameBit(w: bv64, m: bv64)
    requires Meets(m, m)
    ensures Meets(With(w, m), m) && !Meets(Less(w, m), m)
  {
  }

  lemma MasksMeet(b: nat, c: nat)
    requires b < 64 && c < 64
    ensures Meets(Mask(b), Mask(c)) <==> b == c
  {
    hide Mask;
    if b == c {
      MaskNonzero(b);
    } else {
      MasksDisjoint(b, c);
    }
  }

  lemma UpdateWord(w: bv64, b: nat, c: nat)
    requires b < 64 && c < 64
    ensures Meets(With(w, Mask(b)), Mask(c)) <==> c == b || Meets(w, Mask(c))
    ensures Meets(Less(w, Mask(b)), Mask(c)) <==> c != b && Meets(w, Mask(c))
  {
    hide Mask, Meets, With, Less;
    MasksMeet(b, c);
    if b == c {
      SameBit(w, Mask(b));
    } else {
      WithOther(w, Mask(b), Mask(c));
      LessOther(w, Mask(b), Mask(c));
    }
  }

  function TestBit(words: seq<bv64>, pos: nat): bool
    requires pos < 64 * |words|
  {
    Meets(words[pos / 64], Mask(pos % 64))
  }

  /** Setting or clearing one bit of its word changes that position and no other. */
  lemma BitUpdate(words: seq<bv64>, pos: nat, other: nat)
    requires pos < 64 * |words| && other < 64 * |words|
    ensures TestBit(words[pos / 64 := With(words[pos / 64], Mask(pos % 64))], other) <==>
            other == pos || TestBit(words, other)
    ensures TestBit(words[pos / 64 := Less(words[pos / 64], Mask(pos % 64))], other) <==>
            other != pos && TestBit(words, other)
  {
    hide Meets, Mask, With, Less;
    assert other == 64 * (other / 64) + other % 64 && pos == 64 * (pos / 64) + pos % 64;
    UpdateWord(words[pos / 64], pos % 64, other % 64);
  }

  // ----- runs of free bits -----

  ghost predicate FreeRun(bits: seq<bool>, p: nat, n: nat) {
    p + n <= |bits| && forall i :: p <= i < p + n ==> !bits[i]
  }

  /** p is the lowest start of a free run of n within [lo, hi). */
  ghost predicate Lowest(bits: seq<bool>, lo: nat, hi: nat, n: nat, p: nat) {
    lo <= p && p + n <= hi && FreeRun(bits, p, n) && forall q :: lo <= q < p ==> !FreeRun(bits, q, n)
  }

  ghost predicate NoRun(bits: seq<bool>, lo: nat, hi: nat, n: nat) {
    forall q :: lo <= q && q + n <= hi ==> !FreeRun(bits, q, n)
  }

  /** Next fit: from the cursor to the end, else from the start to the cursor, else nowhere. A run
      across the cursor is not considered. */
  ghost predicate NextFit(bits: seq<bool>, last: nat, n: nat, r: nat) {
    || Lowest(bits, last, |bits|, n, r)
    || (NoRun(bits, last, |bits|, n) && Lowest(bits, 0, last, n, r))
    || (NoRun(bits, last, |bits|, n) && NoRun(bits, 0, last, n) && r == |bits|)
  }

  /** Next fit is a function of the bitmap, the cursor and the length. */
  lemma NextFitUnique(bits: seq<bool>, last: nat, n: nat, r: nat, s: nat)
    requires last <= |bits| && NextFit(bits, last, n, r) && NextFit(bits, last, n, s)
    ensures r == s
  {
  }

  const UINT := 0x1_0000_0000

  /** The source keeps the length in a uint. The answer for that length is the right one for n if
      and only if n is a uint or there was no room for the remainder either. */
  lemma TruncationShows(bits: seq<bool>, last: nat, n: nat, r: nat)
    requires last <= |bits| < UINT && NextFit(bits, last, n % UINT, r)
    ensures NextFit(bits, last, n, r) <==> n < UINT || r == |bits|
  {
  }

  lemma WrapsBack(ret: nat, n: nat)
    requires n % UINT <= ret < UINT
    ensures (ret - n) % UINT == ret - n % UINT
  {
    var k, m := n / UINT, ret - n % UINT;
    assert ret - n == m - k * UINT;
    assert (m - k * UINT) % UINT == m;
  }

  /** A length of 2^32 is found at the cursor, although no bitmap is that long. */
  lemma WholeUint(bits: seq<bool>, last: nat)
    requires last < |bits| < UINT
    ensures NextFit(bits, last, UINT % UINT, last) && !NextFit(bits, last, UINT, last)
  {
  }

  /** For a block of at least one, failing means exactly that neither side has room. */
  lemma FullIffNoRoom(bits: seq<bool>, last: nat, n: nat, r: nat)
    requires last <= |bits| && n > 0 && NextFit(bits, last, n, r)
    ensures r == |bits| <==> NoRun(bits, last, |bits|, n) && NoRun(bits, 0, last, n)
    ensures r < |bits| ==> FreeRun(bits, r, n)
  {
  }

  function Fill(bits: seq<bool>, p: nat, n: nat, b: bool): (r: seq<bool>)
    requires p + n <= |bits|
    ensures |r| == |bits|
    ensures forall i :: 0 <= i < |bits| ==> r[i] == if p <= i < p + n then b else bits[i]
  {
    seq(|bits|, i requires 0 <= i < |bits| => if p <= i < p + n then b else bits[i])
  }

  /** Freeing undoes allocating, and leaves the cursor where the next block of up to that length goes. */
  lemma FreeUndoesAllocate(bits: seq<bool>, p: nat, n: nat, m: nat, r: nat)
    requires FreeRun(bits, p, n) && m <= n
    requires NextFit(Fill(Fill(bits, p, n, true), p, n, false), p, m, r)
    ensures Fill(Fill(bits, p, n, true), p, n, false) == bits
    ensures r == p
  {
    assert Fill(Fill(bits, p, n, true), p, n, false) == bits;
    assert FreeRun(bits, p, m);
    assert Lowest(bits, p, |bits|, m, p);
    NextFitUnique(bits, p, m, r, p);
  }

  // ----- blocks -----

  datatype Block = Block(pos: nat, n: nat)

  predicate Covers(b: Block, i: nat) {
    b.pos <= i < b.pos + b.n
  }

  ghost predicate Covered(live: seq<Block>, i: nat) {
    exists k :: 0 <= k < |live| && Covers(live[k], i)
  }

  ghost predicate Disjoint(live: seq<Block>) {
    forall k, l, i: nat :: 0 <= k < l < |live| && Covers(live[k], i) ==> !Covers(live[l], i)
  }

  /** A bit is set exactly when it was from the start or a live block covers it. */
  ghost predicate Exact(bits: seq<bool>, reserved: seq<bool>, live: seq<Block>) {
    && |reserved| == |bits|
    && (forall k :: 0 <= k < |live| ==> live[k].pos + live[k].n <= |bits|)
    && Disjoint(live)
    && (forall i :: 0 <= i < |bits| ==> (bits[i] <==> reserved[i] || Covered(live, i)))
    && (forall i :: 0 <= i < |bits| && reserved[i] ==> !Covered(live, i))
  }

  lemma AllocKeepsExact(bits: seq<bool>, reserved: seq<bool>, live: seq<Block>, p: nat, n: nat)
    requires Exact(bits, reserved, live) && FreeRun(bits, p, n)
    ensures Exact(Fill(bits, p, n, true), reserved, live + [Block(p, n)])
  {
    var more := live + [Block(p, n)];
    forall i | 0 <= i < |bits| ensures Covered(more, i) <==> Covered(live, i) || p <= i < p + n {
      if Covered(live, i) {
        var k :| 0 <= k < |live| && Covers(live[k], i);
        assert Covers(more[k], i);
      }
      if p <= i < p + n { assert Covers(more[|live|], i); }
    }
    forall k, l, i: nat | 0 <= k < l < |more| && Covers(more[k], i) ensures !Covers(more[l], i) {
      if l == |live| {
        assert Covered(live, i);
      }
    }
  }

  lemma FreeKeepsExact(bits: seq<bool>, reserved: seq<bool>, live: seq<Block>, k: nat)
    requires Exact(bits, reserved, live) && k < |live|
    ensures Exact(Fill(bits, live[k].pos, live[k].n, false), reserved, live[..k] + live[k + 1..])
  {
    var b := live[k];
    var less := live[..k] + live[k + 1..];
    forall i | 0 <= i < |bits| ensures Covered(less, i) <==> Covered(live, i) && !Covers(b, i) {
      if Covered(live, i) && !Covers(b, i) {
        var l :| 0 <= l < |live| && Covers(live[l], i);
        assert Covers(less[if l < k then l else l - 1], i);
      }
      if Covered(less, i) {
        var l :| 0 <= l < |less| && Covers(less[l], i);
        var m := if l < k then l else l + 1;
        assert live[m] == less[l] && Covers(live[m], i);
      }
    }
    forall l, m, i: nat | 0 <= l < m < |less| && Covers(less[l], i) ensures !Covers(less[m], i) {
      var l', m' := if l < k then l else l + 1, if m < k then m else m + 1;
      assert live[l'] == less[l] && live[m'] == less[m];
    }
  }

  class State {
    const size: nat
    const avail: array<bv64>
    var last: nat
    ghost const reserved: seq<bool>
    ghost var live: seq<Block>

    ghost predicate Shaped() {
      size < UINT && size <= 64 * avail.Length
    }

    ghost function Bits(): (bits: seq<bool>)
      requires Shaped()
      reads avail
      ensures |bits| == size
    {
      BitsOf(avail[..], size)
    }

    ghost predicate Valid()
      reads this, avail
    {
      Shaped() && last <= size && Exact(Bits(), reserved, live)
    }

    constructor (size: nat, avail: array<bv64>)
      requires size < UINT && size <= 64 * avail.Length
      ensures Valid() && this.size == size && this.avail == avail && last == 0 && live == []
      ensures reserved == Bits()
    {
      this.size, this.avail, last, live := size, avail, 0, [];
      reserved := BitsOf(avail[..], size);
    }

    predicate Test(pos: nat)
      requires Shaped() && pos < size
      reads avail
      ensures Test(pos) == Bits()[pos]
    {
      TestBit(avail[..], pos)
    }

    method Bts(pos: nat)
      requires Shaped() && pos < size
      modifies avail
      ensures Bits() == old(Bits())[pos := true]
    {
      hide Meets, Mask, With, Less;
      ghost var words := avail[..];
      avail[pos / 64] := With(avail[pos / 64], Mask(pos % 64));
      assert avail[..] == words[pos / 64 := With(words[pos / 64], Mask(pos % 64))];
      forall i | 0 <= i < size ensures Bits()[i] == (i == pos || BitsOf(words, size)[i]) { BitUpdate(words, pos, i); }
    }

    method Btc(pos: nat)
      requires Shaped() && pos < size
      modifies avail
      ensures Bits() == old(Bits())[pos := false]
    {
      hide Meets, Mask, With, Less;
      ghost var words := avail[..];
      avail[pos / 64] := Less(avail[pos / 64], Mask(pos % 64));
      assert avail[..] == words[pos / 64 := Less(words[pos / 64], Mask(pos % 64))];
      forall i | 0 <= i < size ensures Bits()[i] == (i != pos && BitsOf(words, size)[i]) { BitUpdate(words, pos, i); }
    }

    /** One scan of next(): count down a run, start over at every set bit. */
    method Scan(from: nat, to: nat, n: nat) returns (ret: nat, rem: nat)
      requires Shaped() && from <= to <= size
      ensures ret <= to && rem <= n
      ensures rem == 0 ==> n <= ret && Lowest(Bits(), from, to, n, ret - n)
      ensures rem > 0 ==> NoRun(Bits(), from, to, n)
    {
      ret, rem := from, n;
      while ret < to && rem > 0
        invariant from <= ret <= to && rem <= n && from + (n - rem) <= ret
        invariant forall q :: from <= q < ret - (n - rem) ==> !FreeRun(Bits(), q, n)
        invariant forall i :: ret - (n - rem) <= i < ret ==> !Bits()[i]
      {
        if Test(ret) {
          rem := n;
        } else {
          rem := rem - 1;
        }
        ret := ret + 1;
      }
    }

    /** The counter and the result are uints, whatever n is. */
    method Next(n: nat) returns (r: nat)
      requires Valid()
      ensures NextFit(Bits(), last, n % UINT, r)
    {
      var ret, rem := Scan(last, size, n % UINT);
      if rem == 0 {
        WrapsBack(ret, n);
        return (ret - n) % UINT;
      }
      ret, rem := Scan(0, last, n % UINT);
      if rem > 0 {
        return size;
      }
      WrapsBack(ret, n);
      return (ret - n) % UINT;
    }

    method Available(n: nat) returns (b: bool)
      requires Valid()
      ensures b <==> exists r: nat :: r < size && NextFit(Bits(), last, n % UINT, r)
      ensures n < UINT ==> (b <==> exists r: nat :: r < size && NextFit(Bits(), last, n, r))
    {
      var r := Next(n);
      forall s: nat | NextFit(Bits(), last, n % UINT, s) ensures s == r {
        NextFitUnique(Bits(), last, n % UINT, r, s);
      }
      b := r < size;
    }

    /** The length is a uint or is not found: otherwise the source sets bits past the bitmap. */
    ghost predicate Fits(n: nat)
      requires Valid()
      reads this, avail
    {
      n < UINT || NextFit(Bits(), last, n % UINT, size)
    }

    /** allocate(nothrow): past the end when there is no room. */
    method TryAllocate(n: nat) returns (r: nat)
      requires Valid() && Fits(n)
      modifies this, avail
      ensures Valid()
      ensures NextFit(old(Bits()), old(last), n, r)
      ensures r >= size ==> Bits() == old(Bits()) && last == old(last) && live == old(live)
      ensures r < size ==>
                && r + n <= size && Bits() == Fill(old(Bits()), r, n, true)
                && last == r + n && live == old(live) + [Block(r, n)]
    {
      r := Next(n);
      if n >= UINT {
        NextFitUnique(Bits(), last, n % UINT, r, size);
      }
      TruncationShows(Bits(), last, n, r);
      if r >= size {
        return;
      }
      ghost var bits := Bits();
      assert FreeRun(bits, r, n);
      AllocKeepsExact(bits, reserved, live, r, n);
      for i := 0 to n
        invariant Bits() == Fill(bits, r, i, true)
        invariant last == old(last) && live == old(live)
      {
        Bts(r + i);
      }
      live := live + [Block(r, n)];
      last := r + n;
    }

    /** allocate(): throws when there is no room. */
    method Allocate(n: nat) returns (r: Option<nat>)
      requires Valid() && Fits(n)
      modifies this, avail
      ensures Valid()
      ensures r.None? ==>
                && NextFit(old(Bits()), old(last), n, size)
                && Bits() == old(Bits()) && last == old(last) && live == old(live)
      ensures r.Some? ==>
                && r.value < size && r.value + n <= size && NextFit(old(Bits()), old(last), n, r.value)
                && Bits() == Fill(old(Bits()), r.value, n, true)
                && live == old(live) + [Block(r.value, n)] && last == r.value + n
    {
      var p := TryAllocate(n);
      r := if p >= size then None else Some(p);
    }

    method Deallocate(pos: nat, n: nat, ghost k: nat)
      requires Valid() && k < |live| && live[k] == Block(pos, n)
      modifies this, avail
      ensures Valid() && last == pos && live == old(live)[..k] + old(live)[k + 1..]
      ensures pos + n <= size && Bits() == Fill(old(Bits()), pos, n, false)
    {
      ghost var bits := Bits();
      FreeKeepsExact(bits, reserved, live, k);
      for i := 0 to n
        invariant Bits() == Fill(bits, pos, i, false)
        invariant last == old(last) && live == old(live)
      {
        assert Covers(live[k], pos + i);
        assert Test(pos + i);
        Btc(pos + i);
      }
      live := live[..k] + live[k + 1..];
      last := pos;
    }
  }

  ghost function BitsOf(words: seq<bv64>, size: nat): (bits: seq<bool>)
    requires size <= 64 * |words|
    ensures |bits| == size
    ensures forall i :: 0 <= i < size ==> bits[i] == TestBit(words, i)
  {
    seq(size, i requires 0 <= i < size => TestBit(words, i))
  }
}
