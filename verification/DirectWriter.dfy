/** The direct-IO file writer (ircd/db_env.cc): appends of any size, from any address, become
    block-aligned writes through one bounce buffer of a block. It refines a byte sequence
    that is only ever appended to. */
module DirectWriter {
  import opened Basics
  import opened Powers

  /** A window on memory: where it starts, and what it holds. */
  datatype ConstBuffer = ConstBuffer(addr: nat, bytes: seq<Byte>)

  datatype PhysicalWrite = PhysicalWrite(addr: nat, offset: nat, bytes: seq<Byte>)

  datatype Opened = Panic | Opened(file: WritableFileDirect)

  ghost predicate AllZero(s: seq<Byte>) {
    forall i :: 0 <= i < |s| ==> s[i] == 0
  }

  /** What pwrite(2) leaves in a file. */
  function Pwrite(file: seq<Byte>, off: nat, data: seq<Byte>): (r: seq<Byte>)
    ensures |r| == if off + |data| < |file| then |file| else off + |data|
    ensures off <= |file| ==> r[..off] == file[..off]
    ensures r[off..off + |data|] == data
  {
    Resize(file, off) + data + if off + |data| < |file| then file[off + |data|..] else []
  }

  /** What ftruncate(2) leaves in a file. */
  function Resize(file: seq<Byte>, size: nat): (r: seq<Byte>)
    ensures |r| == size
  {
    if size <= |file| then file[..size] else file + seq(size - |file|, _ => 0)
  }

  /** The two system calls byte by byte: zeros where a file grows, the data where it is written, the
      old bytes elsewhere. */
  lemma FileAt(file: seq<Byte>, off: nat, data: seq<Byte>, size: nat, i: nat)
    requires off <= |file|
    ensures i < |Pwrite(file, off, data)| ==>
              Pwrite(file, off, data)[i] == if off <= i < off + |data| then data[i - off] else file[i]
    ensures i < size ==> Resize(file, size)[i] == if i < |file| then file[i] else 0
  {
  }

  /** What several writes leave in a file. */
  ghost function Replay(base: seq<Byte>, writes: seq<PhysicalWrite>): seq<Byte> {
    if writes == [] then base
    else
      var last := writes[|writes| - 1];
      Pwrite(Replay(base, writes[..|writes| - 1]), last.offset, last.bytes)
  }

  lemma ReplayOne(base: seq<Byte>, before: seq<PhysicalWrite>, w: PhysicalWrite)
    ensures Replay(base, before + [w]) == Pwrite(Replay(base, before), w.offset, w.bytes)
  {
    assert (before + [w])[..|before|] == before;
  }

  lemma {:induction false} ReplayMore(base: seq<Byte>, before: seq<PhysicalWrite>, more: seq<PhysicalWrite>)
    ensures Replay(base, before + more) == Replay(Replay(base, before), more)
  {
    hide Pwrite;
    if more == [] {
      assert before + more == before;
    } else {
      var front, last := more[..|more| - 1], more[|more| - 1];
      ReplayMore(base, before, front);
      assert more == front + [last] && before + more == (before + front) + [last];
      ReplayOne(base, before + front, last);
      ReplayOne(Replay(base, before), front, last);
    }
  }

  lemma MulMod(q: nat, r: nat, m: nat)
    requires 0 < m && r < m
    ensures (q * m + r) % m == r
    ensures (q * m + r) / m == q
  {
    DivMod(q, r, m);
  }

  lemma AddMod(a: nat, b: nat, m: nat)
    requires 0 < m && a % m == 0
    ensures (a + b) % m == b % m
  {
    var p, q := a / m, b / m;
    assert a == p * m && b == q * m + b % m;
    assert a + b == (p + q) * m + b % m;
    MulMod(p + q, b % m, m);
  }

  class WritableFileDirect {
    const alignment: nat
    const buffer: array<Byte>        // the bounce buffer, one block
    const bufferAddr: nat
    var logicalOffset: nat
    var file: seq<Byte>              // what is on the disk
    var isOpen: bool
    ghost var base: seq<Byte>        // what was there when it was last opened or truncated
    ghost var writes: seq<PhysicalWrite>

    predicate Aligned(value: nat)
      requires alignment > 0
    {
      value % alignment == 0
    }

    function Align(value: nat): (r: nat)
      requires alignment > 0
      ensures r <= value < r + alignment && Aligned(r)
    {
      assert value - value % alignment == (value / alignment) * alignment + 0;
      MulMod(value / alignment, 0, alignment);
      value - value % alignment
    }

    function Remain(value: nat): (r: nat)
      requires alignment > 0
      ensures 0 < r <= alignment && r == alignment - value % alignment
    {
      alignment - (value - Align(value))
    }

    function Blocks(value: nat): nat
      requires alignment > 0
    {
      value / alignment
    }

    function BufferConsumed(): (n: nat)
      requires alignment > 0
      reads this`logicalOffset
      ensures n < alignment
    {
      logicalOffset % alignment
    }

    function BufferRemain(): nat
      requires alignment > 0
      reads this`logicalOffset
    {
      alignment - BufferConsumed()
    }

    /** How far the last block reaches past the logical end. */
    ghost function Padding(): nat
      requires alignment > 0
      reads this`logicalOffset
    {
      if Aligned(logicalOffset) then 0 else BufferRemain()
    }

    ghost predicate AlignedWrite(w: PhysicalWrite)
      requires alignment > 0
    {
      Aligned(w.addr) && Aligned(w.offset) && Aligned(|w.bytes|)
    }

    /** Since then the file was changed by writes with aligned address, offset and length only. */
    ghost predicate Traced()
      requires alignment > 0
      reads this`file, this`base, this`writes
    {
      file == Replay(base, writes) && forall w <- writes :: AlignedWrite(w)
    }

    /** What the file became since then, writes alone have done. */
    twostate predicate Extended()
      reads this`file, this`writes
    {
      old(writes) <= writes && file == Replay(old(file), writes[|old(writes)|..])
    }

    /** The file ends where the last block does. */
    ghost predicate WholeBlocks()
      requires alignment > 0
      reads this`file, this`logicalOffset
    {
      |file| == logicalOffset + Padding()
    }

    /** What every operation keeps, whatever the bounce buffer holds. */
    ghost predicate Shaped()
      reads this, buffer
    {
      && 0 < alignment == buffer.Length && Aligned(bufferAddr)
      && logicalOffset <= |file| <= logicalOffset + Padding()
      && Traced()
    }

    /** The bounce-buffer invariant, between any two physical writes. */
    ghost predicate Coherent()
      reads this, buffer
    {
      Shaped() && buffer[..BufferConsumed()] == file[Align(logicalOffset)..logicalOffset]
    }

    /** The bytes the writer takes for the contents: its last block is the bounce buffer. */
    ghost function Believed(): (b: seq<Byte>)
      requires Shaped()
      reads this, buffer
      ensures |b| == logicalOffset
    {
      file[..Align(logicalOffset)] + buffer[..BufferConsumed()]
    }

    ghost predicate PaddedWithZero()
      requires logicalOffset <= |file|
      reads this
    {
      AllZero(file[logicalOffset..])
    }

    /** What holds between two calls of the public interface. */
    ghost predicate Valid()
      reads this, buffer
    {
      Coherent() && PaddedWithZero()
    }

    /** The bytes appended so far, after what the file held at the start. */
    ghost function Logical(): seq<Byte>
      requires logicalOffset <= |file|
      reads this
    {
      file[..logicalOffset]
    }

    constructor (contents: seq<Byte>, blockSize: nat, addr: nat)
      requires blockSize > 0 && |contents| % blockSize == 0 && addr % blockSize == 0
      ensures Valid() && isOpen && fresh(buffer)
      ensures Logical() == contents && alignment == blockSize && AllZero(buffer[..])
      ensures WholeBlocks() && base == contents && writes == []
    {
      alignment, bufferAddr := blockSize, addr;
      buffer := new Byte[blockSize](_ => 0);
      logicalOffset, file, isOpen := |contents|, contents, true;
      base, writes := contents, [];
    }

    /** The source's constructor panics when it would have to read the last block back. */
    static method Open(contents: seq<Byte>, trunc: bool, blockSize: nat, addr: nat) returns (r: Opened)
      requires blockSize > 0 && addr % blockSize == 0
      ensures r.Panic? <==> !trunc && |contents| % blockSize != 0
      ensures r.Opened? ==>
                && fresh(r.file) && fresh(r.file.buffer) && r.file.Valid() && r.file.isOpen
                && r.file.alignment == blockSize && AllZero(r.file.buffer[..])
                && r.file.Logical() == (if trunc then [] else contents) && r.file.WholeBlocks()
    {
      var onDisk := if trunc then [] else contents;
      if |onDisk| % blockSize != 0 {
        return Panic;
      }
      var f := new WritableFileDirect(onDisk, blockSize, addr);
      r := Opened(f);
    }

    /** copy(dst, src), dst being the bounce buffer from at on. */
    method Copy(at: nat, src: seq<Byte>) returns (n: nat)
      requires at <= buffer.Length
      modifies buffer
      ensures n == if |src| <= buffer.Length - at then |src| else buffer.Length - at
      ensures buffer[..at] == old(buffer[..at])
      ensures buffer[at..at + n] == src[..n]
    {
      n := 0;
      while at + n < buffer.Length && n < |src|
        invariant n <= |src| && at + n <= buffer.Length
        invariant buffer[..at] == old(buffer[..at])
        invariant buffer[at..at + n] == src[..n]
      {
        buffer[at + n] := src[n];
        n := n + 1;
      }
    }

    method Zero(at: nat)
      requires at <= buffer.Length
      modifies buffer
      ensures buffer[..at] == old(buffer[..at])
      ensures AllZero(buffer[at..])
    {
      var i := at;
      while i < buffer.Length
        invariant at <= i <= buffer.Length
        invariant buffer[..at] == old(buffer[..at])
        invariant AllZero(buffer[at..i])
      {
        buffer[i] := 0;
        i := i + 1;
      }
      assert buffer[at..] == buffer[at..i];
    }

    /** _write__aligned: the only place that touches the file. */
    method PhysicallyWrite(buf: ConstBuffer, offset: nat)
      requires alignment > 0 && Aligned(buf.addr) && Aligned(|buf.bytes|) && Aligned(offset)
      requires offset <= |file| && Traced()
      modifies this`file, this`writes
      ensures file == Pwrite(old(file), offset, buf.bytes) && Traced()
      ensures writes == old(writes) + [PhysicalWrite(buf.addr, offset, buf.bytes)]
    {
      hide Pwrite, Replay;
      ReplayOne(base, writes, PhysicalWrite(buf.addr, offset, buf.bytes));
      file := Pwrite(file, offset, buf.bytes);
      writes := writes + [PhysicalWrite(buf.addr, offset, buf.bytes)];
    }

    lemma WithinBlock(off: nat, n: nat)
      requires alignment > 0 && Aligned(off) && n < alignment
      ensures (off + n) % alignment == n && Align(off + n) == off
    {
      AddMod(off, n, alignment);
    }

    lemma NextBlock(off: nat, n: nat)
      requires alignment > 0 && Aligned(off) && Aligned(n)
      ensures Aligned(off + n) && Align(off + n) == off + n
    {
      AddMod(off, n, alignment);
    }

    /** After the whole bounce buffer was written at off and n of its bytes count. */
    lemma AfterBlock(off: nat, n: nat)
      requires 0 < alignment == buffer.Length && Aligned(bufferAddr) && Aligned(off)
      requires 0 < n <= alignment && logicalOffset == off + n
      requires |file| == off + alignment && file[off..] == buffer[..] && Traced()
      ensures Coherent() && WholeBlocks()
      ensures n == alignment ==> Aligned(logicalOffset)
      ensures n < alignment ==> BufferConsumed() == n
      ensures file[logicalOffset..] == buffer[n..]
    {
      hide Replay, Traced;
      if n < alignment {
        WithinBlock(off, n);
        assert file[off..off + n] == file[off..][..n];
      } else {
        MulMod(1, 0, alignment);
        NextBlock(off, n);
      }
      assert file[off + n..] == file[off..][n..];
    }

    /** Write out the bounce buffer and count n of its bytes. */
    method WriteBlock(off: nat, n: nat)
      requires 0 < alignment == buffer.Length && Aligned(bufferAddr) && Aligned(off)
      requires 0 < n <= alignment && off <= |file| <= off + alignment && Traced()
      modifies this`file, this`writes, this`logicalOffset
      ensures file == old(file[..off]) + buffer[..] && logicalOffset == off + n
      ensures old(writes) <= writes && Coherent() && WholeBlocks() && (n == alignment ==> Aligned(logicalOffset))
      ensures AllZero(buffer[n..]) ==> PaddedWithZero()
    {
      hide Replay, Traced;
      MulMod(1, 0, alignment);
      PhysicallyWrite(ConstBuffer(bufferAddr, buffer[..]), off);
      logicalOffset := off + n;
      AfterBlock(off, n);
    }

    /** The writer believes what is there exactly when the buffer is coherent. */
    lemma BelievedIsLogical()
      requires Shaped()
      ensures Coherent() <==> Believed() == Logical()
      ensures Aligned(logicalOffset) ==> Coherent()
    {
      hide Replay, Traced;
      var start := Align(logicalOffset);
      assert Logical() == file[..start] + file[start..logicalOffset];
      assert Believed() == Logical() ==> Believed()[start..] == Logical()[start..];
    }

    /** write_unaligned_buf: aligned offset, unaligned data. */
    method WriteUnalignedBuf(buf: ConstBuffer) returns (remaining: ConstBuffer)
      requires Coherent() && Aligned(logicalOffset) && !Aligned(buf.addr) && buf.bytes != []
      modifies this`file, this`writes, this`logicalOffset, buffer
      ensures Coherent() && Took(buf, remaining, old(Logical())) && WholeBlocks() && old(writes) <= writes
      ensures remaining.bytes == [] || Aligned(remaining.addr)
    {
      hide Replay, Traced;
      ToBoundary(buf.addr);
      ghost var prior, off := Logical(), logicalOffset;
      var n := if Remain(buf.addr) <= |buf.bytes| then Remain(buf.addr) else |buf.bytes|;
      var under := buf.bytes[..n];
      remaining := ConstBuffer(buf.addr + n, buf.bytes[n..]);
      assert n <= alignment && |file| == off && file == prior;
      Refill(under, remaining.bytes);
      WriteBlock(logicalOffset, n);
      hide Coherent, AllZero;
      assert prior[..off] == prior;
      Front(prior, buffer[..], n);
    }

    lemma ToBoundary(value: nat)
      requires alignment > 0
      ensures Aligned(value + Remain(value))
    {
      assert value + Remain(value) == Align(value) + alignment;
      MulMod(1, 0, alignment);
      NextBlock(Align(value), alignment);
    }

    /** Fill the bounce buffer from its start, then with what follows, then with zeros. */
    method Refill(under: seq<Byte>, more: seq<Byte>)
      requires |under| <= buffer.Length
      modifies buffer
      ensures buffer[..|under|] == under
      ensures more == [] ==> AllZero(buffer[|under|..])
    {
      var m := Copy(0, under);
      assert buffer[..m] == under;
      var k := Copy(m, more);
      ghost var filled := buffer[..m + k];
      assert filled[..m] == buffer[..m];
      Zero(m + k);
      assert buffer[..m] == buffer[..m + k][..m];
    }

    /** Put src behind the first at bytes of the bounce buffer, and zeros behind that. */
    method TopUp(at: nat, src: seq<Byte>)
      requires at + |src| <= buffer.Length
      modifies buffer
      ensures buffer[..at + |src|] == old(buffer[..at]) + src
      ensures AllZero(buffer[at + |src|..])
    {
      var m := Copy(at, src);
      assert buffer[..at + m] == buffer[..at] + buffer[at..at + m];
      Zero(at + m);
    }

    static lemma Front(s: seq<Byte>, t: seq<Byte>, n: nat)
      requires n <= |t|
      ensures (s + t)[..|s| + n] == s + t[..n]
    {
    }

    /** What was taken from the front of buf now follows the prior bytes in the file. */
    ghost predicate Took(buf: ConstBuffer, rest: ConstBuffer, prior: seq<Byte>)
      reads this
    {
      && |rest.bytes| < |buf.bytes|
      && var n := |buf.bytes| - |rest.bytes|;
      && rest.bytes == buf.bytes[n..]
      && (rest.bytes != [] ==> rest.addr == buf.addr + n)
      && logicalOffset == |prior| + n <= |file|
      && file[..logicalOffset] == prior + buf.bytes[..n]
      && (rest.bytes == [] ==> PaddedWithZero())
    }

    /** write_unaligned_off: unaligned offset, any data. Writes what the buffer holds, stale or not. */
    method WriteUnalignedOff(buf: ConstBuffer) returns (remaining: ConstBuffer)
      requires Shaped() && !Aligned(logicalOffset) && buf.bytes != []
      modifies this`file, this`writes, this`logicalOffset, buffer
      ensures Coherent() && Took(buf, remaining, old(Believed())) && WholeBlocks() && old(writes) <= writes
      ensures Aligned(logicalOffset) || remaining.bytes == []
    {
      hide Replay, Traced;
      ghost var front, held := file[..Align(logicalOffset)], buffer[..BufferConsumed()];
      var n := if |buf.bytes| <= BufferRemain() then |buf.bytes| else BufferRemain();
      var consumed, src := BufferConsumed(), buf.bytes[..n];
      var alignedOffset := Align(logicalOffset);
      assert alignedOffset + consumed == logicalOffset;
      TopUp(consumed, src);
      remaining := ConstBuffer(buf.addr + n, buf.bytes[n..]);
      WriteBlock(alignedOffset, consumed + n);
      hide Coherent, AllZero, Align;
      Front(front, buffer[..], consumed + n);
      assert front + (held + src) == (front + held) + src;
    }

    /** _write_aligned: write whole blocks straight from the caller's memory. */
    method WriteBlocks(buf: ConstBuffer, offset: nat) returns (overflow: ConstBuffer)
      requires Coherent() && Aligned(buf.addr) && Aligned(offset) && offset == logicalOffset
      modifies this`file, this`writes
      ensures var n := Align(|buf.bytes|);
              && overflow == ConstBuffer(buf.addr + n, buf.bytes[n..])
              && file == old(file) + buf.bytes[..n]
      ensures Traced() && old(writes) <= writes
    {
      hide Replay, Traced;
      var n := Blocks(|buf.bytes|) * alignment;
      MulMod(Blocks(|buf.bytes|), 0, alignment);
      assert n == Align(|buf.bytes|);
      overflow := ConstBuffer(buf.addr + n, buf.bytes[n..]);
      if n > 0 {
        PhysicallyWrite(ConstBuffer(buf.addr, buf.bytes[..n]), offset);
      }
    }

    /** write_aligned: aligned offset, aligned data. */
    method WriteAligned(buf: ConstBuffer) returns (remaining: ConstBuffer)
      requires Coherent() && Aligned(logicalOffset) && Aligned(buf.addr) && buf.bytes != []
      modifies this`file, this`writes, this`logicalOffset, buffer
      ensures Coherent() && Took(buf, remaining, old(Logical())) && WholeBlocks() && old(writes) <= writes
      ensures remaining.bytes == []
    {
      hide Took, Replay, Traced;
      ghost var prior := Logical();
      var overflow := WriteBlocks(buf, logicalOffset);
      ghost var n := |buf.bytes| - |overflow.bytes|;
      assert n == Align(|buf.bytes|);
      NextBlock(logicalOffset, n);
      logicalOffset := logicalOffset + (|buf.bytes| - |overflow.bytes|);
      assert file == prior + buf.bytes[..n] && |file| == logicalOffset;
      if overflow.bytes != [] {
        WriteTail(overflow);
        assert buf.bytes == buf.bytes[..n] + overflow.bytes;
      } else {
        CutAtBlock(logicalOffset);
        assert buf.bytes[..n] == buf.bytes;
      }
      remaining := ConstBuffer(0, []);
      TookAll(buf, remaining, prior);
    }

    lemma TookAll(buf: ConstBuffer, rest: ConstBuffer, prior: seq<Byte>)
      requires buf.bytes != [] && rest.bytes == [] && logicalOffset == |prior| + |buf.bytes| <= |file|
      requires file[..logicalOffset] == prior + buf.bytes && PaddedWithZero()
      ensures Took(buf, rest, prior)
    {
      assert buf.bytes[|buf.bytes|..] == [] && buf.bytes[..|buf.bytes|] == buf.bytes;
    }

    /** The overflow goes into a block of its own, padded with zeros. */
    method WriteTail(overflow: ConstBuffer)
      requires 0 < alignment == buffer.Length && Aligned(bufferAddr) && Traced()
      requires Aligned(logicalOffset) && |file| == logicalOffset && 0 < |overflow.bytes| < alignment
      modifies this`file, this`writes, this`logicalOffset, buffer
      ensures Coherent() && PaddedWithZero() && logicalOffset == old(logicalOffset) + |overflow.bytes|
      ensures WholeBlocks() && old(writes) <= writes
      ensures file[..logicalOffset] == old(file) + overflow.bytes
    {
      hide Replay, Traced;
      ghost var file0 := file;
      Refill(overflow.bytes, []);
      WriteBlock(logicalOffset, |overflow.bytes|);
      hide Coherent, AllZero;
      assert file0[..|file0|] == file0;
      Front(file0, buffer[..], |overflow.bytes|);
    }

    /** write: any offset, any data, any size; consumes at least one byte. */
    method Write(buf: ConstBuffer) returns (rest: ConstBuffer)
      requires Shaped() && buf.bytes != []
      modifies this`file, this`writes, this`logicalOffset, buffer
      ensures Shaped() && Coherent() && Took(buf, rest, old(Believed())) && WholeBlocks() && old(writes) <= writes
    {
      hide Replay, Traced;
      BelievedIsLogical();
      rest := buf;
      if Aligned(logicalOffset) && Aligned(buf.addr) {
        rest := WriteAligned(buf);
      } else if !Aligned(logicalOffset) {
        rest := WriteUnalignedOff(buf);
      }
      if rest.bytes == [] {
        return;
      }
      ghost var mid, between := rest, Logical();
      if Aligned(rest.addr) {
        rest := WriteAligned(rest);
      } else {
        rest := WriteUnalignedBuf(rest);
      }
      TookTwice(buf, mid, rest, old(Believed()), between);
    }

    lemma TookTwice(buf: ConstBuffer, mid: ConstBuffer, rest: ConstBuffer, prior: seq<Byte>, between: seq<Byte>)
      requires |mid.bytes| <= |buf.bytes| && mid.bytes == buf.bytes[|buf.bytes| - |mid.bytes|..]
      requires mid.bytes != [] ==> mid.addr == buf.addr + (|buf.bytes| - |mid.bytes|)
      requires between == prior + buf.bytes[..|buf.bytes| - |mid.bytes|]
      requires Took(mid, rest, between)
      ensures Took(buf, rest, prior)
    {
      var a, b := |buf.bytes| - |mid.bytes|, |mid.bytes| - |rest.bytes|;
      assert buf.bytes[..a + b] == buf.bytes[..a] + mid.bytes[..b];
    }

    /** Append(slice). The slice follows what the writer believes is there, and that becomes true. */
    method Append(s: ConstBuffer)
      requires Shaped()
      modifies this`file, this`writes, this`logicalOffset, buffer
      ensures Shaped() && logicalOffset <= |file| && Believed() == old(Believed()) + s.bytes
      ensures s.bytes != [] || old(Valid()) ==> Valid()
      ensures s.bytes == [] ==> file == old(file)
      ensures s.bytes != [] || old(WholeBlocks()) ==> WholeBlocks()
      ensures Extended()
      ensures old(Valid()) ==> Logical() == old(Logical()) + s.bytes
      ensures logicalOffset == old(logicalOffset) + |s.bytes|
    {
      hide Shaped, Coherent, Believed, AllZero, Replay, Traced, Extended, WholeBlocks, Took;
      var buf := s;
      ghost var n: nat := 0;
      Starts();
      while buf.bytes != []
        invariant alignment > 0 && n <= |s.bytes| && buf.bytes == s.bytes[n..]
        invariant Shaped() && logicalOffset <= |file| && Believed() == old(Believed()) + s.bytes[..n]
        invariant n > 0 ==> Coherent() && (buf.bytes == [] ==> PaddedWithZero()) && WholeBlocks()
        invariant n == 0 ==> file == old(file) && (old(Valid()) ==> Valid()) && (old(WholeBlocks()) ==> WholeBlocks())
        invariant old(writes) <= writes
        decreases |buf.bytes|
      {
        buf := WriteNext(s, buf, n, old(Believed()));
        n := |s.bytes| - |buf.bytes|;
      }
      assert s.bytes[..n] == s.bytes;
      BelievedIsLogical();
      ReplayedSince();
    }

    lemma Starts()
      requires Shaped()
      ensures alignment > 0 && logicalOffset <= |file| && (Coherent() <==> Believed() == Logical())
    {
      BelievedIsLogical();
    }

    lemma ValidIsShaped()
      requires Valid()
      ensures Shaped() && logicalOffset <= |file|
    {
    }

    /** One round of the loop of Append: n bytes of the slice follow b, and some more do then. */
    method WriteNext(s: ConstBuffer, buf: ConstBuffer, ghost n: nat, ghost b: seq<Byte>) returns (rest: ConstBuffer)
      requires Shaped() && n < |s.bytes| && buf.bytes == s.bytes[n..] && Believed() == b + s.bytes[..n]
      modifies this`file, this`writes, this`logicalOffset, buffer
      ensures var m := |s.bytes| - |rest.bytes|;
              n < m && rest.bytes == s.bytes[m..] && Shaped() && Believed() == b + s.bytes[..m]
      ensures logicalOffset <= |file| && Coherent() && WholeBlocks() && old(writes) <= writes
      ensures rest.bytes == [] ==> PaddedWithZero()
    {
      hide Shaped, Coherent, Believed, AllZero, Replay, Traced, WholeBlocks;
      rest := Write(buf);
      TookMore(s.bytes, n, buf, rest, b);
      BelievedIsLogical();
    }

    lemma TookMore(bytes: seq<Byte>, n: nat, taken: ConstBuffer, rest: ConstBuffer, b: seq<Byte>)
      requires n < |bytes| && taken.bytes == bytes[n..] && Took(taken, rest, b + bytes[..n])
      ensures var m := |bytes| - |rest.bytes|;
              n < m && rest.bytes == bytes[m..] && logicalOffset <= |file| && Logical() == b + bytes[..m]
    {
      var m := |bytes| - |rest.bytes|;
      assert taken.bytes[..m - n] == bytes[n..m];
      assert bytes[..m] == bytes[..n] + bytes[n..m];
    }

    twostate lemma ReplayedSince()
      requires old(Shaped()) && Shaped() && old(writes) <= writes && base == old(base)
      ensures Extended()
    {
      ReplayMore(base, old(writes), writes[|old(writes)|..]);
      assert old(writes) + writes[|old(writes)|..] == writes;
    }

    method GetFileSize() returns (size: nat)
      requires Shaped()
      ensures size == |Logical()| <= |file|
    {
      size := logicalOffset;
    }

    /** Close(): cut the padding off. */
    method Close()
      requires Shaped()
      modifies this`file, this`base, this`writes, this`isOpen
      ensures !isOpen && Shaped()
      ensures old(isOpen) ==> file == old(Logical())
      ensures !old(isOpen) ==> file == old(file)
    {
      hide Replay, Traced;
      if !isOpen { return; }
      if logicalOffset > 0 && |file| != logicalOffset {
        file := Resize(file, logicalOffset);
        base, writes := file, [];
        NothingWritten();
      }
      isOpen := false;
    }

    /** Truncate(size). Nothing reloads the buffer, so the last block is believed to be what is in it. */
    method Truncate(size: nat)
      requires Shaped()
      modifies this`file, this`base, this`writes, this`logicalOffset
      ensures Shaped() && logicalOffset == size && file == Resize(old(file), size)
      ensures base == file && writes == []
      ensures Believed() == Resize(old(file), size)[..Align(size)] + old(buffer[..size % alignment])
      ensures old(Valid()) ==> Logical() == Resize(old(Logical()), size)
      ensures old(Valid()) ==> (Valid() <==> ValidState(alignment, buffer[..], Resize(old(file), size), size))
      ensures old(Valid()) && StaysUsable(alignment, old(logicalOffset), size) ==> Valid()
    {
      hide Replay, Traced;
      ghost var file0, off0 := file, logicalOffset;
      file := Resize(file, size);
      logicalOffset, base, writes := size, file, [];
      NothingWritten();
      ghost var usable := old(Valid()) && StaysUsable(alignment, off0, size);
      if usable {
        KeptByTruncate(alignment, buffer[..], file0, off0, size);
      }
    }

    lemma NothingWritten()
      requires alignment > 0 && file == base && writes == []
      ensures Traced()
    {
    }

    lemma CutAtBlock(size: nat)
      requires 0 < alignment == buffer.Length && Aligned(bufferAddr) && Traced()
      requires Aligned(size) && |file| == size == logicalOffset
      ensures Coherent() && WholeBlocks()
    {
      hide Replay, Traced;
      NextBlock(size, 0);
    }
  }

  // ----- truncation, on the values alone -----

  /** What Valid() says of the bounce buffer, the file and the offset. */
  ghost predicate ValidState(bs: nat, buffer: seq<Byte>, file: seq<Byte>, off: nat) {
    && 0 < bs == |buffer|
    && off <= |file| <= off + (if off % bs == 0 then 0 else bs - off % bs)
    && buffer[..off % bs] == file[off - off % bs..off]
    && AllZero(file[off..])
  }

  /** The sizes a caller may truncate to: a block boundary, or within the block in the buffer. */
  predicate StaysUsable(bs: nat, off: nat, size: nat)
    requires bs > 0
  {
    size % bs == 0 || off - off % bs <= size <= off
  }

  lemma SameBlock(bs: nat, off: nat, size: nat)
    requires bs > 0 && off - off % bs <= size < off - off % bs + bs
    ensures size - size % bs == off - off % bs
  {
    var q := off / bs;
    assert off == bs * q + off % bs;
    DivMod(q, size - bs * q, bs);
  }

  /** A file that ends at the offset, with c bytes of its last block in the buffer. */
  lemma StateAt(bs: nat, buffer: seq<Byte>, file: seq<Byte>, off: nat, c: nat)
    requires 0 < bs == |buffer| && c == off % bs && |file| == off
    ensures ValidState(bs, buffer, file, off) <==> buffer[..c] == file[off - c..]
  {
    assert file[off - c..off] == file[off - c..];
  }

  lemma KeptByTruncate(bs: nat, buffer: seq<Byte>, file: seq<Byte>, off: nat, size: nat)
    requires ValidState(bs, buffer, file, off) && StaysUsable(bs, off, size)
    ensures ValidState(bs, buffer, Resize(file, size), size)
  {
    var c, d := off % bs, size % bs;
    var cut := Resize(file, size);
    if d != 0 {
      SameBlock(bs, off, size);
      KeptInBlock(buffer, file, off - c, c, d);
      assert cut[size - d..] == cut[size - d..size];
    }
    hide ValidState, Resize;
    StateAt(bs, buffer, cut, size, d);
  }

  lemma KeptInBlock(buffer: seq<Byte>, file: seq<Byte>, start: nat, c: nat, d: nat)
    requires d <= c <= |buffer| && start + c <= |file| && buffer[..c] == file[start..start + c]
    ensures buffer[..d] == Resize(file, start + d)[start..start + d]
  {
    assert buffer[..d] == buffer[..c][..d];
    assert Resize(file, start + d)[start..start + d] == file[start..start + c][..d];
  }

  lemma Remainder(n: nat, bs: nat)
    requires bs > 0
    ensures n % bs < bs && n % bs <= n
  {
    MulMono(0, n / bs, bs, bs);
    assert n == bs * (n / bs) + n % bs;
  }

  lemma Matches(buffer: seq<Byte>, file: seq<Byte>, c: nat)
    requires c <= |buffer| && c <= |file| && forall j :: 0 <= j < c ==> buffer[j] == file[|file| - c + j]
    ensures buffer[..c] == file[|file| - c..]
  {
  }

  lemma Differs(buffer: seq<Byte>, file: seq<Byte>, d: nat, i: nat)
    requires i < d <= |buffer| && d <= |file| && buffer[i] != file[|file| - d + i]
    ensures buffer[..d] != file[|file| - d..]
  {
    assert buffer[..d][i] != file[|file| - d..][i];
  }

  /** For every other size some writer is left with a stale buffer. */
  lemma StaleWriter(bs: nat, off: nat, size: nat) returns (buffer: seq<Byte>, file: seq<Byte>)
    requires bs > 0 && !StaysUsable(bs, off, size)
    ensures ValidState(bs, buffer, file, off) && !ValidState(bs, buffer, Resize(file, size), size)
  {
    hide ValidState;
    var c, d := off % bs, size % bs;
    Remainder(off, bs);
    Remainder(size, bs);
    if size < off - c {
      EarlierBlock(bs, off, size);
      buffer, file := StaleZeros(off, size, c, d, bs);
    } else {
      buffer, file := StaleOnes(off, size, c, d, bs);
    }
    StateAt(bs, buffer, file, off, c);
    StateAt(bs, buffer, Resize(file, size), size, d);
  }

  /** Cut back to an earlier block, which does not begin with the zero the buffer holds. */
  lemma StaleZeros(off: nat, size: nat, c: nat, d: nat, bs: nat) returns (buffer: seq<Byte>, file: seq<Byte>)
    requires c < bs && 0 < d < bs && d <= size && size - d + bs <= off - c && size < off
    ensures |buffer| == bs && |file| == off && buffer[..c] == file[off - c..]
    ensures buffer[..d] != Resize(file, size)[size - d..]
  {
    buffer, file := seq(bs, _ => 0), seq(off, i => if i == size - d then 1 else 0);
    Matches(buffer, file, c);
    Differs(buffer, Resize(file, size), d, 0);
  }

  /** Grow beyond the bytes of the last block: zeros in the file, ones in the buffer. */
  lemma StaleOnes(off: nat, size: nat, c: nat, d: nat, bs: nat) returns (buffer: seq<Byte>, file: seq<Byte>)
    requires c < bs && 0 < d < bs && d <= size && c <= off < size
    ensures |buffer| == bs && |file| == off && buffer[..c] == file[off - c..]
    ensures buffer[..d] != Resize(file, size)[size - d..]
  {
    buffer, file := seq(bs, _ => 1), seq(off, i => if i < off - c then 0 else 1);
    Matches(buffer, file, c);
    Differs(buffer, Resize(file, size), d, d - 1);
  }

  lemma EarlierBlock(bs: nat, off: nat, size: nat)
    requires bs > 0 && size % bs != 0 && size < off - off % bs
    ensures size - size % bs + bs <= off - off % bs
  {
    var p, q := size / bs, off / bs;
    assert size == bs * p + size % bs && off == bs * q + off % bs;
    if q <= p { MulMono(bs, bs, q, p); }
    MulMono(bs, bs, p + 1, q);
  }

  /** The guard is exact: every valid writer survives Truncate(size) if and only if it holds. */
  lemma TruncateGuard(bs: nat, off: nat, size: nat)
    requires bs > 0
    ensures StaysUsable(bs, off, size) <==>
              forall buffer: seq<Byte>, file: seq<Byte> ::
                ValidState(bs, buffer, file, off) ==> ValidState(bs, buffer, Resize(file, size), size)
  {
    if StaysUsable(bs, off, size) {
      forall buffer: seq<Byte>, file: seq<Byte> | ValidState(bs, buffer, file, off)
        ensures ValidState(bs, buffer, Resize(file, size), size)
      {
        KeptByTruncate(bs, buffer, file, off, size);
      }
    } else {
      var buffer, file := StaleWriter(bs, off, size);
    }
  }

  /** What a truncation, an append and a close leave in the file: the bytes in front of the last block,
      the bounce buffer as it was, and the slice; with nothing to append, the file's own bytes. */
  ghost function LeftBy(f: WritableFileDirect, size: nat, bytes: seq<Byte>): seq<Byte>
    requires f.Shaped()
    reads f, f.buffer
  {
    if bytes == [] then Resize(f.file, size)
    else Resize(f.file, size)[..f.Align(size)] + f.buffer[..size % f.alignment] + bytes
  }

  method TruncateAppendClose(f: WritableFileDirect, size: nat, s: ConstBuffer)
    requires f.Shaped() && f.isOpen
    modifies f, f.buffer
    ensures f.file == old(LeftBy(f, size, s.bytes))
  {
    hide Replay, WritableFileDirect.Traced, WritableFileDirect.Extended;
    f.Truncate(size);
    f.Append(s);
    f.BelievedIsLogical();
    f.Close();
  }

  /** Open a file and append less than a block. */
  method OpenAndAppend(bs: nat, front: seq<Byte>, held: seq<Byte>) returns (f: WritableFileDirect)
    requires bs > 0 && |front| % bs == 0 && |held| < bs
    ensures fresh(f) && fresh(f.buffer) && f.isOpen && f.Valid() && f.alignment == bs
    ensures f.Logical() == front + held && f.buffer[..|held|] == held
  {
    hide Replay, WritableFileDirect.Traced, WritableFileDirect.Extended;
    var created := WritableFileDirect.Open(front, false, bs, 0);
    f := created.file;
    assert f.Valid() && f.logicalOffset <= |f.file| && f.logicalOffset == |front|;
    f.Append(ConstBuffer(0, held));
    if held == [] {
      assert f.buffer[..0] == held;
    } else {
      HeldInBuffer(f, front, held);
    }
  }

  /** A run to a valid writer at off whose buffer holds `held` from its start on. The contents in front
      of the last block are `front`. */
  method WriterAt(bs: nat, off: nat, front: seq<Byte>, held: seq<Byte>) returns (f: WritableFileDirect)
    requires bs > 0 && |front| % bs == 0 && |held| < bs && |front| <= off <= |front| + |held|
    ensures fresh(f) && fresh(f.buffer) && f.isOpen && f.Valid() && f.alignment == bs
    ensures f.Logical() == front + held[..off - |front|] && f.buffer[..|held|] == held
  {
    hide Replay, WritableFileDirect.Traced, WritableFileDirect.Extended;
    f := OpenAndAppend(bs, front, held);
    if off < |front| + |held| {
      TruncateInBlock(f, off, front, held);
    } else {
      assert held[..|held|] == held;
    }
  }

  lemma HeldInBuffer(f: WritableFileDirect, front: seq<Byte>, held: seq<Byte>)
    requires f.Valid() && |front| % f.alignment == 0 && 0 < |held| < f.alignment
    requires f.logicalOffset == |front| + |held| && f.Logical() == front + held
    ensures f.buffer[..|held|] == held
  {
    f.WithinBlock(|front|, |held|);
    assert f.file[|front|..f.logicalOffset] == f.Logical()[|front|..];
  }

  /** Cutting the last block back leaves the buffer as it is. */
  method TruncateInBlock(f: WritableFileDirect, off: nat, front: seq<Byte>, held: seq<Byte>)
    requires f.Valid() && |front| % f.alignment == 0 && 0 < |held| < f.alignment
    requires f.logicalOffset == |front| + |held| && f.Logical() == front + held && |front| <= off < f.logicalOffset
    modifies f`file, f`base, f`writes, f`logicalOffset
    ensures f.Valid() && f.Logical() == front + held[..off - |front|]
  {
    hide Replay, WritableFileDirect.Traced, WritableFileDirect.Extended;
    f.WithinBlock(|front|, |held|);
    ghost var was := f.Logical();
    f.Truncate(off);
    assert f.Logical() == was[..off] == front + held[..off - |front|];
  }

  /** The guard is exact for runs too: whenever it does not hold, opening, appending and a usable
      truncation lead to a valid writer at off whose file does not keep its bytes when it is truncated
      to that size, appended to and closed. */
  method StaleRun(bs: nat, off: nat, size: nat) returns (f: WritableFileDirect)
    requires bs > 0 && !StaysUsable(bs, off, size)
    ensures fresh(f) && f.isOpen && f.Valid() && f.alignment == bs && f.logicalOffset == off
    ensures forall s: seq<Byte> :: s != [] ==> LeftBy(f, size, s) != Resize(f.file, size) + s
  {
    hide Replay, WritableFileDirect.Traced, WritableFileDirect.Extended;
    var c, d := off % bs, size % bs;
    Remainder(off, bs);
    Remainder(size, bs);
    var start, at := off - c, size - d;
    StartAligned(off, bs);
    var m := if c < d then d else c;
    var back := size < start;
    ghost var i := if back then 0 else d - 1;
    if back { EarlierBlock(bs, off, size); }
    var front: seq<Byte> := seq(start, k => if back && k == at then 1 else 0);
    var held: seq<Byte> := seq(m, _ => if back then 0 else 1);
    f := WriterAt(bs, off, front, held);
    RightByte(f, front, held, size, at, i);
    assert f.Align(size) == at && f.buffer[i] == f.buffer[..m][i] == held[i];
    LosesBytes(f, size, i);
  }

  lemma LosesBytes(f: WritableFileDirect, size: nat, i: nat)
    requires f.Shaped() && i < size % f.alignment && f.Align(size) + i < size
    requires Resize(f.file, size)[f.Align(size) + i] != f.buffer[i]
    ensures forall s: seq<Byte> :: s != [] ==> LeftBy(f, size, s) != Resize(f.file, size) + s
  {
    forall s: seq<Byte> | s != [] ensures LeftBy(f, size, s) != Resize(f.file, size) + s {
      assert LeftBy(f, size, s)[f.Align(size) + i] == f.buffer[i];
    }
  }

  lemma RightByte(f: WritableFileDirect, front: seq<Byte>, held: seq<Byte>, size: nat, at: nat, i: nat)
    requires f.Valid() && |front| <= f.logicalOffset <= |front| + |held|
    requires f.Logical() == front + held[..f.logicalOffset - |front|] && at + i < size
    ensures at + i < |front| ==> at + i < f.logicalOffset && Resize(f.file, size)[at + i] == front[at + i]
    ensures at + i >= f.logicalOffset ==> Resize(f.file, size)[at + i] == 0
  {
    var k := at + i;
    if k < |front| && k < |f.file| {
      assert f.file[k] == f.Logical()[k];
    } else if f.logicalOffset <= k < |f.file| {
      assert f.file[k] == f.file[f.logicalOffset..][k - f.logicalOffset];
    }
  }

  lemma StartAligned(off: nat, bs: nat)
    requires bs > 0
    ensures off % bs <= off && (off - off % bs) % bs == 0
  {
    Remainder(off, bs);
    DivMod(off / bs, 0, bs);
  }

  /** A file of four bytes, cut to two and appended to: the two bytes are lost. */
  method StaleBuffer() returns (left: seq<Byte>)
    ensures left == [0, 0, 9]
  {
    hide Replay, WritableFileDirect.Traced, WritableFileDirect.Extended;
    var created := WritableFileDirect.Open([1, 2, 3, 4], false, 4, 0);
    var f := created.file;
    ghost var held := f.buffer[..];
    TruncateAppendClose(f, 2, ConstBuffer(0, [9]));
    assert f.Align(2) == 0 && held[..2] == [0, 0];
    left := f.file;
  }

  /** The bytes of several slices, one after the other. */
  function Flatten(slices: seq<ConstBuffer>): seq<Byte> {
    if slices == [] then [] else Flatten(slices[..|slices| - 1]) + slices[|slices| - 1].bytes
  }

  /** Any sequence of appends: the slices follow the contents, one after the other. */
  method AppendEach(f: WritableFileDirect, slices: seq<ConstBuffer>)
    requires f.Valid()
    modifies f`file, f`writes, f`logicalOffset, f.buffer
    ensures f.Valid() && f.Logical() == old(f.Logical()) + Flatten(slices)
  {
    hide WritableFileDirect.Valid, Flatten;
    f.ValidIsShaped();
    FlattenNone(slices);
    for i := 0 to |slices|
      invariant f.Valid() && f.logicalOffset <= |f.file| && f.Logical() == old(f.Logical()) + Flatten(slices[..i])
    {
      AppendNext(f, slices, i, old(f.Logical()));
    }
    assert slices[..|slices|] == slices;
  }

  method AppendNext(f: WritableFileDirect, slices: seq<ConstBuffer>, i: nat, ghost before: seq<Byte>)
    requires f.Valid() && i < |slices| && f.Logical() == before + Flatten(slices[..i])
    modifies f`file, f`writes, f`logicalOffset, f.buffer
    ensures f.Valid() && f.logicalOffset <= |f.file| && f.Logical() == before + Flatten(slices[..i + 1])
  {
    hide WritableFileDirect.Valid, WritableFileDirect.Shaped, Flatten;
    hide WritableFileDirect.Believed, WritableFileDirect.WholeBlocks, WritableFileDirect.Extended;
    f.ValidIsShaped();
    f.Append(slices[i]);
    FlattenNext(slices, i);
  }

  lemma FlattenNone(slices: seq<ConstBuffer>)
    ensures Flatten(slices[..0]) == []
  {
  }

  lemma FlattenNext(slices: seq<ConstBuffer>, i: nat)
    requires i < |slices|
    ensures Flatten(slices[..i + 1]) == Flatten(slices[..i]) + slices[i].bytes
  {
    assert slices[..i + 1][..i] == slices[..i];
  }

  /** A whole life of a file: whatever the sizes and addresses of the slices, closing leaves the
      prior contents followed by them, and nothing else. */
  method WriteFile(contents: seq<Byte>, trunc: bool, blockSize: nat, addr: nat, slices: seq<ConstBuffer>)
    returns (r: Option<seq<Byte>>)
    requires blockSize > 0 && addr % blockSize == 0
    ensures r == if !trunc && |contents| % blockSize != 0 then None
                 else Some((if trunc then [] else contents) + Flatten(slices))
  {
    hide WritableFileDirect.Valid, WritableFileDirect.Shaped, WritableFileDirect.WholeBlocks, AllZero, Flatten;
    var created := WritableFileDirect.Open(contents, trunc, blockSize, addr);
    if created.Panic? {
      return None;
    }
    created.file.ValidIsShaped();
    AppendEach(created.file, slices);
    created.file.ValidIsShaped();
    created.file.Close();
    r := Some(created.file.file);
  }
}
