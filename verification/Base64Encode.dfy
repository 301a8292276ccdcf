/** The vectorised base64 encoder (ircd/b64.cc:160-311): blocks of 48 bytes through a byte
    permutation and 64-bit shifts, a masked tail, and any output capacity. */
module Base64Encode {
  import opened Basics
  import opened Powers
  import opened Base64Spec
  import opened Base64Tables

  /** A little-endian 64-bit lane. */
  function Word(p: seq<Byte>): nat
    requires |p| == 8
  {
    Half(p[0], p[1], p[2], p[3]) + 0x1_0000_0000 * Half(p[4], p[5], p[6], p[7])
  }

  function Half(b0: nat, b1: nat, b2: nat, b3: nat): nat {
    b0 + 256 * b1 + 65536 * b2 + 16777216 * b3
  }

  /** w >> n */
  function Shr(w: nat, n: nat): nat {
    PowPositive(2, n);
    w / Pow(2, n)
  }

  /** Shifting a half-word of a permuted triple, whatever lies in the half-word above it. */
  lemma ShiftTriple(b0: Byte, b1: Byte, b2: Byte, above: nat)
    ensures var w := Half(b1, b0, b2, b1) + 0x1_0000_0000 * above;
            && w / 1024 % 64 == b0 / 4
            && w / 16 % 64 == b1 / 16 + (b0 * 16) % 64
            && w / 4194304 % 64 == (b1 * 4) % 64 + b2 / 64
            && w / 65536 % 64 == b2 % 64
  {
    ShiftParts(b0 / 4, b0 % 4, b1 / 16, b1 % 16, b2 / 64, b2 % 64, above);
    Quotient(b0 * 16, 64, b0 / 4, 16 * (b0 % 4));
    Quotient(b1 * 4, 64, b1 / 16, 4 * (b1 % 16));
  }

  lemma ShiftParts(h0: nat, l0: nat, h1: nat, l1: nat, h2: nat, l2: nat, above: nat)
    requires h0 < 64 && l0 < 4 && h1 < 16 && l1 < 16 && h2 < 4 && l2 < 64
    ensures var b0, b1, b2 := 4 * h0 + l0, 16 * h1 + l1, 64 * h2 + l2;
            var w := Half(b1, b0, b2, b1) + 0x1_0000_0000 * above;
            && w / 1024 % 64 == h0 && w / 16 % 64 == 16 * l0 + h1
            && w / 4194304 % 64 == 4 * l1 + h2 && w / 65536 % 64 == l2
  {
    var b0, b1, b2 := 4 * h0 + l0, 16 * h1 + l1, 64 * h2 + l2;
    var w := Half(b1, b0, b2, b1) + 0x1_0000_0000 * above;
    Quotient(w, 1024, h0 + 64 * (b2 + 256 * b1 + 65536 * above), b1 + 256 * l0);
    Quotient(w / 1024, 64, b2 + 256 * b1 + 65536 * above, h0);
    Quotient(w, 16, h1 + 16 * l0 + 64 * (h0 + 64 * b2 + 16384 * b1 + 4194304 * above), l1);
    Quotient(w / 16, 64, h0 + 64 * b2 + 16384 * b1 + 4194304 * above, h1 + 16 * l0);
    Quotient(w, 4194304, h2 + 4 * l1 + 64 * (h1 + 16 * above), b1 + 256 * b0 + 65536 * l2);
    Quotient(w / 4194304, 64, h1 + 16 * above, h2 + 4 * l1);
    Quotient(w, 65536, l2 + 64 * (h2 + 4 * b1 + 1024 * above), b1 + 256 * b0);
    Quotient(w / 65536, 64, h2 + 4 * b1 + 1024 * above, l2);
  }

  /** Shifting past the lower half-word. */
  lemma ShiftHigh(low: nat, high: nat, d: nat)
    requires low < 0x1_0000_0000 && 0 < d
    ensures (low + 0x1_0000_0000 * high) / (0x1_0000_0000 * d) == high / d
  {
    var q, r := high / d, high % d;
    assert high == d * q + r;
    MulAssoc(0x1_0000_0000, d, q);
    Quotient(low + 0x1_0000_0000 * high, 0x1_0000_0000 * d, q, low + 0x1_0000_0000 * r);
  }

  lemma SmallPowersOfTwo()
    ensures Pow(2, 10) == 1024 && Pow(2, 4) == 16 && Pow(2, 22) == 4194304 && Pow(2, 16) == 65536
  {
  }

  lemma PowersOfTwo()
    ensures Pow(2, 10) == 1024 && Pow(2, 4) == 16 && Pow(2, 22) == 4194304 && Pow(2, 16) == 65536
    ensures Pow(2, 42) == 0x1_0000_0000 * 1024 && Pow(2, 36) == 0x1_0000_0000 * 16
    ensures Pow(2, 54) == 0x1_0000_0000 * 4194304 && Pow(2, 48) == 0x1_0000_0000 * 65536
  {
    hide Pow;
    SmallPowersOfTwo();
    PowAdd(2, 16, 16);
    PowAdd(2, 32, 10);
    PowAdd(2, 32, 4);
    PowAdd(2, 32, 22);
    PowAdd(2, 32, 16);
  }

  /** One permuted lane of two triples, shifted and masked, holds eight sextets. */
  lemma LaneSextets(b0: Byte, b1: Byte, b2: Byte, c0: Byte, c1: Byte, c2: Byte)
    ensures var w := Word([b1, b0, b2, b1, c1, c0, c2, c1]);
            && Shr(w, 10) % 64 == b0 / 4 && Shr(w, 4) % 64 == b1 / 16 + (b0 * 16) % 64
            && Shr(w, 22) % 64 == (b1 * 4) % 64 + b2 / 64 && Shr(w, 16) % 64 == b2 % 64
            && Shr(w, 42) % 64 == c0 / 4 && Shr(w, 36) % 64 == c1 / 16 + (c0 * 16) % 64
            && Shr(w, 54) % 64 == (c1 * 4) % 64 + c2 / 64 && Shr(w, 48) % 64 == c2 % 64
  {
    hide Pow;
    PowersOfTwo();
    var low, high := Half(b1, b0, b2, b1), Half(c1, c0, c2, c1);
    ShiftTriple(b0, b1, b2, high);
    ShiftTriple(c0, c1, c2, 0);
    ShiftHigh(low, high, 1024);
    ShiftHigh(low, high, 16);
    ShiftHigh(low, high, 4194304);
    ShiftHigh(low, high, 65536);
  }

  /** The four or eight sextets of a lane are the formulas of its two triples. */
  lemma RowSextets(block: seq<Byte>, p: seq<Byte>, i: nat, j: nat)
    requires j < 8 && Permuted(block, p, i)
    ensures Shr(Word(p), ENCODE_SHIFT[i][j]) % 64 == Sextet(block, 8 * i + j)
  {
    hide Shr, Word;
    PermuteRow(i);
    ShiftRow(i);
    var b0, b1, b2 := block[6 * i], block[6 * i + 1], block[6 * i + 2];
    var c0, c1, c2 := block[6 * i + 3], block[6 * i + 4], block[6 * i + 5];
    assert p == [b1, b0, b2, b1, c1, c0, c2, c1];
    LaneSextets(b0, b1, b2, c0, c1, c2);
    if j < 4 {
      assert (8 * i + j) / 4 == 2 * i && (8 * i + j) % 4 == j;
    } else {
      assert (8 * i + j) / 4 == 2 * i + 1 && (8 * i + j) % 4 == j - 4;
    }
  }

  lemma TableShapes()
    ensures |ENCODE_PERMUTE| == 8 && |ENCODE_SHIFT| == 8
    ensures forall i :: 0 <= i < 8 ==> |ENCODE_PERMUTE[i]| == 8 && |ENCODE_SHIFT[i]| == 8
    ensures forall i, q :: 0 <= i < 8 && 0 <= q < 8 ==> ENCODE_PERMUTE[i][q] < 64
  {
    forall i | 0 <= i < 8
      ensures |ENCODE_PERMUTE[i]| == 8 && |ENCODE_SHIFT[i]| == 8
      ensures forall q :: 0 <= q < 8 ==> ENCODE_PERMUTE[i][q] < 64
    {
      PermuteRow(i);
      ShiftRow(i);
    }
  }

  /** vpermb, as eight lanes of eight bytes. */
  method Permute(block: seq<Byte>) returns (lanes: seq<seq<Byte>>)
    requires |block| == 64
    ensures |lanes| == 8 && forall i :: 0 <= i < 8 ==> Permuted(block, lanes[i], i)
  {
    TableShapes();
    lanes := [];
    for i := 0 to 8
      invariant |lanes| == i && forall r :: 0 <= r < i ==> Permuted(block, lanes[r], r)
    {
      var lane: seq<Byte> := [];
      for j := 0 to 8
        invariant |lane| == j && forall q :: 0 <= q < j ==> lane[q] == block[ENCODE_PERMUTE[i][q]]
      {
        lane := lane + [block[ENCODE_PERMUTE[i][j]]];
      }
      lanes := lanes + [lane];
    }
  }

  ghost predicate Permuted(block: seq<Byte>, lane: seq<Byte>, i: nat) {
    && |block| == 64 && i < 8 && |lane| == 8
    && |ENCODE_PERMUTE| == 8 && |ENCODE_PERMUTE[i]| == 8 && |ENCODE_SHIFT| == 8 && |ENCODE_SHIFT[i]| == 8
    && forall q :: 0 <= q < 8 ==> ENCODE_PERMUTE[i][q] < 64 && lane[q] == block[ENCODE_PERMUTE[i][q]]
  }

  /** encode_block: permute, shift, mask, look up. */
  method EncodeBlock(block: seq<Byte>, dict: string) returns (ret: seq<Byte>)
    requires |block| == 64 && IsDict(dict)
    ensures |ret| == 64 && forall m :: 0 <= m < 64 ==> ret[m] == DictAt(dict, Sextet(block, m))
  {
    hide Sextet, DictAt, Shr, Word, IsDict;
    var lanes := Permute(block);
    ret := [];
    for i := 0 to 8
      invariant |ret| == 8 * i
      invariant forall m :: 0 <= m < 8 * i ==> ret[m] == DictAt(dict, Sextet(block, m))
    {
      assert Permuted(block, lanes[i], i);
      for j := 0 to 8
        invariant |ret| == 8 * i + j
        invariant forall m :: 0 <= m < 8 * i + j ==> ret[m] == DictAt(dict, Sextet(block, m))
      {
        var sh := Shr(Word(lanes[i]), ENCODE_SHIFT[i][j]) % 64;
        RowSextets(block, lanes[i], i, j);
        ret := ret + [DictAt(dict, sh)];
      }
    }
  }

  // ----- whole buffers -----

  function EncodeSpec(x: seq<Byte>, dict: string): (r: seq<Byte>)
    requires IsDict(dict)
    ensures |r| == EncodedSize(|x|)
  {
    seq(EncodedSize(|x|), i requires 0 <= i < EncodedSize(|x|) => DictAt(dict, Scalar(x)[i]))
  }

  /** Forty-eight bytes from 48 * i on, zero past the end, in a lane of sixty-four. */
  ghost predicate Loaded(x: seq<Byte>, i: nat, block: seq<Byte>) {
    |block| == 64 && forall j :: 0 <= j < 48 ==> block[j] == At(x, 48 * i + j)
  }

  lemma BlockSextet(x: seq<Byte>, i: nat, block: seq<Byte>, m: nat)
    requires Loaded(x, i, block) && m < 64
    ensures Sextet(block, m) == Sextet(x, 64 * i + m)
  {
    var t := m / 4;
    assert t < 16 && (64 * i + m) / 4 == 16 * i + t && (64 * i + m) % 4 == m % 4;
    assert At(block, 3 * t) == At(x, 48 * i + 3 * t);
    assert At(block, 3 * t + 1) == At(x, 48 * i + (3 * t + 1));
    assert At(block, 3 * t + 2) == At(x, 48 * i + (3 * t + 2));
  }

  method LoadBlock(x: seq<Byte>, i: nat) returns (block: seq<Byte>)
    ensures Loaded(x, i, block)
  {
    block := seq(64, _ => 0);
    var j := 0;
    while j < 48 && i * 48 + j < |x|
      invariant j <= 48 && |block| == 64
      invariant forall k :: 0 <= k < j ==> block[k] == At(x, 48 * i + k)
      invariant forall k :: j <= k < 64 ==> block[k] == 0
    {
      block := block[j := x[i * 48 + j]];
      j := j + 1;
    }
  }

  /** The first n characters of out are those of the scalar encoding of x. */
  ghost predicate Encoded(out: array<Byte>, n: nat, x: seq<Byte>, dict: string)
    requires IsDict(dict)
    reads out
  {
    n <= out.Length && forall m :: 0 <= m < n ==> out[m] == DictAt(dict, Sextet(x, m))
  }

  /** One round of either loop: load, encode, store as much of the block as there is room for. */
  method EncodeAtBlock(out: array<Byte>, x: seq<Byte>, dict: string, i: nat, len: nat) returns (n: nat)
    requires IsDict(dict) && 64 * i <= len <= out.Length && Encoded(out, 64 * i, x, dict)
    modifies out
    ensures n == if 64 * i + 64 <= len then 64 * i + 64 else len
    ensures Encoded(out, n, x, dict)
    ensures forall k :: len <= k < out.Length ==> out[k] == old(out[k])
  {
    hide Sextet, DictAt, IsDict;
    var block := LoadBlock(x, i);
    var ret := EncodeBlock(block, dict);
    var j := 0;
    while j < 64 && i * 64 + j < len
      invariant j <= 64 && 64 * i + j <= len
      invariant Encoded(out, 64 * i + j, x, dict)
      invariant forall k :: len <= k < out.Length ==> out[k] == old(out[k])
    {
      BlockSextet(x, i, block, j);
      out[i * 64 + j] := ret[j];
      j := j + 1;
    }
    n := i * 64 + j;
  }

  /** encode_unpadded, for any input and any capacity. */
  method EncodeUnpadded(out: array<Byte>, x: seq<Byte>, dict: string) returns (len: nat)
    requires IsDict(dict)
    modifies out
    ensures len == if EncodedSize(|x|) <= out.Length then EncodedSize(|x|) else out.Length
    ensures out[..len] == EncodeSpec(x, dict)[..len]
    ensures forall k :: len <= k < out.Length ==> out[k] == old(out[k])
  {
    hide IsDict, Scalar, Sextet, DictAt;
    len := if EncodedSize(|x|) <= out.Length then EncodedSize(|x|) else out.Length;
    var i, n := 0, 0;
    while i < |x| / 48 && i < len / 64
      invariant n == 64 * i <= len && Encoded(out, n, x, dict)
      invariant forall k :: len <= k < out.Length ==> out[k] == old(out[k])
    {
      n := EncodeAtBlock(out, x, dict, i, len);
      i := i + 1;
    }
    while i * 48 < |x| && i * 64 < len
      invariant n == (if 64 * i <= len then 64 * i else len) && Encoded(out, n, x, dict)
      invariant forall k :: len <= k < out.Length ==> out[k] == old(out[k])
    {
      n := EncodeAtBlock(out, x, dict, i, len);
      i := i + 1;
    }
    assert n == len;
    forall m | 0 <= m < len ensures out[m] == EncodeSpec(x, dict)[m] {
      ScalarAt(x, m);
    }
  }

  const PAD: Byte := 61   // '='

  function Pads(n: nat): nat {
    (3 - n % 3) % 3
  }

  /** The encoding with its padding. */
  function PaddedSpec(x: seq<Byte>, dict: string): seq<Byte>
    requires IsDict(dict)
  {
    EncodeSpec(x, dict) + seq(Pads(|x|), _ => PAD)
  }

  /** The padding rule of section 4 of RFC 4648: the padded length is the next multiple of four, so one
      pad stands for a last group of two bytes and two for one of a single byte. */
  lemma PaddedLength(x: seq<Byte>, dict: string)
    requires IsDict(dict)
    ensures |PaddedSpec(x, dict)| == (|x| + 2) / 3 * 4
    ensures |PaddedSpec(x, dict)| % 4 == 0 && |PaddedSpec(x, dict)| - |EncodeSpec(x, dict)| < 3
    ensures forall i :: |EncodeSpec(x, dict)| <= i < |PaddedSpec(x, dict)| ==> PaddedSpec(x, dict)[i] == '=' as int
  {
    var n := |x|;
    assert n == n / 3 * 3 + n % 3;
    assert EncodedSize(n) == n / 3 * 4 + (if n % 3 == 0 then 0 else n % 3 + 1);
  }

  lemma ShortScalars()
    ensures IsDict(RFC1421) && Scalar([102]) == [25, 32] && Scalar([102, 111]) == [25, 38, 60]
  {
    assert Group(102, 0, 0) == 6684672 && Group(102, 111, 0) == 6713088;
    assert Cut(6684672) == [25, 32, 0, 0] && Cut(6713088) == [25, 38, 60, 0];
  }

  /** The test vectors of section 10 of RFC 4648 with one and two pads: "f" and "fo". */
  lemma Vectors()
    ensures PaddedSpec([102], RFC1421) == [90, 103, PAD, PAD]
    ensures PaddedSpec([102, 111], RFC1421) == [90, 109, 56, PAD]
  {
    ShortScalars();
    hide Scalar, DictAt, IsDict;
    DictShape(RFC1421, 25);
    DictShape(RFC1421, 32);
    DictShape(RFC1421, 38);
    DictShape(RFC1421, 60);
    assert EncodeSpec([102], RFC1421) == [90, 103] && EncodeSpec([102, 111], RFC1421) == [90, 109, 56];
  }

  /** copy(out + at, c): one character, if there is room. */
  method CopyChar(out: array<Byte>, at: nat, c: Byte) returns (n: nat)
    requires at <= out.Length
    modifies out
    ensures n == if at < out.Length then 1 else 0
    ensures out[..] == if at < out.Length then old(out[..])[at := c] else old(out[..])
  {
    n := 0;
    if at < out.Length {
      out[at] := c;
      n := 1;
    }
  }

  /** encode. When less than two pads are due, a NUL lands behind the result if there is room. */
  method Encode(out: array<Byte>, x: seq<Byte>, dict: string) returns (len: nat)
    requires IsDict(dict)
    modifies out
    ensures len == if |PaddedSpec(x, dict)| <= out.Length then |PaddedSpec(x, dict)| else out.Length
    ensures out[..len] == PaddedSpec(x, dict)[..len]
    ensures forall k :: len < k < out.Length ==> out[k] == old(out[k])
    ensures len < out.Length ==> out[len] == if Pads(|x|) == 2 then old(out[len]) else 0
  {
    hide IsDict, EncodeSpec;
    var pads := (3 - |x| % 3) % 3;
    var n := EncodeUnpadded(out, x, dict);
    len := n;
    var a := CopyChar(out, len, if pads > 0 then PAD else 0);
    len := len + if pads > 0 then a else 0;
    var b := CopyChar(out, len, if pads > 1 then PAD else 0);
    len := len + if pads > 1 then b else 0;
    forall m | 0 <= m < n ensures out[m] == EncodeSpec(x, dict)[m] {
      assert EncodeSpec(x, dict)[m] == EncodeSpec(x, dict)[..n][m];
    }
  }
}
