/** The vectorised base64 decoder (ircd/b64.cc:317-450): 64 characters at a time through the
    decode table, two multiply-adds and a byte permutation. The last block is filled with zero
    bytes, which decode to 64, and a mask keeps their errors out. */
module Base64Decode {
  import opened Basics
  import opened Powers
  import opened Base64Spec
  import opened Base64Tables
  import opened Base64Encode

  const FILL := 64

  function Val(v: seq<nat>, i: nat): nat {
    if i < |v| then v[i] else FILL
  }

  /** Byte k of the 24-bit group n. */
  function GroupByte(n: nat, k: nat): Byte {
    if k == 0 then n / 65536 % 256 else if k == 1 then n / 256 % 256 else n % 256
  }

  /** The byte the decoder emits at m: missing values of the last quad count as 64. */
  function CodeByte(v: seq<nat>, m: nat): Byte {
    var t := 4 * (m / 3);
    GroupByte(Join(Val(v, t), Val(v, t + 1), Val(v, t + 2), Val(v, t + 3)), m % 3)
  }

  function CodeBytes(v: seq<nat>): (r: seq<Byte>)
    ensures |r| == DecodedSize(|v|)
  {
    seq(DecodedSize(|v|), m requires 0 <= m => CodeByte(v, m))
  }

  function Values(s: seq<Byte>): (v: seq<nat>)
    ensures |v| == |s|
  {
    seq(|s|, i requires 0 <= i < |s| => ValueOf(s[i]))
  }

  // ----- what the 64s of the fill do -----

  /** All the bits of the last character that fill no byte are set. */
  predicate SpareBitsAllOnes(v: seq<nat>) {
    || (|v| % 4 == 2 && v[|v| - 1] % 16 == 15)
    || (|v| % 4 == 3 && v[|v| - 1] % 4 == 3)
  }

  /** The quads from position 4 on are those of the rest. */
  lemma CodeShift(v: seq<nat>, m: nat)
    requires |v| >= 4 && m >= 3
    ensures CodeByte(v[4..], m - 3) == CodeByte(v, m)
  {
    var t := m / 3;
    assert (m - 3) / 3 == t - 1 && (m - 3) % 3 == m % 3;
    assert forall i :: 0 <= i ==> Val(v[4..], i) == Val(v, i + 4);
    assert Val(v[4..], 4 * (t - 1)) == Val(v, 4 * t) && Val(v[4..], 4 * (t - 1) + 1) == Val(v, 4 * t + 1);
    assert Val(v[4..], 4 * (t - 1) + 2) == Val(v, 4 * t + 2) && Val(v[4..], 4 * (t - 1) + 3) == Val(v, 4 * t + 3);
  }

  /** Two characters and two fills: the fill adds one to the low four bits above the first byte. */
  lemma TailOfTwo(v0: nat, v1: nat)
    requires v0 < 64 && v1 < 64
    ensures Join(v0, v1, FILL, FILL) / 65536 % 256 == Join(v0, v1, 0, 0) / 65536 <==> v1 % 16 != 15
    ensures Join(v0, v1, 0, 0) / 65536 == 4 * v0 + v1 / 16
  {
    var h, l := v1 / 16, v1 % 16;
    var top := 4 * v0 + h;
    Quotient(Join(v0, v1, 0, 0), 65536, top, l * 4096);
    if l != 15 {
      Quotient(Join(v0, v1, 64, 64), 65536, top, l * 4096 + 4160);
    } else {
      Quotient(Join(v0, v1, 64, 64), 65536, top + 1, 64);
    }
  }

  /** The fill's one does not get past the spare bits. */
  lemma ThreeFit(top: nat, s: nat)
    requires top < 65536 && s < 3
    ensures var code, right := top * 256 + s * 64 + 64, top * 256 + s * 64;
            code / 65536 % 256 == right / 65536 && code / 256 % 256 == right / 256 % 256
  {
    var h, l := top / 256, top % 256;
    Quotient(top * 256 + s * 64, 256, top, s * 64);
    Quotient(top * 256 + s * 64 + 64, 256, top, s * 64 + 64);
    Quotient(top * 256 + s * 64, 65536, h, l * 256 + s * 64);
    Quotient(top * 256 + s * 64 + 64, 65536, h, l * 256 + s * 64 + 64);
  }

  /** It does when they are all ones. */
  lemma ThreeCarry(top: nat)
    ensures (top * 256 + 256) / 256 % 256 != (top * 256 + 192) / 256 % 256
  {
    Quotient(top * 256 + 256, 256, top + 1, 0);
    Quotient(top * 256 + 192, 256, top, 192);
  }

  /** Three characters and one fill. */
  lemma TailOfThree(v0: nat, v1: nat, v2: nat)
    requires v0 < 64 && v1 < 64 && v2 < 64
    ensures var code, right := Join(v0, v1, v2, FILL), Join(v0, v1, v2, 0);
            code / 65536 % 256 == right / 65536 && code / 256 % 256 == right / 256 % 256 <==> v2 % 4 != 3
  {
    var g, s := v2 / 4, v2 % 4;
    var top := v0 * 1024 + v1 * 16 + g;
    assert Join(v0, v1, v2, FILL) == top * 256 + s * 64 + 64 && Join(v0, v1, v2, 0) == top * 256 + s * 64;
    if s != 3 {
      ThreeFit(top, s);
    } else {
      ThreeCarry(top);
    }
  }

  lemma WholeQuad(v0: nat, v1: nat, v2: nat, v3: nat)
    requires v0 < 64 && v1 < 64 && v2 < 64 && v3 < 64
    ensures var n := Join(v0, v1, v2, v3);
            GroupByte(n, 0) == n / 65536 && GroupByte(n, 1) == n / 256 % 256 && GroupByte(n, 2) == n % 256
  {
    Quotient(Join(v0, v1, v2, v3), 65536, 4 * v0 + v1 / 16, v1 % 16 * 4096 + v2 * 64 + v3);
  }

  lemma QuadByte(v: seq<nat>, m: nat)
    requires m < 3
    ensures CodeByte(v, m) == GroupByte(Join(Val(v, 0), Val(v, 1), Val(v, 2), Val(v, 3)), m)
  {
    hide Join, GroupByte, Val;
    assert m / 3 == 0 && m % 3 == m;
  }

  lemma UnscalarQuad(v: seq<nat>)
    requires Sextets(v) && |v| >= 4
    ensures var n := Join(v[0], v[1], v[2], v[3]); Unscalar(v) == [n / 65536, n / 256 % 256, n % 256] + Unscalar(v[4..])
  {
    hide Join;
  }

  lemma FirstQuad(v: seq<nat>)
    requires Sextets(v) && |v| >= 4
    ensures CodeByte(v, 0) == Unscalar(v)[0] && CodeByte(v, 1) == Unscalar(v)[1] && CodeByte(v, 2) == Unscalar(v)[2]
  {
    hide Join, CodeByte, Unscalar, GroupByte, DecodedSize;
    UnscalarQuad(v);
    QuadByte(v, 0);
    QuadByte(v, 1);
    QuadByte(v, 2);
    WholeQuad(v[0], v[1], v[2], v[3]);
  }

  lemma OtherQuads(v: seq<nat>)
    requires Sextets(v) && |v| >= 4
    ensures CodeBytes(v)[3..] == CodeBytes(v[4..]) && Unscalar(v)[3..] == Unscalar(v[4..])
  {
    hide CodeByte, Unscalar, Join;
    UnscalarQuad(v);
    forall m | 3 <= m < DecodedSize(|v|) ensures CodeByte(v, m) == CodeByte(v[4..], m - 3) { CodeShift(v, m); }
  }

  lemma SpareBitsShift(v: seq<nat>)
    requires |v| >= 4
    ensures SpareBitsAllOnes(v[4..]) <==> SpareBitsAllOnes(v)
  {
    assert (|v| - 4) % 4 == |v| % 4;
  }

  lemma SameHeadAndTail(c: seq<Byte>, u: seq<Byte>)
    requires |c| >= 3 && |u| >= 3 && c[0] == u[0] && c[1] == u[1] && c[2] == u[2]
    ensures c == u <==> c[3..] == u[3..]
  {
    assert c == [c[0], c[1], c[2]] + c[3..] && u == [u[0], u[1], u[2]] + u[3..];
  }

  /** The decoder agrees with section 4 of RFC 4648 exactly when the spare bits of the last
      character are not all ones: only then does the fill's carry reach an emitted byte. */
  lemma {:induction false} CodeIsUnscalar(v: seq<nat>)
    requires Sextets(v)
    ensures CodeBytes(v) == Unscalar(v) <==> !SpareBitsAllOnes(v)
  {
    hide CodeByte, Unscalar, SpareBitsAllOnes;
    if |v| >= 4 {
      CodeIsUnscalar(v[4..]);
      FirstQuad(v);
      OtherQuads(v);
      SpareBitsShift(v);
      SameHeadAndTail(CodeBytes(v), Unscalar(v));
    } else {
      LastQuad(v);
    }
  }

  lemma LastQuad(v: seq<nat>)
    requires Sextets(v) && |v| < 4
    ensures CodeBytes(v) == Unscalar(v) <==> !SpareBitsAllOnes(v)
  {
    if |v| == 2 {
      TailOfTwo(v[0], v[1]);
      assert CodeBytes(v)[0] == Join(v[0], v[1], FILL, FILL) / 65536 % 256;
    } else if |v| == 3 {
      TailOfThree(v[0], v[1], v[2]);
      assert CodeBytes(v)[0] == Join(v[0], v[1], v[2], FILL) / 65536 % 256;
      assert CodeBytes(v)[1] == Join(v[0], v[1], v[2], FILL) / 256 % 256;
    }
  }

  /** The last sextet of a short group has its spare bits zero. */
  lemma LastSextet(x: seq<Byte>, k: nat)
    requires |x| / 3 == k
    ensures |x| % 3 == 1 ==> Sextet(x, 4 * k + 1) % 16 == 0
    ensures |x| % 3 == 2 ==> Sextet(x, 4 * k + 2) % 4 == 0
  {
    assert (4 * k + 1) / 4 == k && (4 * k + 1) % 4 == 1 && (4 * k + 2) / 4 == k && (4 * k + 2) % 4 == 2;
    var b0: nat, b1: nat := At(x, 3 * k), At(x, 3 * k + 1);
    Quotient(b0 * 16, 64, b0 / 4, 16 * (b0 % 4));
    Quotient(b1 * 4, 64, b1 / 16, 4 * (b1 % 16));
  }

  /** None of them is set. */
  predicate SpareBitsZero(v: seq<nat>) {
    && (|v| % 4 == 2 ==> v[|v| - 1] % 16 == 0)
    && (|v| % 4 == 3 ==> v[|v| - 1] % 4 == 0)
  }

  /** The encoder leaves the spare bits zero (section 3.5 of RFC 4648). */
  lemma ScalarSpareBits(x: seq<Byte>)
    ensures SpareBitsZero(Scalar(x)) && !SpareBitsAllOnes(Scalar(x))
  {
    hide Sextet, Scalar;
    var k := |x| / 3;
    LastSextet(x, k);
    if |x| % 3 == 1 {
      assert |x| == 3 * k + 1 && EncodedSize(|x|) == 4 * k + 2;
      ScalarAt(x, 4 * k + 1);
    } else if |x| % 3 == 2 {
      assert |x| == 3 * k + 2 && EncodedSize(|x|) == 4 * k + 3;
      ScalarAt(x, 4 * k + 2);
    } else {
      assert |x| == 3 * k && EncodedSize(|x|) == 4 * k;
    }
  }

  lemma ValuesOfEncoding(x: seq<Byte>, dict: string)
    requires IsDict(dict)
    ensures Values(EncodeSpec(x, dict)) == Scalar(x)
  {
    forall i | 0 <= i < EncodedSize(|x|) ensures ValueOf(EncodeSpec(x, dict)[i]) == Scalar(x)[i] {
      DictEntry(dict, Scalar(x)[i]);
    }
  }

  /** Decoding inverts encoding, for every input and each dictionary. */
  lemma DecodeUndoesEncode(x: seq<Byte>, dict: string)
    requires IsDict(dict)
    ensures CodeBytes(Values(EncodeSpec(x, dict))) == x
    ensures forall c <- EncodeSpec(x, dict) :: ValueOf(c) < 64 && c != PAD
  {
    ValuesOfEncoding(x, dict);
    ScalarSpareBits(x);
    CodeIsUnscalar(Scalar(x));
    UnscalarScalar(x);
    forall i | 0 <= i < EncodedSize(|x|) ensures EncodeSpec(x, dict)[i] != PAD && ValueOf(EncodeSpec(x, dict)[i]) < 64 {
      DictEntry(dict, Scalar(x)[i]);
    }
  }

  // ----- one block -----

  /** Byte k of a little-endian 32-bit lane. */
  function LaneByte(b: nat, k: nat): Byte {
    if k == 0 then b % 256 else if k == 1 then b / 256 % 256 else if k == 2 then b / 65536 % 256 else b / 16777216 % 256
  }

  /** The permutation turns the three low bytes of every lane around and drops the fourth. */
  lemma PermuteEntry(m: nat)
    requires m < 48
    ensures |DECODE_PERMUTE| == 4 && |DECODE_PERMUTE[m / 12]| == 12
    ensures DECODE_PERMUTE[m / 12][m % 12] == 4 * (m / 3) + 2 - m % 3
  {
    var r, c := m / 12, m % 12;
    assert m == 12 * r + c;
    DecodePermuteRow(r);
    assert m / 3 == 4 * r + c / 3 && m % 3 == c % 3;
  }

  /** Two 16-bit multiply-adds and one of 32 bits join a quad; nothing wraps, even on fills. */
  lemma MultiplyAdd(v0: nat, v1: nat, v2: nat, v3: nat)
    requires v0 <= 64 && v1 <= 64 && v2 <= 64 && v3 <= 64
    ensures ((v0 * 64 + v1) % 65536 * 4096 + (v2 * 64 + v3) % 65536) % 0x1_0000_0000 == Join(v0, v1, v2, v3)
  {
    var a0, a1 := v0 * 64 + v1, v2 * 64 + v3;
    Quotient(a0, 65536, 0, a0);
    Quotient(a1, 65536, 0, a1);
    Quotient(a0 * 4096 + a1, 0x1_0000_0000, 0, a0 * 4096 + a1);
  }

  ghost predicate Joined(vals: seq<nat>, b: seq<nat>) {
    |vals| == 64 && |b| <= 16 &&
    forall q :: 0 <= q < |b| ==>
      b[q] == Join(Val(vals, 4 * q), Val(vals, 4 * q + 1), Val(vals, 4 * q + 2), Val(vals, 4 * q + 3))
  }

  lemma JoinedByte(vals: seq<nat>, b: seq<nat>, m: nat)
    requires Joined(vals, b) && |b| == 16 && m < 48
    ensures LaneByte(b[m / 3], 2 - m % 3) == CodeByte(vals, m)
  {
    hide Join, Val;
  }

  method JoinQuads(vals: seq<nat>) returns (b: seq<nat>)
    requires |vals| == 64 && forall k :: 0 <= k < 64 ==> vals[k] <= 64
    ensures |b| == 16 && Joined(vals, b)
  {
    hide Join;
    b := [];
    for q := 0 to 16
      invariant |b| == q && Joined(vals, b)
    {
      var v0, v1, v2, v3 := vals[4 * q], vals[4 * q + 1], vals[4 * q + 2], vals[4 * q + 3];
      MultiplyAdd(v0, v1, v2, v3);
      var a0, a1 := (v0 * 64 + v1) % 65536, (v2 * 64 + v3) % 65536;
      b := b + [(a0 * 4096 + a1) % 0x1_0000_0000];
    }
  }

  /** decode_block: table, error lanes, multiply-adds, permutation. */
  method DecodeBlock(block: seq<Byte>) returns (ret: seq<Byte>, err: seq<bv8>)
    requires |block| == 64
    ensures |ret| == 48 && forall m :: 0 <= m < 48 ==> ret[m] == CodeByte(Values(block), m)
    ensures |err| == 64 && forall k :: 0 <= k < 64 ==> err[k] == if ValueOf(block[k]) < 64 then 0 else 0xff
  {
    hide CodeByte, LaneByte, DecodeTab, ValueOf;
    var vals: seq<nat> := [];
    err := [];
    for k := 0 to 64
      invariant |vals| == |err| == k && vals == Values(block)[..k]
      invariant forall r :: 0 <= r < k ==> vals[r] <= 64 && err[r] == if ValueOf(block[r]) < 64 then 0 else 0xff
    {
      DecodeTabShape(block[k]);
      ValueBound64(block[k]);
      vals := vals + [DecodeTab(block[k])];
      err := err + [if vals[k] >= 64 then 0xff else 0];
    }
    assert vals == Values(block);
    var b := JoinQuads(vals);
    ret := [];
    for m := 0 to 48
      invariant |ret| == m && forall r :: 0 <= r < m ==> ret[r] == CodeByte(vals, r)
    {
      PermuteEntry(m);
      var from := DECODE_PERMUTE[m / 12][m % 12];
      assert from / 4 == m / 3 && from % 4 == 2 - m % 3;
      JoinedByte(vals, b, m);
      ret := ret + [LaneByte(b[from / 4], from % 4)];
    }
  }

  lemma ValueBound64(c: Byte)
    ensures ValueOf(c) <= 64
  {
  }

  // ----- whole strings -----

  /** The string without its trailing pads. */
  function Unpad(s: seq<Byte>): (t: seq<Byte>)
    ensures |t| <= |s| && t == s[..|t|]
    ensures |t| > 0 ==> t[|t| - 1] != PAD
    ensures forall k :: |t| <= k < |s| ==> s[k] == PAD
  {
    if s != [] && s[|s| - 1] == PAD then Unpad(s[..|s| - 1]) else s
  }

  function OutSize(len: nat, capacity: nat): nat {
    if DecodedSize(len) <= capacity then DecodedSize(len) else capacity
  }

  /** How many characters are looked at when n bytes are wanted: whole blocks of 64. */
  function Validated(len: nat, n: nat): nat {
    var whole := 64 * ((n + 47) / 48);
    if whole <= len then whole else len
  }

  ghost predicate Foreign(t: seq<Byte>, hi: nat) {
    exists j :: 0 <= j < hi && j < |t| && ValueOf(t[j]) >= 64
  }

  /** What decode yields: no bytes when it throws. */
  ghost function DecodeSpec(s: seq<Byte>, capacity: nat): Option<seq<Byte>> {
    var t := Unpad(s);
    var n := OutSize(|t|, capacity);
    if Foreign(t, Validated(|t|, n)) then None else Some(CodeBytes(Values(t))[..n])
  }

  /** Sixty-four characters from 64 * i on, zero past the end. */
  ghost predicate LoadedChars(t: seq<Byte>, i: nat, block: seq<Byte>) {
    |block| == 64 && forall j :: 0 <= j < 64 ==> block[j] == At(t, 64 * i + j)
  }

  lemma BlockValue(t: seq<Byte>, i: nat, block: seq<Byte>, j: nat)
    requires LoadedChars(t, i, block) && j < 64
    ensures Val(Values(block), j) == Val(Values(t), 64 * i + j)
  {
    assert block[j] == At(t, 64 * i + j) && ValueOf(0) == 64;
  }

  lemma BlockByte(t: seq<Byte>, i: nat, block: seq<Byte>, m: nat)
    requires LoadedChars(t, i, block) && m < 48
    ensures CodeByte(Values(block), m) == CodeByte(Values(t), 48 * i + m)
  {
    hide Join, Val, Values, GroupByte;
    var q := m / 3;
    assert (48 * i + m) / 3 == 16 * i + q && (48 * i + m) % 3 == m % 3;
    BlockValue(t, i, block, 4 * q);
    BlockValue(t, i, block, 4 * q + 1);
    BlockValue(t, i, block, 4 * q + 2);
    BlockValue(t, i, block, 4 * q + 3);
  }

  ghost predicate Emitted(out: array<Byte>, n: nat, t: seq<Byte>)
    reads out
  {
    n <= out.Length && forall m :: 0 <= m < n ==> out[m] == CodeByte(Values(t), m)
  }

  /** Store as much of a decoded block as is wanted. */
  method StoreBlock(out: array<Byte>, t: seq<Byte>, i: nat, block: seq<Byte>, ret: seq<Byte>, len: nat) returns (n: nat)
    requires LoadedChars(t, i, block)
    requires |ret| == 48 && forall m :: 0 <= m < 48 ==> ret[m] == CodeByte(Values(block), m)
    requires 48 * i <= len <= out.Length && Emitted(out, 48 * i, t)
    modifies out
    ensures n == if 48 * i + 48 <= len then 48 * i + 48 else len
    ensures Emitted(out, n, t)
    ensures forall k :: len <= k < out.Length ==> out[k] == old(out[k])
  {
    hide CodeByte, Values;
    var j := 0;
    while j < 48 && i * 48 + j < len
      invariant j <= 48 && 48 * i + j <= len
      invariant Emitted(out, 48 * i + j, t)
      invariant forall k :: len <= k < out.Length ==> out[k] == old(out[k])
    {
      BlockByte(t, i, block, j);
      out[i * 48 + j] := ret[j];
      j := j + 1;
    }
    n := i * 48 + j;
  }

  /** The last block, and a mask over the characters that are really there. */
  method LoadTail(t: seq<Byte>, i: nat) returns (block: seq<Byte>, mask: seq<bv8>)
    ensures LoadedChars(t, i, block)
    ensures |mask| == 64 && forall j :: 0 <= j < 64 ==> mask[j] == if 64 * i + j < |t| then 0xff else 0
  {
    block, mask := seq(64, _ => 0), seq(64, _ => 0);
    var j := 0;
    while j < 64 && i * 64 + j < |t|
      invariant j <= 64 && |block| == |mask| == 64
      invariant forall k :: 0 <= k < j ==> block[k] == At(t, 64 * i + k) && 64 * i + k < |t| && mask[k] == 0xff
      invariant forall k :: j <= k < 64 ==> block[k] == 0 && mask[k] == 0
    {
      block, mask := block[j := t[i * 64 + j]], mask[j := 0xff];
      j := j + 1;
    }
  }

  ghost predicate AnyLane(err: seq<bv8>) {
    exists k :: 0 <= k < |err| && err[k] != 0
  }

  function OrLanes(err: seq<bv8>, more: seq<bv8>, mask: seq<bv8>): (r: seq<bv8>)
    requires |err| == |more| == |mask|
    ensures |r| == |err| && forall k :: 0 <= k < |r| ==> r[k] == err[k] | (more[k] & mask[k])
  {
    seq(|err|, k requires 0 <= k < |err| => err[k] | (more[k] & mask[k]))
  }

  /** A masked error lane is set exactly for a foreign character that is really there. */
  lemma Accumulate(err: seq<bv8>, more: seq<bv8>, mask: seq<bv8>, t: seq<Byte>, i: nat, block: seq<Byte>)
    requires |err| == |more| == |mask| == 64 && LoadedChars(t, i, block)
    requires AnyLane(err) <==> Foreign(t, 64 * i)
    requires forall k :: 0 <= k < 64 ==> more[k] == if ValueOf(block[k]) < 64 then 0 else 0xff
    requires forall j :: 0 <= j < 64 ==> mask[j] == if 64 * i + j < |t| then 0xff else 0
    ensures AnyLane(OrLanes(err, more, mask)) <==> Foreign(t, 64 * i + 64)
  {
    hide ValueOf;
    var r := OrLanes(err, more, mask);
    forall k | 0 <= k < 64
      ensures r[k] != 0 <==> err[k] != 0 || (64 * i + k < |t| && ValueOf(t[64 * i + k]) >= 64)
    {
      assert block[k] == At(t, 64 * i + k);
      assert (0xff as bv8) & 0xff == 0xff;
    }
    if Foreign(t, 64 * i + 64) {
      var j :| 0 <= j < 64 * i + 64 && j < |t| && ValueOf(t[j]) >= 64;
      if j >= 64 * i {
        assert r[j - 64 * i] != 0;
      } else {
        assert Foreign(t, 64 * i);
      }
    }
  }

  method CountPads(s: seq<Byte>) returns (pads: nat)
    ensures pads <= |s| && Unpad(s) == s[..|s| - pads]
  {
    pads := 0;
    while pads < |s| && s[|s| - 1 - pads] == PAD
      invariant pads <= |s| && Unpad(s) == Unpad(s[..|s| - pads])
    {
      var rest := s[..|s| - pads];
      assert rest[..|rest| - 1] == s[..|s| - (pads + 1)];
      pads := pads + 1;
    }
  }

  method AnySet(err: seq<bv8>) returns (any: bool)
    ensures any <==> AnyLane(err)
  {
    any := false;
    for k := 0 to |err|
      invariant any <==> exists r :: 0 <= r < k && err[r] != 0
    {
      any := any || err[k] != 0;
    }
  }

  /** What decode leaves in the buffer and what it reports, for any string and capacity. */
  ghost predicate Outcome(out: array<Byte>, s: seq<Byte>, r: Option<nat>)
    reads out
  {
    var t := Unpad(s);
    var n := OutSize(|t|, out.Length);
    && out[..n] == CodeBytes(Values(t))[..n]
    && (r.Some? ==> r.value == n)
    && DecodeSpec(s, out.Length) == if r.None? then None else Some(out[..n])
  }

  /** One round of the tail loop. */
  method DecodeTail(out: array<Byte>, t: seq<Byte>, i: nat, len: nat, err: seq<bv8>) returns (n: nat, after: seq<bv8>)
    requires 48 * i <= len <= out.Length && Emitted(out, 48 * i, t)
    requires |err| == 64 && (AnyLane(err) <==> Foreign(t, 64 * i))
    modifies out
    ensures n == if 48 * i + 48 <= len then 48 * i + 48 else len
    ensures Emitted(out, n, t)
    ensures forall k :: len <= k < out.Length ==> out[k] == old(out[k])
    ensures |after| == 64 && (AnyLane(after) <==> Foreign(t, 64 * i + 64))
  {
    hide CodeByte, ValueOf, Values, AnyLane, Foreign, OrLanes;
    var block, mask := LoadTail(t, i);
    var ret, more := DecodeBlock(block);
    n := StoreBlock(out, t, i, block, ret, len);
    Accumulate(err, more, mask, t, i, block);
    after := OrLanes(err, more, mask);
  }

  /** One round of the loop over whole blocks: the characters come straight from the string. */
  method DecodeWhole(out: array<Byte>, t: seq<Byte>, i: nat, err: seq<bv8>) returns (after: seq<bv8>)
    requires 64 * i + 64 <= |t| && 48 * i + 48 <= out.Length && Emitted(out, 48 * i, t)
    requires |err| == 64 && (AnyLane(err) <==> Foreign(t, 64 * i))
    modifies out
    ensures Emitted(out, 48 * i + 48, t)
    ensures forall k :: 48 * i + 48 <= k < out.Length ==> out[k] == old(out[k])
    ensures |after| == 64 && (AnyLane(after) <==> Foreign(t, 64 * i + 64))
  {
    hide CodeByte, ValueOf, Values, AnyLane, Foreign, OrLanes;
    var block := t[64 * i..64 * i + 64];
    var ret, more := DecodeBlock(block);
    var n := StoreBlock(out, t, i, block, ret, 48 * i + 48);
    var all: seq<bv8> := seq(64, _ => 0xff);
    Accumulate(err, more, all, t, i, block);
    after := OrLanes(err, more, all);
  }

  /** decode. The buffer is written even when the string is then rejected. */
  method Decode(out: array<Byte>, s: seq<Byte>) returns (r: Option<nat>)
    modifies out
    ensures Outcome(out, s, r)
    ensures forall k :: OutSize(|Unpad(s)|, out.Length) <= k < out.Length ==> out[k] == old(out[k])
  {
    hide CodeByte, ValueOf, Values, AnyLane, Foreign;
    var pads := CountPads(s);
    var t := s[..|s| - pads];
    var len := OutSize(|t|, out.Length);
    var err: seq<bv8> := seq(64, _ => 0);
    NothingYet(t, err);
    var i, n := 0, 0;
    while i < |t| / 64 && i < len / 48
      invariant n == 48 * i <= len && Emitted(out, n, t)
      invariant 64 * i <= |t|
      invariant |err| == 64 && (AnyLane(err) <==> Foreign(t, 64 * i))
      invariant forall k :: len <= k < out.Length ==> out[k] == old(out[k])
    {
      err := DecodeWhole(out, t, i, err);
      i, n := i + 1, n + 48;
    }
    while i * 64 < |t| && i * 48 < len
      invariant n == (if 48 * i <= len then 48 * i else len) && Emitted(out, n, t)
      invariant i > 0 ==> 64 * (i - 1) <= |t| && 48 * (i - 1) < len
      invariant |err| == 64 && (AnyLane(err) <==> Foreign(t, 64 * i))
      invariant forall k :: len <= k < out.Length ==> out[k] == old(out[k])
    {
      n, err := DecodeTail(out, t, i, len, err);
      i := i + 1;
    }
    Rounds(|t|, len, i);
    SameForeign(t, 64 * i, Validated(|t|, len));
    var any := AnySet(err);
    r := if any then None else Some(len);
    assert out[..len] == CodeBytes(Values(t))[..len];
  }

  lemma NothingYet(t: seq<Byte>, err: seq<bv8>)
    requires forall k :: 0 <= k < |err| ==> err[k] == 0
    ensures !AnyLane(err) && !Foreign(t, 0)
  {
  }

  /** Where the loops stop: everything wanted is written, and whole blocks were looked at. */
  lemma Rounds(len: nat, n: nat, i: nat)
    requires n <= DecodedSize(len)
    requires !(i * 64 < len && i * 48 < n)
    requires i > 0 ==> 64 * (i - 1) <= len && 48 * (i - 1) < n
    ensures 48 * i >= n
    ensures Validated(len, n) == if 64 * i <= len then 64 * i else len
  {
    assert (n + 47) / 48 == i;
  }

  lemma SameForeign(t: seq<Byte>, hi: nat, cut: nat)
    requires cut == if hi <= |t| then hi else |t|
    ensures Foreign(t, hi) <==> Foreign(t, cut)
  {
  }

  // ----- what it means -----

  /** With room for the whole result, every character is looked at unless exactly one more than
      a multiple of 64 is left after the pads: then the last one is not. */
  lemma LooksAtAll(len: nat, capacity: nat)
    requires DecodedSize(len) <= capacity
    ensures Validated(len, OutSize(len, capacity)) == if len % 64 == 1 then len - 1 else len
  {
    var q, r := len / 64, len % 64;
    assert len == 64 * q + r;
    assert DecodedSize(len) == 48 * q + 3 * r / 4;
  }

  /** The one length that is not looked at in full: a foreign last character is accepted. */
  lemma LastIsUnread(s: seq<Byte>, capacity: nat)
    requires DecodedSize(|Unpad(s)|) <= capacity && |Unpad(s)| % 64 == 1
    ensures DecodeSpec(s, capacity).None? <==>
            exists j :: 0 <= j < |Unpad(s)| - 1 && ValueOf(Unpad(s)[j]) >= 64
  {
    LooksAtAll(|Unpad(s)|, capacity);
  }

  /** "!" is in no dictionary, and decodes to nothing without an error, in any buffer. */
  lemma ForeignAccepted(capacity: nat)
    ensures ValueOf(33) >= 64 && DecodeSpec([33], capacity) == Some([])
  {
    var t: seq<Byte> := [33];
    assert Unpad(t) == t && DecodedSize(1) == 0;
    LastIsUnread(t, capacity);
  }

  /** "AP", whose spare bits are all ones, decodes to the byte 1; by the RFC it is 0. */
  lemma CarryShows(capacity: nat)
    requires capacity >= 1
    ensures DecodeSpec([65, 80], capacity) == Some([1]) && Unscalar([0, 15]) == [0]
  {
    var t: seq<Byte> := [65, 80];
    assert Unpad(t) == t && Values(t) == [0, 15];
    assert CodeByte([0, 15], 0) == 1;
    assert CodeBytes(Values(t)) == [1];
    assert CodeBytes(Values(t))[..1] == [1];
  }

  /** Rejection is exact: some character is in none of the three dictionaries. */
  lemma RejectsForeign(s: seq<Byte>, capacity: nat)
    requires DecodedSize(|Unpad(s)|) <= capacity && |Unpad(s)| % 64 != 1
    ensures DecodeSpec(s, capacity).None? <==>
            exists j :: 0 <= j < |Unpad(s)| && ValueOf(Unpad(s)[j]) >= 64
  {
    LooksAtAll(|Unpad(s)|, capacity);
  }

  /** Accepted strings decode by section 4 of RFC 4648 unless all spare bits are ones. */
  lemma DecodesByTheRfc(s: seq<Byte>, capacity: nat)
    requires DecodedSize(|Unpad(s)|) <= capacity && |Unpad(s)| % 64 != 1
    requires DecodeSpec(s, capacity).Some?
    ensures Sextets(Values(Unpad(s)))
    ensures DecodeSpec(s, capacity).value == Unscalar(Values(Unpad(s))) <==> !SpareBitsAllOnes(Values(Unpad(s)))
  {
    RejectsForeign(s, capacity);
    CodeIsUnscalar(Values(Unpad(s)));
  }

  lemma {:induction false} UnpadPadded(t: seq<Byte>, n: nat)
    requires forall j :: 0 <= j < |t| ==> t[j] != PAD
    ensures Unpad(t + seq(n, _ => PAD)) == t
  {
    var s := t + seq(n, _ => PAD);
    if n > 0 {
      UnpadPadded(t, n - 1);
      assert s[..|s| - 1] == t + seq(n - 1, _ => PAD);
    } else {
      assert s == t;
    }
  }

  /** A clean string decodes in full, however many pads follow it. */
  lemma DecodesClean(t: seq<Byte>, pads: nat, capacity: nat)
    requires forall j :: 0 <= j < |t| ==> t[j] != PAD && ValueOf(t[j]) < 64
    requires DecodedSize(|t|) <= capacity
    ensures DecodeSpec(t + seq(pads, _ => PAD), capacity) == Some(CodeBytes(Values(t)))
  {
    hide ValueOf, CodeByte, Values;
    UnpadPadded(t, pads);
    var all := CodeBytes(Values(t));
    assert all[..|all|] == all;
  }

  /** decode inverts encode and encode_unpadded, for every input, dictionary and ample buffer. */
  lemma RoundTrip(x: seq<Byte>, dict: string, capacity: nat)
    requires IsDict(dict) && |x| <= capacity
    ensures DecodeSpec(EncodeSpec(x, dict), capacity) == Some(x)
    ensures DecodeSpec(PaddedSpec(x, dict), capacity) == Some(x)
  {
    hide IsDict, DecodeSpec, CodeByte, ValueOf, Scalar, DictAt, EncodeSpec;
    var e := EncodeSpec(x, dict);
    DecodeUndoesEncode(x, dict);
    forall j | 0 <= j < |e| ensures e[j] != PAD && ValueOf(e[j]) < 64 { assert e[j] in e; }
    DecodesClean(e, 0, capacity);
    DecodesClean(e, Pads(|x|), capacity);
    assert e + seq(0, _ => PAD) == e;
  }
}
