/** Base58 as the code computes it (ircd/b58.cc, include/ircd/b58.h): big-number base conversion
    in the output buffer, with carries, in place. */
module Base58 {
  import opened Basics
  import opened Powers
  import opened Base58Spec

  const SIZE_T: nat := 0x1_0000_0000_0000_0000

  function EncodeSize(n: nat): nat {
    n * 138 / 100 + 1
  }

  function DecodeSize(n: nat): nat {
    n * 733 / 1000 + 1
  }

  /** A char converted to size_t. The build asks for -fsigned-char (configure.ac:1256-1258),
      which sign-extends; with an unsigned char the value is kept. */
  function Widen(c: Byte, signed: bool): (v: nat)
    ensures v < SIZE_T
  {
    if signed && c >= 128 then SIZE_T - 256 + c else c
  }

  /** Encoding multiplies by 256 and splits by 58; decoding multiplies by 58 and splits by 256. */
  datatype Direction = Encoding | Decoding {
    function Base(): (b: nat)
      ensures 1 < b <= 256
    {
      if Encoding? then 58 else 256
    }

    function Factor(): (m: nat)
      ensures m * Base() == 58 * 256
    {
      if Encoding? then 256 else 58
    }

    /** carry += Factor * cell, in size_t. */
    function Sum(carry: nat, cell: nat): nat {
      (if Encoding? then carry + 256 * cell else carry + 58 * cell) % SIZE_T
    }

    function Low(t: nat): (r: Byte)
      ensures r < Base()
    {
      if Encoding? then t % 58 else t % 256
    }

    function High(t: nat): nat {
      if Encoding? then t / 58 else t / 256
    }
  }

  /** The inner loop on the cells from rbegin on: left cells are in use, the rest is zero. The
      results are the new cells, how many were visited and the carry that found no cell. */
  function Absorb(d: Direction, cells: seq<Byte>, left: nat, carry: nat, signed: bool): (r: (seq<Byte>, nat, nat))
    ensures |r.0| == |cells| && r.1 <= |cells| && Digits(r.0[..r.1], d.Base())
  {
    if (carry > 0 || left > 0) && cells != [] then
      var t := d.Sum(carry, Widen(cells[0], signed));
      var rest := Absorb(d, cells[1..], if left > 0 then left - 1 else 0, d.High(t), signed);
      var out := [d.Low(t)] + rest.0;
      assert out[..rest.1 + 1] == [d.Low(t)] + rest.0[..rest.1];
      (out, rest.1 + 1, rest.2)
    else
      (cells, 0, carry)
  }

  /** The cells hold v in base b: length digits without a leading zero, then zeros. */
  ghost predicate Holds(cells: seq<nat>, length: nat, v: nat, b: nat) {
    && length <= |cells| && Digits(cells, b)
    && (forall i :: length <= i < |cells| ==> cells[i] == 0)
    && (length > 0 ==> cells[length - 1] != 0)
    && Value(cells, b) == v
  }

  /** Bounds of one step: the sum stays below 58 * 256, so it never wraps, and the new carry is
      at most 255 when encoding and 57 when decoding. */
  lemma StepBounds(d: Direction, c: nat, carry: nat)
    requires c < d.Base() && carry < d.Factor()
    ensures d.Sum(carry, c) == carry + d.Factor() * c < 58 * 256
    ensures d.High(d.Sum(carry, c)) < d.Factor()
    ensures d.Sum(carry, c) == d.Low(d.Sum(carry, c)) + d.Base() * d.High(d.Sum(carry, c))
    ensures c > 0 || carry > 0 ==> d.High(d.Sum(carry, c)) > 0 || d.Low(d.Sum(carry, c)) > 0
  {
  }

  lemma StepArith(d: Direction, c: nat, cs: nat, rest: nat, p: nat, out: nat, carry: nat, low: nat, high: nat)
    requires carry + d.Factor() * c == low + d.Base() * high
    requires rest + p * out == d.Factor() * cs + high
    ensures (low + d.Base() * rest) + (d.Base() * p) * out == d.Factor() * (c + d.Base() * cs) + carry
  {
    MulAssoc(d.Base(), p, out);
    if d.Encoding? {
      assert 58 * (rest + p * out) == 58 * rest + 58 * (p * out);
    } else {
      assert 256 * (rest + p * out) == 256 * rest + 256 * (p * out);
    }
  }

  lemma {:induction false} AllZero(cells: seq<nat>, b: nat)
    requires forall i :: 0 <= i < |cells| ==> cells[i] == 0
    ensures Value(cells, b) == 0
  {
    if cells != [] { AllZero(cells[1..], b); }
  }

  /** One symbol: value * Factor + carry, with what does not fit left in the last carry. */
  lemma {:induction false} AbsorbValue(d: Direction, cells: seq<Byte>, left: nat, carry: nat)
    requires carry < d.Factor() && Digits(cells, d.Base()) && forall i :: left <= i < |cells| ==> cells[i] == 0
    ensures var (r, n, out) := Absorb(d, cells, left, carry, false);
            Value(r, d.Base()) + Pow(d.Base(), |cells|) * out == d.Factor() * Value(cells, d.Base()) + carry
  {
    var b := d.Base();
    if (carry > 0 || left > 0) && cells != [] {
      var c, cs, t := cells[0], cells[1..], d.Sum(carry, cells[0]);
      var l := if left > 0 then left - 1 else 0;
      StepBounds(d, c, carry);
      AbsorbValue(d, cs, l, d.High(t));
      var (rest, n, out) := Absorb(d, cs, l, d.High(t), false);
      StepArith(d, c, Value(cs, b), Value(rest, b), Pow(b, |cs|), out, carry, d.Low(t), d.High(t));
      assert ([d.Low(t)] + rest)[1..] == rest;
    } else if cells != [] {
      AllZero(cells, b);
    }
  }

  /** The cells stay digits, zero beyond those visited; a carry is left over only at the end. */
  lemma {:induction false} AbsorbShape(d: Direction, cells: seq<Byte>, left: nat, carry: nat)
    requires carry < d.Factor() && Digits(cells, d.Base()) && forall i :: left <= i < |cells| ==> cells[i] == 0
    requires left <= |cells|
    ensures var (r, n, out) := Absorb(d, cells, left, carry, false);
            && left <= n && Digits(r, d.Base()) && out < d.Factor() && (out > 0 ==> n == |cells|)
            && (carry > 0 && cells != [] ==> n > 0)
            && (forall i :: n <= i < |r| ==> r[i] == 0)
  {
    hide Direction.Sum, Direction.Low, Direction.High;
    if (carry > 0 || left > 0) && cells != [] {
      var t := d.Sum(carry, cells[0]);
      StepBounds(d, cells[0], carry);
      AbsorbShape(d, cells[1..], if left > 0 then left - 1 else 0, d.High(t));
    }
  }

  /** The top cell is not zero, unless a carry found no cell. */
  lemma {:induction false} AbsorbTop(d: Direction, cells: seq<Byte>, left: nat, carry: nat)
    requires carry < d.Factor() && Digits(cells, d.Base()) && forall i :: left <= i < |cells| ==> cells[i] == 0
    requires left <= |cells| && (left > 0 ==> cells[left - 1] != 0)
    ensures var (r, n, out) := Absorb(d, cells, left, carry, false);
            n > 0 && out == 0 ==> r[n - 1] != 0
  {
    hide Direction.Sum, Direction.Low, Direction.High;
    if (carry > 0 || left > 0) && cells != [] {
      var cs, t := cells[1..], d.Sum(carry, cells[0]);
      var l := if left > 0 then left - 1 else 0;
      StepBounds(d, cells[0], carry);
      assert l > 0 ==> cs[l - 1] == cells[left - 1];
      AbsorbTop(d, cs, l, d.High(t));
      AbsorbShape(d, cs, l, d.High(t));
    }
  }

  /** The outer loop: every symbol after the leading zeros is absorbed by w zeroed cells. */
  function Run(d: Direction, input: seq<nat>, w: nat, signed: bool): (r: (seq<Byte>, nat))
    ensures |r.0| == w && r.1 <= w && Digits(r.0[..r.1], d.Base())
  {
    if input == [] then (Zeros(w), 0) else
      var before := Run(d, input[..|input| - 1], w, signed);
      var after := Absorb(d, before.0, before.1, input[|input| - 1], signed);
      (after.0, after.1)
  }

  lemma HornerMono(input: seq<nat>, f: nat)
    requires input != [] && 0 < f
    ensures Horner(input[..|input| - 1], f) <= Horner(input, f)
  {
    MulMono(1, f, Horner(input[..|input| - 1], f), Horner(input[..|input| - 1], f));
  }

  /** Whatever the window, the cells hold the value read so far less a multiple of what fits. */
  lemma {:induction false} RunValue(d: Direction, input: seq<nat>, w: nat) returns (q: nat)
    requires Digits(input, d.Factor())
    ensures var (cells, n) := Run(d, input, w, false);
            && Digits(cells, d.Base()) && (forall i :: n <= i < w ==> cells[i] == 0)
            && Value(cells, d.Base()) < Pow(d.Base(), w)
            && Horner(input, d.Factor()) == Value(cells, d.Base()) + Pow(d.Base(), w) * q
  {
    hide Pow, Absorb, Value;
    var b, f := d.Base(), d.Factor();
    PowPositive(b, w);
    if input == [] {
      AllZero(Zeros(w), b);
      q := 0;
    } else {
      var front, c := input[..|input| - 1], input[|input| - 1];
      var q0 := RunValue(d, front, w);
      var (cells, n) := Run(d, front, w, false);
      AbsorbShape(d, cells, n, c);
      AbsorbValue(d, cells, n, c);
      var (r, m, out) := Absorb(d, cells, n, c, false);
      ValueBound(r, b);
      Congruent(Horner(front, f), Value(cells, b), q0, Value(r, b), Pow(b, w), f, c, out);
      q := q0 * f + out;
    }
  }

  lemma Congruent(h: nat, v: nat, q: nat, r: nat, p: nat, f: nat, c: nat, out: nat)
    requires h == v + p * q && r + p * out == f * v + c
    ensures h * f + c == r + p * (q * f + out)
  {
    MulDistributes(v, p * q, f);
    MulAssoc(p, q, f);
    MulDistributes(q * f, out, p);
  }

  lemma NoOverflow(h: nat, r: nat, p: nat, f: nat, c: nat, out: nat)
    requires r + p * out == f * h + c && h * f + c < p
    ensures out == 0 && r == h * f + c
  {
    assert h * f == f * h;
    if out > 0 { MulMono(p, p, 1, out); }
  }

  /** A window that the value fits: exactly its digits, the top one not zero. */
  lemma {:induction false} RunHolds(d: Direction, input: seq<nat>, w: nat)
    requires Digits(input, d.Factor()) && Horner(input, d.Factor()) < Pow(d.Base(), w)
    ensures var (cells, n) := Run(d, input, w, false);
            Holds(cells, n, Horner(input, d.Factor()), d.Base())
  {
    hide Pow, Absorb, Value;
    var b, f := d.Base(), d.Factor();
    if input == [] {
      AllZero(Zeros(w), b);
    } else {
      var front, c := input[..|input| - 1], input[|input| - 1];
      HornerMono(input, f);
      RunHolds(d, front, w);
      var (cells, n) := Run(d, front, w, false);
      AbsorbShape(d, cells, n, c);
      AbsorbTop(d, cells, n, c);
      AbsorbValue(d, cells, n, c);
      var (r, m, out) := Absorb(d, cells, n, c, false);
      NoOverflow(Horner(front, f), Value(r, b), Pow(b, w), f, c, out);
    }
  }

  // ----- what the two functions write -----

  /** z zero digits, then the used cells from the top down. */
  function Written(d: Direction, z: nat, input: seq<nat>, w: nat, signed: bool): (r: seq<Byte>)
    ensures Digits(r, d.Base())
  {
    var (cells, n) := Run(d, input, w, signed);
    Zeros(z) + Reversed<nat>(cells[..n])
  }

  function Widened(x: seq<Byte>, signed: bool): (r: seq<nat>)
    ensures |r| == |x|
  {
    seq(|x|, i requires 0 <= i < |x| => Widen(x[i], signed))
  }

  function EncodeRun(x: seq<Byte>, w: nat, signed: bool): seq<Byte> {
    var z := Leading(x, 0);
    Codes(Written(Encoding, z, Widened(x[z..], signed), w, signed))
  }

  function DecodeRun(s: seq<Byte>, w: nat, signed: bool): seq<Byte>
    requires AllInDict(s)
  {
    var z := Leading(s, ONE as int);
    Written(Decoding, z, Finds(s[z..]), w, signed)
  }

  lemma {:induction false} ValueTrim(cells: seq<nat>, n: nat, b: nat)
    requires n <= |cells| && forall i :: n <= i < |cells| ==> cells[i] == 0
    ensures Value(cells[..n], b) == Value(cells, b)
  {
    if n == 0 {
      AllZero(cells, b);
    } else {
      ValueTrim(cells[1..], n - 1, b);
      assert cells[..n][1..] == cells[1..][..n - 1];
    }
  }

  lemma WrittenFits(d: Direction, z: nat, input: seq<nat>, w: nat)
    requires Digits(input, d.Factor()) && Horner(input, d.Factor()) < Pow(d.Base(), w)
    ensures Written(d, z, input, w, false) == Normal(z, Horner(input, d.Factor()), d.Base())
  {
    hide Pow, Horner, Run, Value, Canonical;
    var (cells, n) := Run(d, input, w, false);
    RunHolds(d, input, w);
    ValueTrim(cells, n, d.Base());
    CanonicalUnique(cells[..n], d.Base());
  }

  lemma WrittenOverflows(d: Direction, z: nat, input: seq<nat>, w: nat)
    requires Digits(input, d.Factor()) && Horner(input, d.Factor()) >= Pow(d.Base(), w)
    ensures Written(d, z, input, w, false) != Normal(z, Horner(input, d.Factor()), d.Base())
  {
    hide Pow, Horner, Run, Value, Normal;
    var b, h := d.Base(), Horner(input, d.Factor());
    var (cells, n) := Run(d, input, w, false);
    var q := RunValue(d, input, w);
    ValueTrim(cells, n, b);
    HornerReversed(cells[..n], b);
    HornerZeros(z, Reversed<nat>(cells[..n]), b);
    assert Horner(Written(d, z, input, w, false), b) == Value(cells, b) < h;
    NormalFacts(z, h, b);
  }

  /** The code computes the canonical digits exactly when the value fits the window. */
  lemma WrittenExact(d: Direction, z: nat, input: seq<nat>, w: nat)
    requires Digits(input, d.Factor())
    ensures Written(d, z, input, w, false) == Normal(z, Horner(input, d.Factor()), d.Base()) <==>
              Horner(input, d.Factor()) < Pow(d.Base(), w)
  {
    if Horner(input, d.Factor()) < Pow(d.Base(), w) {
      WrittenFits(d, z, input, w);
    } else {
      WrittenOverflows(d, z, input, w);
    }
  }

  // ----- the windows are wide enough -----

  lemma EncodeRatio()
    ensures Pow(256, 8) <= Pow(58, 11)
  {
  }

  lemma DecodeRatio()
    ensures Pow(58, 71) <= Pow(256, 52)
  {
    hide Pow;
    PowAdd(58, 9, 9);
    PowAdd(58, 18, 18);
    PowAdd(58, 36, 35);
    PowAdd(58, 35, 1);
    PowAdd(256, 13, 13);
    PowAdd(256, 26, 26);
    SmallPowers();
    var p9 := 7427658739644928;
    var p36 := p9 * p9 * p9 * p9;
    var q13 := 20282409603651670423947251286016;
    assert Pow(58, 36) == p36 && Pow(256, 52) == q13 * q13 * q13 * q13;
    assert Pow(58, 71) * 58 == p36 * p36;
  }

  lemma SmallPowers()
    ensures Pow(58, 1) == 58 && Pow(58, 9) == 7427658739644928 && Pow(256, 13) == 20282409603651670423947251286016
  {
  }

  /** EncodeSize(n) digits always absorb n bytes. */
  lemma EncodeFits(x: seq<Byte>)
    ensures Horner(x, 256) < Pow(58, EncodeSize(|x|))
  {
    EncodeRatio();
    RatioBound(256, 8, 58, 11, |x|, EncodeSize(|x|));
    HornerBound(x, 256);
  }

  /** DecodeSize(n) bytes always absorb n symbols. */
  lemma DecodeFits(f: seq<nat>)
    requires Digits(f, 58)
    ensures Horner(f, 58) < Pow(256, DecodeSize(|f|))
  {
    DecodeRatio();
    RatioBound(58, 71, 256, 52, |f|, DecodeSize(|f|));
    HornerBound(f, 58);
  }

  // ----- encode and decode against their specification -----

  lemma WidenedPlain(x: seq<Byte>)
    ensures Widened(x, false) == x
  {
  }

  lemma LeadingSplit(s: seq<nat>)
    ensures s == Zeros(Leading(s, 0)) + s[Leading(s, 0)..]
  {
  }

  /** encode() is right exactly when the window takes the value. */
  lemma EncodeExact(x: seq<Byte>, w: nat)
    ensures EncodeRun(x, w, false) == EncodeSpec(x) <==> Horner(x, 256) < Pow(58, w)
  {
    hide Pow, Horner, Written;
    var z := Leading(x, 0);
    var t: seq<nat> := x[z..];
    LeadingSplit(x);
    HornerZeros(z, t, 256);
    WidenedPlain(x[z..]);
    WrittenExact(Encoding, z, t, w);
    NormalFacts(z, Horner(x, 256), 58);
    FindsCodes(Written(Encoding, z, t, w, false));
    FindsCodes(Normal(z, Horner(x, 256), 58));
  }

  lemma FindOne(c: Byte)
    requires InDict(c)
    ensures Find(DICT, c) == 0 <==> c == ONE
  {
    DictShape();
    FindCode(0);
  }

  lemma {:induction false} LeadingOnes(s: seq<Byte>)
    requires AllInDict(s)
    ensures Leading(Finds(s), 0) == Leading(s, ONE as int)
  {
    if s != [] {
      assert InDict(s[0]);
      FindOne(s[0]);
      if s[0] == ONE {
        LeadingOnes(s[1..]);
        assert Finds(s)[1..] == Finds(s[1..]);
      }
    }
  }

  /** decode() is right exactly when the window takes the value. */
  lemma DecodeExact(s: seq<Byte>, w: nat)
    requires AllInDict(s)
    ensures DecodeSpec(s) == Some(DecodeRun(s, w, false)) <==> Horner(Finds(s), 58) < Pow(256, w)
  {
    hide Pow, Horner, Written;
    var f := Finds(s);
    var z := Leading(f, 0);
    LeadingOnes(s);
    LeadingSplit(f);
    HornerZeros(z, f[z..], 58);
    assert Finds(s[z..]) == f[z..];
    WrittenExact(Decoding, z, f[z..], w);
  }

  /** Round trip of the code: bytes to text and back, leading zeros included. */
  lemma DecodeUndoesEncode(x: seq<Byte>)
    ensures var s := EncodeRun(x, EncodeSize(|x|), false);
            AllInDict(s) && DecodeRun(s, DecodeSize(|s|), false) == x
  {
    EncodeFits(x);
    EncodeExact(x, EncodeSize(|x|));
    DecodeEncodeSpec(x);
    var s := EncodeSpec(x);
    DecodeFits(Finds(s));
    DecodeExact(s, DecodeSize(|s|));
  }

  /** Round trip of the code: text to bytes and back. */
  lemma EncodeUndoesDecode(s: seq<Byte>)
    requires AllInDict(s)
    ensures var x := DecodeRun(s, DecodeSize(|s|), false);
            EncodeRun(x, EncodeSize(|x|), false) == s
  {
    DecodeFits(Finds(s));
    DecodeExact(s, DecodeSize(|s|));
    EncodeDecodeSpec(s);
    var x := DecodeRun(s, DecodeSize(|s|), false);
    EncodeFits(x);
    EncodeExact(x, EncodeSize(|x|));
  }

  // ----- the code -----

  /** The cells of a window of w bytes at z, from rbegin on. */
  ghost function Cells(buf: array<Byte>, z: nat, w: nat): (c: seq<Byte>)
    requires z + w <= buf.Length
    reads buf
    ensures |c| == w
  {
    seq(w, k requires 0 <= k < w reads buf => buf[z + w - 1 - k])
  }

  /** The loop over *it from rbegin(out). */
  method AbsorbInPlace(d: Direction, buf: array<Byte>, z: nat, w: nat, length: nat, carry0: nat, signed: bool)
    returns (i: nat)
    requires z + w <= buf.Length
    modifies buf
    ensures var a := Absorb(d, old(Cells(buf, z, w)), length, carry0, signed);
            Cells(buf, z, w) == a.0 && i == a.1
    ensures forall k :: 0 <= k < buf.Length && !(z <= k < z + w) ==> buf[k] == old(buf[k])
  {
    hide Direction.Sum, Direction.Low, Direction.High, Widen, Digits, Absorb;
    ghost var c0 := Cells(buf, z, w);
    var carry := carry0;
    i := 0;
    ghost var left, cur: seq<Byte>, goal := length, c0, Absorb(d, c0, length, carry0, signed);
    assert c0[0..] == c0 && c0[..0] + goal.0 == goal.0;
    while (carry > 0 || i < length) && i < w
      invariant i <= w && left == if i < length then length - i else 0
      invariant |cur| == w && cur[i..] == c0[i..] && Cells(buf, z, w) == cur
      invariant Prefixed(cur[..i], Absorb(d, c0[i..], left, carry, signed)) == goal
      invariant forall k :: 0 <= k < buf.Length && !(z <= k < z + w) ==> buf[k] == old(buf[k])
    {
      var at := z + w - 1 - i;
      assert buf[at] == cur[i] == c0[i];
      var t := d.Sum(carry, Widen(buf[at], signed));
      PrefixedStep(d, cur[..i], c0[i..], left, carry, signed);
      assert c0[i..][1..] == c0[i + 1..];
      buf[at] := d.Low(t);
      cur := cur[i := d.Low(t)];
      assert cur[..i + 1] == cur[..i] + [d.Low(t)];
      carry := d.High(t);
      left := if left > 0 then left - 1 else 0;
      i := i + 1;
    }
    assert cur == cur[..i] + c0[i..];
    AbsorbStop(d, c0[i..], left, carry, signed);
  }

  lemma AbsorbStop(d: Direction, cells: seq<Byte>, left: nat, carry: nat, signed: bool)
    requires (carry == 0 && left == 0) || cells == []
    ensures Absorb(d, cells, left, carry, signed) == (cells, 0, carry)
  {
  }

  function Prefixed(p: seq<Byte>, a: (seq<Byte>, nat, nat)): (seq<Byte>, nat, nat) {
    (p + a.0, |p| + a.1, a.2)
  }

  lemma PrefixedStep(d: Direction, p: seq<Byte>, cells: seq<Byte>, left: nat, carry: nat, signed: bool)
    requires (carry > 0 || left > 0) && cells != []
    ensures var t := d.Sum(carry, Widen(cells[0], signed));
            Prefixed(p, Absorb(d, cells, left, carry, signed)) ==
            Prefixed(p + [d.Low(t)], Absorb(d, cells[1..], if left > 0 then left - 1 else 0, d.High(t), signed))
  {
    var t := d.Sum(carry, Widen(cells[0], signed));
    var rest := Absorb(d, cells[1..], if left > 0 then left - 1 else 0, d.High(t), signed);
    assert p + ([d.Low(t)] + rest.0) == (p + [d.Low(t)]) + rest.0;
  }

  method CountLeading(x: seq<Byte>, c: Byte) returns (z: nat)
    ensures z == Leading(x, c as int)
  {
    z := 0;
    while z < |x| && x[z] == c
      invariant z <= |x| && Leading(x, c as int) == z + Leading(x[z..], c as int)
    {
      assert x[z..][1..] == x[z + 1..];
      z := z + 1;
    }
  }

  method Fill(buf: array<Byte>, from: nat, to: nat, c: Byte)
    requires from <= to <= buf.Length
    modifies buf
    ensures forall k :: 0 <= k < buf.Length ==> buf[k] == if from <= k < to then c else old(buf[k])
  {
    var i := from;
    while i < to
      invariant from <= i <= to
      invariant forall k :: 0 <= k < buf.Length ==> buf[k] == if from <= k < i then c else old(buf[k])
    {
      buf[i] := c;
      i := i + 1;
    }
  }

  /** memmove to a lower address; the ranges may overlap. */
  method MoveBytes(buf: array<Byte>, to: nat, from: nat, n: nat)
    requires to <= from && from + n <= buf.Length
    modifies buf
    ensures forall k :: 0 <= k < buf.Length ==>
              buf[k] == if to <= k < to + n then old(buf[k + (from - to)]) else old(buf[k])
  {
    var j := 0;
    while j < n
      invariant j <= n
      invariant forall k :: 0 <= k < buf.Length ==>
        buf[k] == if to <= k < to + j then old(buf[k + (from - to)]) else old(buf[k])
    {
      assert buf[from + j] == old(buf[from + j]);
      buf[to + j] := buf[from + j];
      j := j + 1;
    }
  }

  /** memmove(it, data(out) + (size(out) - length), length): the used cells, from the top down. */
  method MoveDown(buf: array<Byte>, z: nat, w: nat, length: nat)
    requires z + w <= buf.Length && length <= w
    modifies buf
    ensures buf[z..z + length] == Reversed<nat>(old(Cells(buf, z, w))[..length])
    ensures forall k :: 0 <= k < z || z + w <= k < buf.Length ==> buf[k] == old(buf[k])
  {
    hide Reversed;
    ghost var cells := Cells(buf, z, w);
    MoveBytes(buf, z, z + w - length, length);
    Downward(buf[z..z + length], cells[..length]);
  }

  lemma Downward(s: seq<Byte>, cells: seq<Byte>)
    requires |s| == |cells| && forall m :: 0 <= m < |s| ==> s[m] == cells[|cells| - 1 - m]
    ensures s == Reversed<nat>(cells)
  {
    assert forall m :: 0 <= m < |s| ==> s[m] == Reversed<nat>(cells)[m];
  }

  /** Write the leading zeros and bring the used cells down behind them. */
  method Settle(buf: array<Byte>, z: nat, w: nat, length: nat, zero: Byte)
    requires z + w <= buf.Length && length <= w
    modifies buf
    ensures buf[..z] == seq(z, _ => zero)
    ensures buf[z..z + length] == Reversed<nat>(old(Cells(buf, z, w))[..length])
  {
    hide Reversed;
    Fill(buf, 0, z, zero);
    assert Cells(buf, z, w) == old(Cells(buf, z, w));
    MoveDown(buf, z, w, length);
  }

  /** std::transform with dict.at */
  method Transform(buf: array<Byte>, from: nat, to: nat)
    requires from <= to <= buf.Length && Digits(buf[from..to], 58)
    modifies buf
    ensures buf[from..to] == Codes(old(buf[from..to]))
    ensures forall k :: 0 <= k < from || to <= k < buf.Length ==> buf[k] == old(buf[k])
  {
    assert forall j :: from <= j < to ==> buf[j] == buf[from..to][j - from] < 58;
    var k := from;
    while k < to
      invariant from <= k <= to
      invariant forall j :: from <= j < k ==> old(buf[j]) < 58 && buf[j] == Code(old(buf[j]))
      invariant forall j :: k <= j < to ==> buf[j] == old(buf[j]) < 58
      invariant forall j :: 0 <= j < from || to <= j < buf.Length ==> buf[j] == old(buf[j])
    {
      buf[k] := Code(buf[k]);
      k := k + 1;
    }
  }

  /** The outer loop of both directions. */
  method ConvertInPlace(d: Direction, buf: array<Byte>, z: nat, w: nat, input: seq<nat>, signed: bool)
    returns (length: nat)
    requires z + w <= buf.Length
    modifies buf
    ensures (Cells(buf, z, w), length) == Run(d, input, w, signed)
    ensures forall k :: 0 <= k < buf.Length && !(z <= k < z + w) ==> buf[k] == old(buf[k])
  {
    Fill(buf, z, z + w, 0);
    assert Cells(buf, z, w) == Zeros(w);
    var p := 0;
    length := 0;
    while p < |input|
      invariant p <= |input| && (Cells(buf, z, w), length) == Run(d, input[..p], w, signed)
      invariant forall k :: 0 <= k < buf.Length && !(z <= k < z + w) ==> buf[k] == old(buf[k])
    {
      assert input[..p + 1][..p] == input[..p];
      length := AbsorbInPlace(d, buf, z, w, length, input[p], signed);
      p := p + 1;
    }
    assert input[..p] == input;
  }

  function Window(size: nat, z: nat, length: nat): nat
    requires z <= length
  {
    if size <= length - z then size else length - z
  }

  /** b58::encode. None: there are more leading zeros than room, so size(buf) - zeroes wraps; the
      source asserts against it and writes past the buffer otherwise. */
  method Encode(buf: array<Byte>, x: seq<Byte>, signed: bool) returns (r: Option<nat>)
    modifies buf
    ensures r.None? <==> Leading(x, 0) > buf.Length
    ensures r.None? ==> buf[..] == old(buf[..])
    ensures r.Some? ==>
              && r.value <= buf.Length
              && buf[..r.value] == EncodeRun(x, Window(EncodeSize(|x|), Leading(x, 0), buf.Length), signed)
  {
    hide Run, EncodeRun, Codes, Reversed, Digits, Absorb, Leading;
    var z := CountLeading(x, 0);
    if z > buf.Length {
      return None;
    }
    var w := Window(EncodeSize(|x|), z, buf.Length);
    var length := ConvertInPlace(Encoding, buf, z, w, Widened(x[z..], signed), signed);
    ghost var cells := Cells(buf, z, w);
    EncodeParts(x, w, signed, cells, length);
    Settle(buf, z, w, length, ONE);
    Transform(buf, z, z + length);
    r := Some(z + length);
    assert buf[..z] == seq(z, _ => ONE);
    assert buf[..z + length] == buf[..z] + buf[z..z + length];
  }

  lemma EncodeParts(x: seq<Byte>, w: nat, signed: bool, cells: seq<Byte>, n: nat)
    requires (cells, n) == Run(Encoding, Widened(x[Leading(x, 0)..], signed), w, signed)
    ensures n <= |cells| && Digits(Reversed<nat>(cells[..n]), 58)
    ensures EncodeRun(x, w, signed) == seq(Leading(x, 0), _ => ONE) + Codes(Reversed<nat>(cells[..n]))
  {
    DictShape();
  }

  /** What decode() leaves behind: leading ones that exceed the buffer, an exception, or a prefix of
      the buffer. */
  datatype Decoded = Overrun | OutOfRange | Decoded(len: nat)

  /** b58::decode */
  method Decode(buf: array<Byte>, s: seq<Byte>, signed: bool) returns (r: Decoded)
    modifies buf
    ensures r.Overrun? <==> Leading(s, ONE as int) > buf.Length
    ensures r.Overrun? ==> buf[..] == old(buf[..])
    ensures r.OutOfRange? <==> Leading(s, ONE as int) <= buf.Length && !AllInDict(s)
    ensures r.Decoded? ==>
              && r.len <= buf.Length
              && buf[..r.len] == DecodeRun(s, Window(DecodeSize(|s|), Leading(s, ONE as int), buf.Length), signed)
  {
    hide Run, Reversed, AllInDict, Finds, DecodeRun, Absorb;
    var z := CountLeading(s, ONE);
    if z > buf.Length {
      return Overrun;
    }
    var w := Window(DecodeSize(|s|), z, buf.Length);
    Fill(buf, z, z + w, 0);
    assert Cells(buf, z, w) == Zeros(w);
    var p, length := z, 0;
    ghost var digits: seq<nat> := [];
    RunEmpty(w, signed);
    FindsStart(s, z);
    while p < |s|
      invariant z <= p <= |s| && AllInDict(s[..p]) && AllInDict(s[z..p]) && digits == Finds(s[z..p])
      invariant (Cells(buf, z, w), length) == Run(Decoding, digits, w, signed)
    {
      var carry := Find(DICT, s[p]);
      if carry >= 58 {
        NotInDict(s, p);
        return OutOfRange;
      }
      length := AbsorbInPlace(Decoding, buf, z, w, length, carry, signed);
      RunNext(digits, carry, w, signed);
      FindsNext(s, z, p);
      digits := digits + [carry];
      p := p + 1;
    }
    assert s[..p] == s && s[z..p] == s[z..];
    ghost var cells := Cells(buf, z, w);
    Settle(buf, z, w, length, 0);
    assert buf[..z] == Zeros(z);
    DecodeParts(s, w, signed, cells, length);
    r := Decoded(z + length);
    assert buf[..z + length] == buf[..z] + buf[z..z + length];
  }

  lemma DecodeParts(s: seq<Byte>, w: nat, signed: bool, cells: seq<Byte>, n: nat)
    requires AllInDict(s) && AllInDict(s[Leading(s, ONE as int)..])
    requires (cells, n) == Run(Decoding, Finds(s[Leading(s, ONE as int)..]), w, signed)
    ensures n <= |cells| && DecodeRun(s, w, signed) == Zeros(Leading(s, ONE as int)) + Reversed<nat>(cells[..n])
  {
  }

  lemma FindsStart(s: seq<Byte>, z: nat)
    requires z <= |s| && forall i :: 0 <= i < z ==> s[i] == ONE
    ensures AllInDict(s[..z]) && AllInDict(s[z..z]) && Finds(s[z..z]) == []
  {
    DictShape();
    FindCode(0);
  }

  lemma FindsNext(s: seq<Byte>, z: nat, p: nat)
    requires z <= p < |s| && AllInDict(s[..p]) && AllInDict(s[z..p]) && InDict(s[p])
    ensures AllInDict(s[..p + 1]) && AllInDict(s[z..p + 1])
    ensures Finds(s[z..p + 1]) == Finds(s[z..p]) + [Find(DICT, s[p])]
  {
    hide DICT, Find;
    assert s[..p + 1] == s[..p] + [s[p]] && s[z..p + 1] == s[z..p] + [s[p]];
  }

  lemma NotInDict(s: seq<Byte>, p: nat)
    requires p < |s| && !InDict(s[p])
    ensures !AllInDict(s)
  {
  }

  lemma RunEmpty(w: nat, signed: bool)
    ensures Run(Decoding, [], w, signed) == (Zeros(w), 0)
  {
  }

  lemma RunNext(input: seq<nat>, c: nat, w: nat, signed: bool)
    ensures var before := Run(Decoding, input, w, signed);
            var after := Absorb(Decoding, before.0, before.1, c, signed);
            Run(Decoding, input + [c], w, signed) == (after.0, after.1)
  {
    assert (input + [c])[..|input|] == input;
  }

  // ----- what a buffer must hold -----

  lemma EncodedLength(x: seq<Byte>)
    ensures |EncodeSpec(x)| == Leading(x, 0) + |Canonical(Horner(x, 256), 58)|
  {
    NormalFacts(Leading(x, 0), Horner(x, 256), 58);
  }

  lemma DecodedLength(s: seq<Byte>)
    requires AllInDict(s)
    ensures DecodeSpec(s).Some?
    ensures |DecodeSpec(s).value| == Leading(s, ONE as int) + |Canonical(Horner(Finds(s), 58), 256)|
  {
    LeadingOnes(s);
  }

  /** encode() is right in a buffer exactly when the buffer holds the encoding. */
  lemma EncodeInBuffer(x: seq<Byte>, capacity: nat)
    requires Leading(x, 0) <= capacity
    ensures EncodeRun(x, Window(EncodeSize(|x|), Leading(x, 0), capacity), false) == EncodeSpec(x) <==>
              |EncodeSpec(x)| <= capacity
  {
    hide EncodeRun, EncodeSpec, Horner, Pow, Canonical, EncodeSize;
    var w := Window(EncodeSize(|x|), Leading(x, 0), capacity);
    EncodeFits(x);
    EncodeExact(x, w);
    EncodedLength(x);
    CanonicalSize(Horner(x, 256), 58, w);
    CanonicalSize(Horner(x, 256), 58, EncodeSize(|x|));
  }

  /** decode() is right in a buffer exactly when the buffer holds the decoding. */
  lemma DecodeInBuffer(s: seq<Byte>, capacity: nat)
    requires AllInDict(s) && Leading(s, ONE as int) <= capacity
    ensures DecodeSpec(s) == Some(DecodeRun(s, Window(DecodeSize(|s|), Leading(s, ONE as int), capacity), false)) <==>
              DecodeSpec(s).Some? && |DecodeSpec(s).value| <= capacity
  {
    hide DecodeRun, DecodeSpec, Horner, Pow, Canonical, DecodeSize, Finds, AllInDict;
    var v := Horner(Finds(s), 58);
    var w := Window(DecodeSize(|s|), Leading(s, ONE as int), capacity);
    DecodeFits(Finds(s));
    DecodeExact(s, w);
    DecodedLength(s);
    CanonicalSize(v, 256, w);
    CanonicalSize(v, 256, DecodeSize(|s|));
  }

  /** A buffer of encode_size bytes holds every encoding, leading zeros included. */
  lemma EncodeSizeIsEnough(x: seq<Byte>)
    ensures Leading(x, 0) <= |EncodeSpec(x)| <= EncodeSize(|x|)
  {
    hide EncodeSpec, Horner, Pow, Canonical;
    var z := Leading(x, 0);
    var t: seq<nat> := x[z..];
    EncodedLength(x);
    LeadingSplit(x);
    HornerZeros(z, t, 256);
    EncodeFits(x[z..]);
    CanonicalSize(Horner(x, 256), 58, EncodeSize(|x| - z));
    assert (|x| - z) * 138 / 100 + z <= |x| * 138 / 100;
  }

  /** decode_size does not do the same: n ones decode to n bytes, and only up to three of them fit. */
  lemma OnesDoNotFit(n: nat)
    ensures var s: seq<Byte> := seq(n, _ => ONE);
            && AllInDict(s) && Leading(s, ONE as int) == n
            && DecodeSpec(s).Some? && |DecodeSpec(s).value| == n
            && (n <= DecodeSize(n) <==> n <= 3)
  {
    var s: seq<Byte> := seq(n, _ => ONE);
    AllOnes(s);
    DecodedLength(s);
    assert Canonical(0, 256) == [];
  }

  lemma AllOnes(s: seq<Byte>)
    requires forall i :: 0 <= i < |s| ==> s[i] == ONE
    ensures AllInDict(s) && Leading(s, ONE as int) == |s| && Horner(Finds(s), 58) == 0
  {
    hide Find;
    DictShape();
    FindCode(0);
    forall c | c in s ensures InDict(c) {}
    assert Leading(s, ONE as int) == |s|;
    assert Finds(s) == Zeros(|s|) + [];
    HornerZeros(|s|, [], 58);
  }

  /** Bytes to text and back through two buffers: enough room for the text, and for the bytes. */
  lemma BytesRoundTrip(x: seq<Byte>, textRoom: nat, byteRoom: nat)
    requires |EncodeSpec(x)| <= textRoom && |x| <= byteRoom
    ensures Leading(x, 0) <= textRoom
    ensures var s := EncodeRun(x, Window(EncodeSize(|x|), Leading(x, 0), textRoom), false);
            && AllInDict(s) && Leading(s, ONE as int) <= byteRoom
            && DecodeRun(s, Window(DecodeSize(|s|), Leading(s, ONE as int), byteRoom), false) == x
  {
    hide EncodeRun, EncodeSpec, DecodeRun, DecodeSpec, AllInDict, Window;
    EncodedLength(x);
    EncodeInBuffer(x, textRoom);
    DecodeEncodeSpec(x);
    var s := EncodeSpec(x);
    EncodedInDict(x);
    DecodedLength(s);
    DecodeInBuffer(s, byteRoom);
  }

  lemma EncodedInDict(x: seq<Byte>)
    ensures AllInDict(EncodeSpec(x))
  {
    NormalFacts(Leading(x, 0), Horner(x, 256), 58);
    FindsCodes(Normal(Leading(x, 0), Horner(x, 256), 58));
  }

  /** Text to bytes and back through two buffers. */
  lemma TextRoundTrip(s: seq<Byte>, byteRoom: nat, textRoom: nat)
    requires AllInDict(s) && DecodeSpec(s).Some? && |DecodeSpec(s).value| <= byteRoom && |s| <= textRoom
    ensures Leading(s, ONE as int) <= byteRoom
    ensures var x := DecodeRun(s, Window(DecodeSize(|s|), Leading(s, ONE as int), byteRoom), false);
            && Leading(x, 0) <= textRoom
            && EncodeRun(x, Window(EncodeSize(|x|), Leading(x, 0), textRoom), false) == s
  {
    hide EncodeRun, EncodeSpec, DecodeRun, DecodeSpec, AllInDict, Window;
    DecodedLength(s);
    DecodeInBuffer(s, byteRoom);
    EncodeDecodeSpec(s);
    var x := DecodeRun(s, Window(DecodeSize(|s|), Leading(s, ONE as int), byteRoom), false);
    EncodedLength(x);
    EncodeInBuffer(x, textRoom);
  }
}
