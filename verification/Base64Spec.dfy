/** Base64 on paper, as section 4 of RFC 4648 has it: 24-bit groups cut into sextets. */
module Base64Spec {
  import opened Basics
  import opened Powers

  function EncodedSize(n: nat): nat {
    (4 * n + 2) / 3
  }

  function DecodedSize(n: nat): nat {
    3 * n / 4
  }

  predicate Sextets(v: seq<nat>) {
    forall i :: 0 <= i < |v| ==> v[i] < 64
  }

  /** Four sextets of a 24-bit group. */
  function Cut(n: nat): (v: seq<nat>)
    requires n < 0x100_0000
    ensures |v| == 4 && Sextets(v)
  {
    [n / 262144, n / 4096 % 64, n / 64 % 64, n % 64]
  }

  function Group(b0: nat, b1: nat, b2: nat): (n: nat) {
    b0 * 65536 + b1 * 256 + b2
  }

  lemma Quotient(x: nat, d: nat, q: nat, r: nat)
    requires r < d && x == d * q + r
    ensures x / d == q && x % d == r
  {
    DivMod(q, r, d);
  }

  /** Cutting a group whose bytes are 4*h0+l0, 16*h1+l1 and 64*h2+l2. */
  lemma CutParts(h0: nat, l0: nat, h1: nat, l1: nat, h2: nat, l2: nat)
    requires h0 < 64 && l0 < 4 && h1 < 16 && l1 < 16 && h2 < 4 && l2 < 64
    ensures var n := Group(4 * h0 + l0, 16 * h1 + l1, 64 * h2 + l2);
            n < 0x100_0000 && Cut(n) == [h0, 16 * l0 + h1, 4 * l1 + h2, l2]
  {
    var n := Group(4 * h0 + l0, 16 * h1 + l1, 64 * h2 + l2);
    Quotient(n, 262144, h0, l0 * 65536 + h1 * 4096 + l1 * 256 + h2 * 64 + l2);
    Quotient(n, 4096, 64 * h0 + 16 * l0 + h1, l1 * 256 + h2 * 64 + l2);
    Quotient(64 * h0 + 16 * l0 + h1, 64, h0, 16 * l0 + h1);
    Quotient(n, 64, 4096 * h0 + 1024 * l0 + 64 * h1 + 4 * l1 + h2, l2);
    Quotient(4096 * h0 + 1024 * l0 + 64 * h1 + 4 * l1 + h2, 64, 64 * h0 + 16 * l0 + h1, 4 * l1 + h2);
  }

  lemma CutGroup(b0: Byte, b1: Byte, b2: Byte)
    ensures Group(b0, b1, b2) < 0x100_0000
    ensures Cut(Group(b0, b1, b2)) == [b0 / 4, b1 / 16 + (b0 * 16) % 64, (b1 * 4) % 64 + b2 / 64, b2 % 64]
  {
    hide Cut;
    CutParts(b0 / 4, b0 % 4, b1 / 16, b1 % 16, b2 / 64, b2 % 64);
    Quotient(b0 * 16, 64, b0 / 4, 16 * (b0 % 4));
    Quotient(b1 * 4, 64, b1 / 16, 4 * (b1 % 16));
  }

  /** The sextets of a byte string; a short last group is filled with zero bits. */
  function Scalar(x: seq<Byte>): (v: seq<nat>)
    ensures |v| == EncodedSize(|x|) && Sextets(v)
  {
    if |x| >= 3 then Cut(Group(x[0], x[1], x[2])) + Scalar(x[3..])
    else if |x| == 2 then Cut(Group(x[0], x[1], 0))[..3]
    else if |x| == 1 then Cut(Group(x[0], 0, 0))[..2]
    else []
  }

  /** The bytes of sextets; bits that fill no byte are dropped. */
  function Unscalar(v: seq<nat>): (x: seq<Byte>)
    requires Sextets(v)
    ensures |x| == DecodedSize(|v|)
  {
    if |v| >= 4 then
      var n := Join(v[0], v[1], v[2], v[3]);
      [n / 65536, n / 256 % 256, n % 256] + Unscalar(v[4..])
    else if |v| == 3 then
      var n := Join(v[0], v[1], v[2], 0);
      [n / 65536, n / 256 % 256]
    else if |v| == 2 then
      [Join(v[0], v[1], 0, 0) / 65536]
    else []
  }

  function Join(v0: nat, v1: nat, v2: nat, v3: nat): nat {
    v0 * 262144 + v1 * 4096 + v2 * 64 + v3
  }

  lemma Regroup(b0: Byte, b1: Byte, b2: Byte)
    ensures var v := Cut(Group(b0, b1, b2)); var n := Join(v[0], v[1], v[2], v[3]);
            n / 65536 == b0 && n / 256 % 256 == b1 && n % 256 == b2
    ensures b2 == 0 ==> Cut(Group(b0, b1, b2))[3] == 0
    ensures b1 == 0 && b2 == 0 ==> Cut(Group(b0, b1, b2))[2] == 0
  {
    CutParts(b0 / 4, b0 % 4, b1 / 16, b1 % 16, b2 / 64, b2 % 64);
    var n := Group(b0, b1, b2);
    assert Join(b0 / 4, 16 * (b0 % 4) + b1 / 16, 4 * (b1 % 16) + b2 / 64, b2 % 64) == n;
    Quotient(n, 65536, b0, b1 * 256 + b2);
    Quotient(n, 256, b0 * 256 + b1, b2);
    Quotient(b0 * 256 + b1, 256, b0, b1);
  }

  lemma {:induction false} UnscalarScalar(x: seq<Byte>)
    ensures Unscalar(Scalar(x)) == x
  {
    if |x| >= 3 {
      UnscalarScalar(x[3..]);
      Regroup(x[0], x[1], x[2]);
      assert Scalar(x)[4..] == Scalar(x[3..]);
      assert x == [x[0], x[1], x[2]] + x[3..];
    } else if |x| == 2 {
      Regroup(x[0], x[1], 0);
      assert x == [x[0], x[1]];
    } else if |x| == 1 {
      Regroup(x[0], 0, 0);
      assert x == [x[0]];
    }
  }

  /** What the bits that fill no byte multiply by. */
  function SpareFactor(n: nat): nat {
    match n % 3
    case 0 => 1
    case 1 => 16
    case _ => 4
  }

  lemma SmallPowers()
    ensures Pow(64, 0) == 1 && Pow(64, 2) == 4096 && Pow(64, 3) == 262144 && Pow(64, 4) == 0x100_0000
    ensures Pow(256, 0) == 1 && Pow(256, 1) == 256 && Pow(256, 2) == 65536 && Pow(256, 3) == 0x100_0000
  {
  }

  lemma {:induction false} SizesAgree(n: nat)
    ensures Pow(64, EncodedSize(n)) == Pow(256, n) * SpareFactor(n)
  {
    hide Pow;
    SmallPowers();
    if n >= 3 {
      var p, q := Pow(64, EncodedSize(n - 3)), Pow(256, n - 3);
      SizesAgree(n - 3);
      PowAdd(64, EncodedSize(n - 3), 4);
      PowAdd(256, n - 3, 3);
      assert EncodedSize(n) == EncodedSize(n - 3) + 4 && SpareFactor(n) == SpareFactor(n - 3);
    }
  }

  lemma Spread(g: nat, p: nat, a: nat, f: nat)
    ensures g * (p * f) + a * f == (g * p + a) * f
  {
    MulAssoc(g, p, f);
    MulDistributes(g * p, a, f);
  }

  lemma HornerCut(b0: Byte, b1: Byte, b2: Byte)
    ensures Horner(Cut(Group(b0, b1, b2)), 64) == Group(b0, b1, b2) == Horner([b0, b1, b2], 256)
  {
    HornerFour(b0, b1, b2, 0, 256);
    CutParts(b0 / 4, b0 % 4, b1 / 16, b1 % 16, b2 / 64, b2 % 64);
    var v := Cut(Group(b0, b1, b2));
    HornerFour(v[0], v[1], v[2], v[3], 64);
    assert v == [v[0], v[1], v[2], v[3]];
  }

  lemma HornerNone()
    ensures Horner([], 64) == 0 && Horner([], 256) == 0
  {
  }

  lemma HornerFour(a: nat, b: nat, c: nat, d: nat, m: nat)
    ensures Horner([a], m) == a && Horner([a, b], m) == a * m + b && Horner([a, b, c], m) == (a * m + b) * m + c
    ensures Horner([a, b, c, d], m) == ((a * m + b) * m + c) * m + d
  {
    assert [a, b, c, d][..3] == [a, b, c] && [a, b, c][..2] == [a, b] && [a, b][..1] == [a] && [a][..0] == [];
  }

  lemma ShortNumber(b0: Byte, b1: Byte)
    ensures Horner(Cut(Group(b0, b1, 0))[..3], 64) == Horner([b0, b1], 256) * 4
    ensures b1 == 0 ==> Horner(Cut(Group(b0, 0, 0))[..2], 64) == Horner([b0], 256) * 16
  {
    CutParts(b0 / 4, b0 % 4, b1 / 16, b1 % 16, 0, 0);
    var v := Cut(Group(b0, b1, 0));
    HornerFour(v[0], v[1], v[2], v[3], 64);
    HornerFour(b0, b1, 0, 0, 256);
    assert v[..3] == [v[0], v[1], v[2]] && v[..2] == [v[0], v[1]];
  }

  /** What base64 is: the sextets, read as a number, are the number of the bytes with the spare bits
      behind it. */
  lemma {:induction false} SameNumber(x: seq<Byte>)
    ensures Horner(Scalar(x), 64) == Horner(x, 256) * SpareFactor(|x|)
  {
    hide Pow, Horner, Cut, Group;
    if |x| >= 3 {
      var g, rest := Group(x[0], x[1], x[2]), x[3..];
      SameNumber(rest);
      HornerCut(x[0], x[1], x[2]);
      CutGroup(x[0], x[1], x[2]);
      HornerConcat(Cut(g), Scalar(rest), 64);
      HornerConcat([x[0], x[1], x[2]], rest, 256);
      assert x == [x[0], x[1], x[2]] + rest;
      SizesAgree(|rest|);
      Spread(g, Pow(256, |rest|), Horner(rest, 256), SpareFactor(|rest|));
      assert SpareFactor(|x|) == SpareFactor(|rest|);
    } else if |x| == 2 {
      ShortNumber(x[0], x[1]);
      assert x == [x[0], x[1]];
    } else if |x| == 1 {
      ShortNumber(x[0], 0);
      assert x == [x[0]];
    } else {
      assert x == [];
      HornerNone();
    }
  }

  /** A byte of x, or zero past its end. */
  function At(x: seq<Byte>, i: nat): Byte {
    if i < |x| then x[i] else 0
  }

  /** The sextet at position m by the four formulas for a triple (b64.cc:246-249). */
  function Sextet(x: seq<Byte>, m: nat): (s: nat)
    ensures s < 64
  {
    var b0, b1, b2 := At(x, 3 * (m / 4)), At(x, 3 * (m / 4) + 1), At(x, 3 * (m / 4) + 2);
    match m % 4
    case 0 => b0 / 4
    case 1 => b1 / 16 + (b0 * 16) % 64
    case 2 => (b1 * 4) % 64 + b2 / 64
    case _ => b2 % 64
  }

  lemma SextetShift(x: seq<Byte>, m: nat)
    requires |x| >= 3 && m >= 4
    ensures Sextet(x[3..], m - 4) == Sextet(x, m)
  {
    var t := m / 4;
    assert (m - 4) / 4 == t - 1 && m % 4 == (m - 4) % 4;
    AtShift(x, 3 * (t - 1));
    AtShift(x, 3 * (t - 1) + 1);
    AtShift(x, 3 * (t - 1) + 2);
  }

  lemma AtShift(x: seq<Byte>, i: nat)
    requires |x| >= 3
    ensures At(x[3..], i) == At(x, i + 3)
  {
  }

  lemma SextetFirst(x: seq<Byte>, m: nat)
    requires m < 4
    ensures Sextet(x, m) == Cut(Group(At(x, 0), At(x, 1), At(x, 2)))[m]
  {
    CutGroup(At(x, 0), At(x, 1), At(x, 2));
    assert m / 4 == 0 && m % 4 == m;
  }

  /** The four formulas are the 24-bit groups, sextet by sextet. */
  lemma {:induction false} ScalarAt(x: seq<Byte>, m: nat)
    requires m < EncodedSize(|x|)
    ensures Scalar(x)[m] == Sextet(x, m)
  {
    hide Cut, Group, Sextet;
    if m >= 4 {
      ScalarAt(x[3..], m - 4);
      SextetShift(x, m);
    } else {
      SextetFirst(x, m);
    }
  }
}
