/** Powers of naturals, and numbers written in a base. */
module Powers {
  function Pow(b: nat, n: nat): nat {
    if n == 0 then 1 else b * Pow(b, n - 1)
  }

  lemma MulMono(a: nat, b: nat, c: nat, d: nat)
    requires a <= b && c <= d
    ensures a * c <= b * d
  {
    assert a * c <= b * c <= b * d by {
      assert b * c - a * c == (b - a) * c;
      assert b * d - b * c == b * (d - c);
    }
  }

  lemma MulAssoc(a: nat, b: nat, c: nat)
    ensures a * (b * c) == (a * b) * c
  {
  }

  lemma MulDistributes(a: nat, b: nat, c: nat)
    ensures (a + b) * c == a * c + b * c == c * a + c * b == c * (a + b)
  {
  }

  lemma MulStrict(a: nat, b: nat, c: nat, d: nat)
    requires a < b && c <= d && 0 < d
    ensures a * c < b * d
  {
    MulMono(a, b - 1, c, d);
    assert b * d == (b - 1) * d + d;
  }

  lemma {:induction false} PowAdd(b: nat, m: nat, n: nat)
    ensures Pow(b, m + n) == Pow(b, m) * Pow(b, n)
  {
    if m > 0 {
      PowAdd(b, m - 1, n);
      MulAssoc(b, Pow(b, m - 1), Pow(b, n));
    }
  }

  lemma {:induction false} PowPow(b: nat, m: nat, n: nat)
    ensures Pow(Pow(b, m), n) == Pow(b, m * n)
  {
    if n > 0 {
      PowPow(b, m, n - 1);
      PowAdd(b, m, m * (n - 1));
      assert m * n == m + m * (n - 1);
    }
  }

  lemma {:induction false} PowMonoBase(a: nat, b: nat, n: nat)
    requires a <= b
    ensures Pow(a, n) <= Pow(b, n)
  {
    if n > 0 {
      PowMonoBase(a, b, n - 1);
      MulMono(a, b, Pow(a, n - 1), Pow(b, n - 1));
    }
  }

  lemma {:induction false} PowStrictBase(a: nat, b: nat, n: nat)
    requires a < b && 0 < n
    ensures Pow(a, n) < Pow(b, n)
  {
    PowMonoBase(a, b, n - 1);
    PowPositive(b, n - 1);
    MulStrict(a, b, Pow(a, n - 1), Pow(b, n - 1));
  }

  lemma {:induction false} PowPositive(b: nat, n: nat)
    requires 0 < b
    ensures 0 < Pow(b, n)
  {
    if n > 0 {
      PowPositive(b, n - 1);
      MulStrict(0, b, 0, Pow(b, n - 1));
    }
  }

  lemma PowMonoExp(b: nat, m: nat, n: nat)
    requires 0 < b && m <= n
    ensures Pow(b, m) <= Pow(b, n)
  {
    PowAdd(b, m, n - m);
    PowPositive(b, n - m);
    MulMono(Pow(b, m), Pow(b, m), 1, Pow(b, n - m));
  }

  lemma PowSwap(b: nat, m: nat, n: nat)
    ensures Pow(Pow(b, m), n) == Pow(Pow(b, n), m)
  {
    PowPow(b, m, n);
    PowPow(b, n, m);
    assert m * n == n * m;
  }

  lemma RatioLeft(a: nat, p: nat, b: nat, q: nat, n: nat, x: nat)
    requires Pow(a, p) <= Pow(b, q) && x == q * n
    ensures Pow(Pow(a, n), p) <= Pow(b, x)
  {
    hide Pow;
    PowSwap(a, n, p);
    PowMonoBase(Pow(a, p), Pow(b, q), n);
    PowPow(b, q, n);
  }

  lemma RatioRight(b: nat, p: nat, m: nat, y: nat)
    requires y == p * m
    ensures Pow(b, y) == Pow(Pow(b, m), p)
  {
    hide Pow;
    PowPow(b, p, m);
    PowSwap(b, m, p);
  }

  /** Powers preserve the strict order of their bases. */
  lemma RootMono(x: nat, y: nat, p: nat)
    requires 0 < p && Pow(x, p) <= Pow(y, p)
    ensures x <= y
  {
    hide Pow;
    if y < x {
      PowStrictBase(y, x, p);
    }
  }

  /** One exact inequality bounds a ratio of exponents for good. */
  lemma RatioBound(a: nat, p: nat, b: nat, q: nat, n: nat, m: nat)
    requires 1 < a && 1 < b && 0 < p
    requires Pow(a, p) <= Pow(b, q)
    requires q * n <= p * m
    ensures Pow(a, n) <= Pow(b, m)
  {
    hide Pow;
    var x, y := q * n, p * m;
    RatioLeft(a, p, b, q, n, x);
    PowMonoExp(b, x, y);
    RatioRight(b, p, m, y);
    RootMono(Pow(a, n), Pow(b, m), p);
  }

  // ----- digits -----

  lemma DivSmaller(v: nat, b: nat)
    requires v > 0 && b > 1
    ensures v / b < v
  {
    MulMono(2, b, v / b, v / b);
    assert v == b * (v / b) + v % b;
  }

  ghost predicate Digits(s: seq<nat>, b: nat) {
    forall i :: 0 <= i < |s| ==> s[i] < b
  }

  /** The value of digits, least significant first. */
  function Value(s: seq<nat>, b: nat): nat {
    if s == [] then 0 else s[0] + b * Value(s[1..], b)
  }

  /** The digits of a number, least significant first, without a leading zero. */
  function Canonical(v: nat, b: nat): (s: seq<nat>)
    requires 1 < b
    decreases v
  {
    if v == 0 then [] else
      DivSmaller(v, b);
      [v % b] + Canonical(v / b, b)
  }

  /** Reading digits most significant first. */
  function Horner(s: seq<nat>, b: nat): nat {
    if s == [] then 0 else Horner(s[..|s| - 1], b) * b + s[|s| - 1]
  }

  lemma {:induction false} HornerConcat(s: seq<nat>, t: seq<nat>, b: nat)
    ensures Horner(s + t, b) == Horner(s, b) * Pow(b, |t|) + Horner(t, b)
  {
    if t == [] {
      assert s + t == s && Pow(b, 0) == 1;
    } else {
      var front, h, p := t[..|t| - 1], Horner(s, b), Pow(b, |t| - 1);
      HornerConcat(s, front, b);
      assert (s + t)[..|s + t| - 1] == s + front;
      PowAdd(b, |t| - 1, 1);
      assert Pow(b, 1) == b * Pow(b, 0) == b;
      MulDistributes(h * p, Horner(front, b), b);
      MulAssoc(h, p, b);
    }
  }

  function Reversed<T>(s: seq<T>): (r: seq<T>)
    ensures |r| == |s| && forall i :: 0 <= i < |s| ==> r[i] == s[|s| - 1 - i]
  {
    seq(|s|, i requires 0 <= i < |s| => s[|s| - 1 - i])
  }

  lemma {:induction false} HornerReversed(s: seq<nat>, b: nat)
    ensures Horner(Reversed(s), b) == Value(s, b)
  {
    if s != [] {
      HornerReversed(s[1..], b);
      assert Reversed(s)[..|s| - 1] == Reversed(s[1..]);
    }
  }

  lemma {:induction false} ValueBound(s: seq<nat>, b: nat)
    requires 0 < b && Digits(s, b)
    ensures Value(s, b) < Pow(b, |s|)
  {
    if s != [] {
      ValueBound(s[1..], b);
      MulMono(b, b, Value(s[1..], b) + 1, Pow(b, |s| - 1));
      assert b * (Value(s[1..], b) + 1) == b * Value(s[1..], b) + b;
    }
  }

  lemma HornerBound(s: seq<nat>, b: nat)
    requires 0 < b && Digits(s, b)
    ensures Horner(s, b) < Pow(b, |s|)
  {
    HornerReversed(Reversed(s), b);
    assert Reversed(Reversed(s)) == s;
    ValueBound(Reversed(s), b);
  }

  lemma {:induction false} DivMod(q: nat, r: nat, b: nat)
    requires r < b
    ensures (r + b * q) / b == q && (r + b * q) % b == r
  {
    var x := r + b * q;
    assert x == b * (x / b) + x % b;
    assert b * (q - x / b) == x % b - r && b * (x / b - q) == r - x % b;
    if q > x / b { MulMono(b, b, 1, q - x / b); }
    if q < x / b { MulMono(b, b, 1, x / b - q); }
  }

  /** Digits without a leading zero are the digits of their value. */
  lemma {:induction false} CanonicalUnique(s: seq<nat>, b: nat)
    requires 1 < b && Digits(s, b) && (s == [] || s[|s| - 1] != 0)
    ensures Canonical(Value(s, b), b) == s
    ensures s != [] ==> Value(s, b) > 0
  {
    if s != [] {
      var t := s[1..];
      CanonicalUnique(t, b);
      DivMod(Value(t, b), s[0], b);
      if t != [] {
        assert t[|t| - 1] == s[|s| - 1];
        MulStrict(0, b, 0, Value(t, b));
      }
      assert s == [s[0]] + t;
    }
  }

  lemma CanonicalStep(v: nat, b: nat) returns (q: nat, r: nat)
    requires 1 < b && v > 0
    ensures v == r + b * q && r < b && q < v && (q == 0 ==> r > 0)
    ensures Canonical(v, b) == [r] + Canonical(q, b)
  {
    DivSmaller(v, b);
    q, r := v / b, v % b;
  }

  lemma {:induction false} ValueCanonical(v: nat, b: nat)
    requires 1 < b
    ensures Value(Canonical(v, b), b) == v && Digits(Canonical(v, b), b)
    ensures v > 0 ==> Canonical(v, b) != [] && Canonical(v, b)[|Canonical(v, b)| - 1] != 0
    decreases v
  {
    if v > 0 {
      var q, r := CanonicalStep(v, b);
      ValueCanonical(q, b);
      var rest := Canonical(q, b);
      assert ([r] + rest)[1..] == rest;
      assert q == 0 ==> rest == [];
    }
  }

  /** A value fits n digits exactly when its own digits do. */
  lemma {:induction false} CanonicalSize(v: nat, b: nat, n: nat)
    requires 1 < b
    ensures v < Pow(b, n) <==> |Canonical(v, b)| <= n
    decreases n
  {
    if v > 0 {
      var q, r := CanonicalStep(v, b);
      if n > 0 {
        CanonicalSize(q, b, n - 1);
        FitsNext(q, r, b, Pow(b, n - 1));
      }
    } else {
      PowPositive(b, n);
    }
  }

  lemma FitsNext(q: nat, r: nat, b: nat, p: nat)
    requires r < b
    ensures r + b * q < b * p <==> q < p
  {
    if q < p { MulMono(b, b, q + 1, p); } else { MulMono(b, b, p, q); }
    assert b * (q + 1) == b * q + b;
  }
}
