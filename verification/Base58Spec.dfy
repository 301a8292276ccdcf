/** Base58 on paper: what an encoding is, and why it can be undone. */
module Base58Spec {
  import opened Basics
  import opened Powers

  /** The dictionary (ircd/b58.cc:22-25), in two halves. */
  const DIGITS_AND_CAPITALS := "123456789ABCDEFGHJKLMNPQRSTUV"
  const LETTERS := "WXYZabcdefghijkmnopqrstuvwxyz"
  const DICT := DIGITS_AND_CAPITALS + LETTERS

  const ONE: Byte := 49   // the character '1', which is digit zero

  lemma DictIncreasing()
    ensures |DICT| == 58 && DICT[0] as int == ONE
    ensures forall i :: 0 <= i < 57 ==> DICT[i] < DICT[i + 1]
  {
  }

  lemma DictAscii()
    ensures |DICT| == 58 && forall i :: 0 <= i < 58 ==> DICT[i] as int < 128
  {
  }

  lemma DictShape()
    ensures |DICT| == 58 && DICT[0] as int == ONE
    ensures forall i :: 0 <= i < 57 ==> DICT[i] < DICT[i + 1]
    ensures forall i :: 0 <= i < 58 ==> DICT[i] as int < 128
  {
    hide DICT;
    DictIncreasing();
    DictAscii();
  }

  /** The position of a character code in s, or |s|. */
  function Find(s: string, c: Byte): (i: nat)
    ensures i <= |s|
    ensures i < |s| ==> s[i] as int == c
    ensures i == |s| <==> forall j :: 0 <= j < |s| ==> s[j] as int != c
  {
    if s == "" || s[0] as int == c then 0 else 1 + Find(s[1..], c)
  }

  predicate InDict(c: Byte) {
    Find(DICT, c) < 58
  }

  predicate AllInDict(s: seq<Byte>) {
    forall c <- s :: InDict(c)
  }

  function Code(d: nat): (c: Byte)
    requires d < 58
  {
    DictShape();
    DICT[d] as int
  }

  lemma {:induction false} Increasing(s: string, i: nat, j: nat)
    requires forall k :: 0 <= k < |s| - 1 ==> s[k] < s[k + 1]
    requires i < j < |s|
    ensures s[i] < s[j]
  {
    if i + 1 < j { Increasing(s, i, j - 1); }
  }

  /** Digits and characters correspond one to one. */
  lemma FindCode(d: nat)
    requires d < 58
    ensures Find(DICT, Code(d)) == d
  {
    DictShape();
    var i := Find(DICT, Code(d));
    if i < d { Increasing(DICT, i, d); }
    if d < i { assert DICT[d] as int == Code(d); if i < 58 { Increasing(DICT, d, i); } }
  }

  lemma FirstHalf(d: nat)
    requires d < 29
    ensures DIGITS_AND_CAPITALS[d] as int ==
            if d < 9 then '1' as int + d
            else if d < 17 then 'A' as int + (d - 9)
            else if d < 22 then 'J' as int + (d - 17)
            else 'P' as int + (d - 22)
  {
  }

  lemma SecondHalf(d: nat)
    requires d < 29
    ensures LETTERS[d] as int ==
            if d < 4 then 'W' as int + d
            else if d < 15 then 'a' as int + (d - 4)
            else 'm' as int + (d - 15)
  {
  }

  /** The dictionary in closed form. */
  lemma CodeShape(d: nat)
    requires d < 58
    ensures Code(d) ==
            if d < 9 then '1' as int + d
            else if d < 17 then 'A' as int + (d - 9)
            else if d < 22 then 'J' as int + (d - 17)
            else if d < 33 then 'P' as int + (d - 22)
            else if d < 44 then 'a' as int + (d - 33)
            else 'm' as int + (d - 44)
  {
    if d < 29 { FirstHalf(d); } else { SecondHalf(d - 29); }
  }

  predicate Plain58(c: Byte) {
    || ('1' as int <= c <= '9' as int)
    || ('A' as int <= c <= 'Z' as int && c != 'I' as int && c != 'O' as int)
    || ('a' as int <= c <= 'z' as int && c != 'l' as int)
  }

  /** The dictionary holds the digits and letters other than 0, O, I and l. */
  lemma DictExactly(c: Byte)
    ensures InDict(c) <==> Plain58(c)
  {
    hide DICT;
    DictShape();
    if InDict(c) { CodeShape(Find(DICT, c)); }
    if Plain58(c) {
      var d := if c <= 57 then c - 49 else if c <= 72 then c - 56 else if c <= 78 then c - 57
               else if c <= 90 then c - 58 else if c <= 107 then c - 64 else c - 65;
      CodeShape(d);
      FindCode(d);
    }
  }

  function Codes(s: seq<nat>): (r: seq<Byte>)
    requires Digits(s, 58)
    ensures |r| == |s|
  {
    seq(|s|, i requires 0 <= i < |s| => Code(s[i]))
  }

  function Finds(s: seq<Byte>): (r: seq<nat>)
    requires AllInDict(s)
    ensures |r| == |s| && Digits(r, 58)
  {
    assert forall i :: 0 <= i < |s| ==> InDict(s[i]);
    seq(|s|, i requires 0 <= i < |s| => Find(DICT, s[i]))
  }

  lemma FindsCodes(s: seq<nat>)
    requires Digits(s, 58)
    ensures AllInDict(Codes(s)) && Finds(Codes(s)) == s
  {
    forall i | 0 <= i < |s| ensures Find(DICT, Codes(s)[i]) == s[i] { FindCode(s[i]); }
  }

  lemma CodesFinds(s: seq<Byte>)
    requires AllInDict(s)
    ensures Codes(Finds(s)) == s
  {
    DictShape();
    assert forall i :: 0 <= i < |s| ==> InDict(s[i]);
  }

  // ----- digit strings with leading zeros -----

  function Leading(s: seq<nat>, c: nat): (n: nat)
    ensures n <= |s| && (n < |s| ==> s[n] != c)
    ensures forall i :: 0 <= i < n ==> s[i] == c
  {
    if s == [] || s[0] != c then 0 else 1 + Leading(s[1..], c)
  }

  function Zeros(n: nat): (s: seq<nat>)
    ensures |s| == n && forall i :: 0 <= i < n ==> s[i] == 0
  {
    seq(n, _ => 0)
  }

  /** z zeros, then the digits of v without a leading zero. */
  function Normal(z: nat, v: nat, b: nat): seq<nat>
    requires 1 < b
  {
    Zeros(z) + Reversed(Canonical(v, b))
  }

  lemma {:induction false} HornerZeros(z: nat, t: seq<nat>, b: nat)
    ensures Horner(Zeros(z) + t, b) == Horner(t, b)
  {
    var s := Zeros(z) + t;
    if t != [] {
      HornerZeros(z, t[..|t| - 1], b);
      assert s[..|s| - 1] == Zeros(z) + t[..|t| - 1];
    } else if z > 0 {
      HornerZeros(z - 1, [], b);
      assert s[..|s| - 1] == Zeros(z - 1) + [];
    }
  }

  lemma NormalFacts(z: nat, v: nat, b: nat)
    requires 1 < b
    ensures var s := Normal(z, v, b); Leading(s, 0) == z && Horner(s, b) == v && Digits(s, b)
  {
    var c := Canonical(v, b);
    ValueCanonical(v, b);
    HornerReversed(c, b);
    HornerZeros(z, Reversed(c), b);
    var s := Normal(z, v, b);
    if c != [] { assert s[z] == Reversed(c)[0] == c[|c| - 1]; }
  }

  lemma WithoutLeadingZero(t: seq<nat>, b: nat)
    requires 1 < b && Digits(t, b) && (t == [] || t[0] != 0)
    ensures Reversed(Canonical(Horner(t, b), b)) == t
  {
    hide Horner, Canonical, Value;
    var r := Reversed(t);
    assert Reversed(r) == t;
    HornerReversed(r, b);
    CanonicalUnique(r, b);
  }

  /** Every digit string is its leading zeros and its value. */
  lemma NormalForm(s: seq<nat>, b: nat)
    requires 1 < b && Digits(s, b)
    ensures s == Normal(Leading(s, 0), Horner(s, b), b)
  {
    hide Horner, Canonical, Reversed;
    var z := Leading(s, 0);
    var t := s[z..];
    assert s == Zeros(z) + t;
    HornerZeros(z, t, b);
    WithoutLeadingZero(t, b);
  }

  // ----- the two directions -----

  function EncodeSpec(x: seq<Byte>): (s: seq<Byte>) {
    NormalFacts(Leading(x, 0), Horner(x, 256), 58);
    Codes(Normal(Leading(x, 0), Horner(x, 256), 58))
  }

  /** The bytes 1, 0 are the number 256, which is 4 * 58 + 24: "5R". */
  lemma EncodeVector()
    ensures EncodeSpec([1, 0]) == [53, 82]
  {
    hide Code;
    assert Horner([1, 0], 256) == 256 by { assert [1, 0][..1] == [1] && [1][..0] == []; }
    assert Canonical(4, 58) == [4] + Canonical(0, 58) && Canonical(256, 58) == [24] + Canonical(4, 58);
    assert Leading([1, 0], 0) == 0 && Normal(0, 256, 58) == [4, 24];
    CodeShape(4);
    CodeShape(24);
  }

  function DecodeSpec(s: seq<Byte>): (r: Option<seq<nat>>) {
    if AllInDict(s) then Some(Normal(Leading(Finds(s), 0), Horner(Finds(s), 58), 256)) else None
  }

  lemma DecodeEncodeSpec(x: seq<Byte>)
    ensures DecodeSpec(EncodeSpec(x)) == Some(x)
  {
    var z, v := Leading(x, 0), Horner(x, 256);
    NormalFacts(z, v, 58);
    FindsCodes(Normal(z, v, 58));
    NormalForm(x, 256);
  }

  lemma EncodeDecodeSpec(s: seq<Byte>)
    requires AllInDict(s)
    ensures DecodeSpec(s).Some? && Digits(DecodeSpec(s).value, 256)
    ensures EncodeSpec(DecodeSpec(s).value) == s
  {
    var f := Finds(s);
    var z, v := Leading(f, 0), Horner(f, 58);
    NormalFacts(z, v, 256);
    NormalForm(f, 58);
    CodesFinds(s);
  }
}
