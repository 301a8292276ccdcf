/** Base58 under the build's signed char (configure.ac:1256-1258): which bytes and cells are read as
    negative numbers, and exactly when that shows. */
module Base58Signed {
  import opened Basics
  import opened Powers
  import opened Base58Spec
  import opened Base58

  /** Digits that a signed char reads as they are. */
  predicate Plain(s: seq<nat>) {
    forall i :: 0 <= i < |s| ==> s[i] < 128
  }

  // ----- decoding -----

  /** Every proper prefix has a value whose bytes are below 128. */
  predicate PlainPrefixes(f: seq<nat>) {
    forall k :: 0 <= k < |f| ==> Plain(Canonical(Horner(f[..k], 58), 256))
  }

  /** Cells below a multiple of what fits are the low digits. */
  lemma {:induction false} LowDigits(cells: seq<nat>, v: nat, q: nat, i: nat)
    requires Digits(cells, 256) && v == Value(cells, 256) + Pow(256, |cells|) * q && i < |cells|
    ensures var c := Canonical(v, 256); cells[i] == if i < |c| then c[i] else 0
  {
    hide Canonical;
    var rest := Value(cells[1..], 256) + Pow(256, |cells| - 1) * q;
    MulAssoc(256, Pow(256, |cells| - 1), q);
    DivMod(rest, cells[0], 256);
    if i > 0 { LowDigits(cells[1..], rest, q, i - 1); }
    CanonicalHead(v, rest, cells[0]);
  }

  lemma CanonicalHead(v: nat, q: nat, r: nat)
    requires v == r + 256 * q && r < 256
    ensures Canonical(v, 256) == if v == 0 then [] else [r] + Canonical(q, 256)
    ensures v == 0 ==> q == 0 && r == 0
  {
    DivMod(q, r, 256);
  }

  lemma {:induction false} SameAbsorb(cells: seq<Byte>, left: nat, carry: nat)
    requires Plain(cells)
    ensures Absorb(Decoding, cells, left, carry, true) == Absorb(Decoding, cells, left, carry, false)
  {
    if (carry > 0 || left > 0) && cells != [] {
      SameAbsorb(cells[1..], if left > 0 then left - 1 else 0, Decoding.High(Decoding.Sum(carry, cells[0])));
    }
  }

  lemma PrefixOfFront(f: seq<nat>, k: nat)
    requires k < |f|
    ensures f[..|f| - 1][..k] == f[..k]
  {
  }

  /** Plain prefixes are decoded alike, whatever the window. */
  lemma {:induction false} SameRun(f: seq<nat>, w: nat)
    requires Digits(f, 58) && PlainPrefixes(f)
    ensures Run(Decoding, f, w, true) == Run(Decoding, f, w, false)
  {
    hide Absorb, Canonical, Horner, Value, Pow;
    if f != [] {
      var front := f[..|f| - 1];
      forall k | 0 <= k < |front| ensures Plain(Canonical(Horner(front[..k], 58), 256)) { PrefixOfFront(f, k); }
      SameRun(front, w);
      var q := RunValue(Decoding, front, w);
      var (cells, n) := Run(Decoding, front, w, false);
      forall i | 0 <= i < |cells| ensures cells[i] < 128 { LowDigits(cells, Horner(front, 58), q, i); }
      SameAbsorb(cells, n, f[|f| - 1]);
    }
  }

  /** The cell after the lowest one from 128 on gets a carry that is short by 58, so it comes out wrong. */
  lemma {:induction false} WrongAbsorb(cells: seq<Byte>, left: nat, carry: nat, i: nat)
    requires carry < 58 && i + 1 < |cells| && i < left <= |cells|
    requires Plain(cells[..i]) && cells[i] >= 128
    ensures var (r, n, _) := Absorb(Decoding, cells, left, carry, true);
            n > i + 1 && r[i + 1] != Absorb(Decoding, cells, left, carry, false).0[i + 1]
  {
    if i > 0 {
      var t := Decoding.Sum(carry, cells[0]);
      assert cells[..i][0] == cells[0] && cells[1..][..i - 1] == cells[..i][1..];
      WrongAbsorb(cells[1..], left - 1, Decoding.High(t), i - 1);
    } else {
      BorrowedCarry(carry, cells[0], cells[1]);
      WrongPair(cells, left, carry);
    }
  }

  /** What a cell from 128 on does to the carry, and the carry to the next cell. */
  lemma BorrowedCarry(carry: nat, c: Byte, d: Byte)
    requires carry < 58 && c >= 128
    ensures var h := (carry + 58 * c) / 256;
            && Decoding.High(Decoding.Sum(carry, Widen(c, false))) == h < 58
            && Decoding.High(Decoding.Sum(carry, Widen(c, true))) == h + 72057594037927878
            && Decoding.Low(Decoding.Sum(h, Widen(d, false))) == (h + 58 * d) % 256
            && Decoding.Low(Decoding.Sum(h + 72057594037927878, Widen(d, true))) == (h + 58 * d + 198) % 256
            && (h + 58 * d) % 256 != (h + 58 * d + 198) % 256
  {
    var x := carry + 58 * c;
    var h := x / 256;
    assert x < 14848 && x == 256 * h + x % 256;
    assert Decoding.Sum(carry, Widen(c, true)) == SIZE_T - 14848 + x by { Wraps(carry, c); }
    assert SIZE_T - 14848 + x == 256 * (h + 72057594037927878) + x % 256;
    DivMod(h + 72057594037927878, x % 256, 256);
    DivMod(0, x, SIZE_T);
    NextCell(h, d);
  }

  lemma Wraps(carry: nat, c: Byte)
    requires carry < 58 && c >= 128
    ensures Decoding.Sum(carry, Widen(c, true)) == SIZE_T - 14848 + carry + 58 * c
  {
    var t := carry + 58 * (SIZE_T - 256 + c);
    DivMod(57, SIZE_T - 14848 + carry + 58 * c, SIZE_T);
    assert t == SIZE_T - 14848 + carry + 58 * c + SIZE_T * 57;
  }

  lemma ModShift(a: nat, k: nat)
    ensures (a + 256 * k) % 256 == a % 256
  {
    DivMod(a / 256 + k, a % 256, 256);
  }

  lemma NextCell(h: nat, d: Byte)
    requires h < 58
    ensures Decoding.Sum(h, Widen(d, false)) == h + 58 * d
    ensures Decoding.Low(Decoding.Sum(h + 72057594037927878, Widen(d, true))) == (h + 58 * d + 198) % 256
    ensures (h + 58 * d) % 256 != (h + 58 * d + 198) % 256
  {
    var y := h + 58 * d;
    var t := h + 72057594037927878 + 58 * Widen(d, true);
    if d < 128 {
      DivMod(0, t, SIZE_T);
      ModShift(y + 198, 281474976710655);
    } else {
      var low := y + 198 + 256 * (281474976710655 - 58);
      assert t == low + SIZE_T * 58;
      DivMod(58, low, SIZE_T);
      ModShift(y + 198, 281474976710655 - 58);
    }
  }

  lemma WrongPair(cells: seq<Byte>, left: nat, carry: nat)
    requires carry < 58 && 1 < |cells| && 0 < left && cells[0] >= 128
    ensures var (r, n, _) := Absorb(Decoding, cells, left, carry, true);
            n > 1 && r[1] != Absorb(Decoding, cells, left, carry, false).0[1]
  {
    BorrowedCarry(carry, cells[0], cells[1]);
  }

  /** A non-zero digit bounds the value from below. */
  lemma {:induction false} ValueAt(cells: seq<nat>, i: nat)
    requires i < |cells|
    ensures cells[i] * Pow(256, i) <= Value(cells, 256)
  {
    if i > 0 {
      ValueAt(cells[1..], i - 1);
      MulAssoc(256, cells[i], Pow(256, i - 1));
      MulAssoc(cells[i], 256, Pow(256, i - 1));
    }
  }

  /** A window that takes the longer value has a cell above the one that is not plain. */
  lemma RoomForCarry(cells: seq<Byte>, i: nat, v: nat, c: nat, w: nat)
    requires i < |cells| == w && cells[i] >= 128 && v == Value(cells, 256) && v * 58 + c < Pow(256, w)
    ensures i + 1 < w
  {
    ValueAt(cells, i);
    MulMono(128, cells[i], Pow(256, i), Pow(256, i));
    assert 58 * (128 * Pow(256, i)) >= 256 * Pow(256, i) == Pow(256, i + 1);
  }

  /** Digits of a value that fits the cells are cells. */
  lemma CanonicalDigit(cells: seq<nat>, v: nat, i: nat)
    requires Digits(cells, 256) && v == Value(cells, 256) && i < |Canonical(v, 256)|
    ensures i < |cells| && Canonical(v, 256)[i] == cells[i]
  {
    hide Canonical, Value;
    ValueBound(cells, 256);
    CanonicalSize(v, 256, |cells|);
    LowDigits(cells, v, 0, i);
  }

  lemma NotPlainCells(cells: seq<nat>, v: nat)
    requires Digits(cells, 256) && v == Value(cells, 256)
    ensures Plain(cells) ==> Plain(Canonical(v, 256))
  {
    hide Canonical, Value;
    forall i | 0 <= i < |Canonical(v, 256)| ensures i < |cells| && Canonical(v, 256)[i] == cells[i] {
      CanonicalDigit(cells, v, i);
    }
  }

  lemma LowestHigh(cells: seq<nat>) returns (i: nat)
    requires !Plain(cells)
    ensures i < |cells| && cells[i] >= 128 && Plain(cells[..i])
  {
    i := 0;
    while cells[i] < 128
      invariant i < |cells| && Plain(cells[..i])
      invariant exists j :: i <= j < |cells| && cells[j] >= 128
      decreases |cells| - i
    {
      i := i + 1;
    }
  }

  /** The first symbol after a prefix that is not plain is absorbed wrongly. */
  lemma WrongRun(f: seq<nat>, w: nat) returns (at: nat)
    requires f != [] && Digits(f, 58) && Horner(f, 58) < Pow(256, w)
    requires PlainPrefixes(f[..|f| - 1]) && !Plain(Canonical(Horner(f[..|f| - 1], 58), 256))
    ensures var (good, n) := Run(Decoding, f, w, false); var (bad, m) := Run(Decoding, f, w, true);
            at < w && at < m && bad[at] != good[at]
  {
    hide Absorb, Canonical, Pow, Value, Run;
    var front, c := f[..|f| - 1], f[|f| - 1];
    SameRun(front, w);
    HornerMono(f, 58);
    RunHolds(Decoding, front, w);
    var (cells, n) := Run(Decoding, front, w, false);
    NotPlainCells(cells, Horner(front, 58));
    var i := LowestHigh(cells);
    RoomForCarry(cells, i, Horner(front, 58), c, w);
    WrongAbsorb(cells, n, c, i);
    RunStep(f, w, true);
    RunStep(f, w, false);
    at := i + 1;
  }

  lemma RunStep(f: seq<nat>, w: nat, signed: bool)
    requires f != []
    ensures var before := Run(Decoding, f[..|f| - 1], w, signed);
            var after := Absorb(Decoding, before.0, before.1, f[|f| - 1], signed);
            Run(Decoding, f, w, signed) == (after.0, after.1)
  {
  }

  // ----- whole strings -----

  lemma WrittenTells(z: nat, f: seq<nat>, w: nat, at: nat)
    requires at < w && at < Run(Decoding, f, w, true).1
    requires Run(Decoding, f, w, true).0[at] != Run(Decoding, f, w, false).0[at]
    ensures Written(Decoding, z, f, w, true) != Written(Decoding, z, f, w, false)
  {
    hide Run;
    var (bad, m) := Run(Decoding, f, w, true);
    var (good, n) := Run(Decoding, f, w, false);
    if m == n {
      assert Reversed<nat>(bad[..m])[m - 1 - at] == bad[at] && Reversed<nat>(good[..n])[m - 1 - at] == good[at];
      assert Written(Decoding, z, f, w, true)[z + (m - 1 - at)] == bad[at];
    }
  }

  /** Decoding under a signed char is right for every string with plain prefixes, in any window. */
  lemma SignedDecodePlain(s: seq<Byte>, w: nat)
    requires AllInDict(s) && PlainPrefixes(Finds(s[Leading(s, ONE as int)..]))
    ensures DecodeRun(s, w, true) == DecodeRun(s, w, false)
  {
    hide Run, PlainPrefixes;
    SameRun(Finds(s[Leading(s, ONE as int)..]), w);
  }

  /** It is wrong at the first symbol that follows a prefix that is not plain. */
  lemma SignedDecodeWrong(s: seq<Byte>, w: nat)
    requires AllInDict(s) && Horner(Finds(s), 58) < Pow(256, w)
    requires var f := Finds(s[Leading(s, ONE as int)..]);
             f != [] && PlainPrefixes(f[..|f| - 1]) && !Plain(Canonical(Horner(f[..|f| - 1], 58), 256))
    ensures DecodeSpec(s) == Some(DecodeRun(s, w, false)) && DecodeSpec(s) != Some(DecodeRun(s, w, true))
  {
    hide Run, PlainPrefixes, Plain, Canonical, Pow, Horner, DecodeSpec, Written;
    var z := Leading(s, ONE as int);
    var f := Finds(s[z..]);
    DecodeExact(s, w);
    SkippedOnes(s);
    var at := WrongRun(f, w);
    WrittenTells(z, f, w, at);
  }

  lemma SkippedOnes(s: seq<Byte>)
    requires AllInDict(s)
    ensures Horner(Finds(s), 58) == Horner(Finds(s[Leading(s, ONE as int)..]), 58)
  {
    hide Horner;
    var f := Finds(s);
    var z := Leading(f, 0);
    LeadingOnes(s);
    LeadingSplit(f);
    HornerZeros(z, f[z..], 58);
    assert Finds(s[z..]) == f[z..];
  }

  lemma FindsSlice(s: seq<Byte>, i: nat, j: nat)
    requires AllInDict(s) && i <= j <= |s|
    ensures AllInDict(s[i..j]) && Finds(s[i..j]) == Finds(s)[i..j]
  {
    hide Find;
    forall c | c in s[i..j] ensures InDict(c) { assert c in s; }
  }

  lemma LeadingPrefix(s: seq<Byte>, k: nat)
    requires k <= |s|
    ensures Leading(s[..k], ONE as int) == if k < Leading(s, ONE as int) then k else Leading(s, ONE as int)
  {
    hide Leading;
    var z, y := Leading(s, ONE as int), Leading(s[..k], ONE as int);
    assert forall i :: 0 <= i < k ==> s[..k][i] == s[i];
  }

  /** A prefix of a string: its leading ones, and its symbols behind them. */
  lemma PrefixParts(s: seq<Byte>, k: nat)
    requires AllInDict(s) && k <= |s|
    ensures AllInDict(s[..k]) && Finds(s[..k]) == Finds(s)[..k] && AllInDict(s[Leading(s, ONE as int)..])
    ensures var z := Leading(s, ONE as int);
            if k < z then Leading(s[..k], ONE as int) == k && s[..k][k..] == []
            else
              && Leading(s[..k], ONE as int) == z
              && AllInDict(s[..k][z..]) && Finds(s[..k][z..]) == Finds(s[z..])[..k - z]
  {
    hide AllInDict, Finds, Leading;
    var z := Leading(s, ONE as int);
    LeadingPrefix(s, k);
    FindsSlice(s, 0, k);
    FindsSlice(s, z, |s|);
    assert s[0..k] == s[..k] && s[z..|s|] == s[z..];
    if k >= z {
      FindsSlice(s, z, k);
      assert s[..k][z..] == s[z..k] && Finds(s)[z..][..k - z] == Finds(s)[z..k];
    }
  }

  lemma {:induction false} HornerPrefix(f: seq<nat>, k: nat)
    requires k <= |f|
    ensures Horner(f[..k], 58) <= Horner(f, 58)
  {
    if k < |f| {
      HornerMono(f, 58);
      HornerPrefix(f[..|f| - 1], k);
      assert f[..|f| - 1][..k] == f[..k];
    } else {
      assert f[..k] == f;
    }
  }

  lemma PlainPrefixesOf(f: seq<nat>, k: nat)
    requires k <= |f| && PlainPrefixes(f)
    ensures PlainPrefixes(f[..k])
  {
    forall j | 0 <= j < k ensures Plain(Canonical(Horner(f[..k][..j], 58), 256)) {
      assert f[..k][..j] == f[..j];
    }
  }

  /** The shortest prefix that is not plain. */
  lemma FirstNotPlain(f: seq<nat>) returns (k: nat)
    requires !PlainPrefixes(f)
    ensures k < |f| && PlainPrefixes(f[..k]) && !Plain(Canonical(Horner(f[..k], 58), 256))
  {
    hide Plain, Canonical, Horner;
    k := 0;
    while Plain(Canonical(Horner(f[..k], 58), 256))
      invariant k < |f| && forall j :: 0 <= j < k ==> Plain(Canonical(Horner(f[..j], 58), 256))
      invariant exists j :: k <= j < |f| && !Plain(Canonical(Horner(f[..j], 58), 256))
      decreases |f| - k
    {
      k := k + 1;
    }
    forall j | 0 <= j < k ensures Plain(Canonical(Horner(f[..k][..j], 58), 256)) {
      assert f[..k][..j] == f[..j];
    }
  }

  ghost predicate DecodesAlike(s: seq<Byte>, k: nat, w: nat)
    requires k <= |s|
  {
    AllInDict(s[..k]) && DecodeSpec(s[..k]) == Some(DecodeRun(s[..k], w, true))
  }

  /** Under a signed char a string and all its prefixes are decoded rightly if and only if every
      proper prefix, read as a number, has bytes below 128 only. */
  lemma SignedDecodeExact(s: seq<Byte>, w: nat)
    requires AllInDict(s) && Horner(Finds(s), 58) < Pow(256, w)
    ensures (forall k :: 0 <= k <= |s| ==> DecodesAlike(s, k, w)) <==> PlainPrefixes(Finds(s[Leading(s, ONE as int)..]))
  {
    hide Horner, Pow, DecodesAlike, PlainPrefixes, Plain, Canonical, AllInDict, Finds, Leading;
    var z := Leading(s, ONE as int);
    PrefixParts(s, |s|);
    var f := Finds(s[z..]);
    if PlainPrefixes(f) {
      forall k | 0 <= k <= |s| ensures DecodesAlike(s, k, w) {
        HornerPrefix(Finds(s), k);
        PlainPrefixDecodes(s, k, w);
      }
    } else {
      var k := FirstNotPlain(f);
      HornerPrefix(Finds(s), z + k + 1);
      NotPlainPrefixFails(s, k, w);
    }
  }

  lemma EmptyIsPlain(s: seq<Byte>)
    requires s == []
    ensures AllInDict(s) && PlainPrefixes(Finds(s))
  {
  }

  lemma PlainPrefixDecodes(s: seq<Byte>, k: nat, w: nat)
    requires AllInDict(s) && k <= |s| && Horner(Finds(s)[..k], 58) < Pow(256, w)
    requires PlainPrefixes(Finds(s[Leading(s, ONE as int)..]))
    ensures DecodesAlike(s, k, w)
  {
    hide Horner, Pow, DecodeSpec, DecodeRun, PlainPrefixes, AllInDict;
    var z := Leading(s, ONE as int);
    PrefixParts(s, k);
    DecodeExact(s[..k], w);
    if k >= z {
      PlainPrefixesOf(Finds(s[z..]), k - z);
    } else {
      EmptyIsPlain(s[..k][k..]);
    }
    SignedDecodePlain(s[..k], w);
  }

  lemma NotPlainPrefixFails(s: seq<Byte>, k: nat, w: nat)
    requires AllInDict(s) && k < |s| - Leading(s, ONE as int)
    requires Horner(Finds(s)[..Leading(s, ONE as int) + k + 1], 58) < Pow(256, w)
    requires var f := Finds(s[Leading(s, ONE as int)..]);
             PlainPrefixes(f[..k]) && !Plain(Canonical(Horner(f[..k], 58), 256))
    ensures !DecodesAlike(s, Leading(s, ONE as int) + k + 1, w)
  {
    hide Horner, Pow, DecodeSpec, DecodeRun, PlainPrefixes, Plain, Canonical, AllInDict, Finds, Leading;
    var z := Leading(s, ONE as int);
    PrefixParts(s, |s|);
    var f := Finds(s[z..]);
    PrefixParts(s, z + k + 1);
    assert f[..k + 1][..k] == f[..k];
    SignedDecodeWrong(s[..z + k + 1], w);
  }

  /** The same when each prefix is decoded in the window that the library takes for its length. */
  lemma SignedDecodeInItsWindow(s: seq<Byte>)
    requires AllInDict(s)
    ensures (forall k :: 0 <= k <= |s| ==> DecodesAlike(s, k, DecodeSize(k))) <==>
            PlainPrefixes(Finds(s[Leading(s, ONE as int)..]))
  {
    hide Horner, Pow, DecodesAlike, PlainPrefixes, Plain, Canonical, AllInDict, Finds, Leading;
    var z := Leading(s, ONE as int);
    PrefixParts(s, |s|);
    var f := Finds(s[z..]);
    if PlainPrefixes(f) {
      forall k | 0 <= k <= |s| ensures DecodesAlike(s, k, DecodeSize(k)) {
        DecodeFits(Finds(s)[..k]);
        PlainPrefixDecodes(s, k, DecodeSize(k));
      }
    } else {
      var k := FirstNotPlain(f);
      DecodeFits(Finds(s)[..z + k + 1]);
      NotPlainPrefixFails(s, k, DecodeSize(z + k + 1));
    }
  }

  const WITNESS: seq<Byte> := [52, 49, 49]

  /** "411", which is 3 * 58 * 58: its prefix "41" is the number 174. */
  lemma SignedDecodeWitness()
    ensures AllInDict(WITNESS)
    ensures DecodeSpec(WITNESS) != Some(DecodeRun(WITNESS, DecodeSize(3), true))
  {
    hide Find, DecodeSpec, DecodeRun, Pow, Horner, Finds, AllInDict, PlainPrefixes, Plain, Canonical;
    WitnessSymbols();
    WitnessPrefixes();
    DecodeFits(Finds(WITNESS));
    SignedDecodeWrong(WITNESS, DecodeSize(3));
  }

  lemma WitnessSymbols()
    ensures AllInDict(WITNESS) && Finds(WITNESS) == [3, 0, 0] && WITNESS[Leading(WITNESS, ONE as int)..] == WITNESS
  {
    hide Find;
    DictShape();
    FindCode(0);
    FindCode(3);
    assert WITNESS[0..] == WITNESS;
  }

  lemma WitnessPrefixes()
    ensures [3, 0, 0][..2] == [3, 0] && PlainPrefixes([3, 0]) && !Plain(Canonical(Horner([3, 0], 58), 256))
  {
    assert [3, 0, 0][..2] == [3, 0] && [3, 0][..1] == [3] && [3][..0] == [] && [3, 0][..0] == [];
    assert Horner([], 58) == 0 && Horner([3], 58) == 3 && Horner([3, 0], 58) == 174;
    assert Canonical(0, 256) == [] && Canonical(3, 256) == [3] + Canonical(0, 256);
    assert Canonical(174, 256) == [174] + Canonical(0, 256);
    assert Canonical(174, 256)[0] >= 128;
  }

  // ----- encoding -----

  /** With bytes below 128 the two readings agree. */
  lemma SignedEncode(x: seq<Byte>, w: nat)
    requires forall c <- x :: c < 128
    ensures EncodeRun(x, w, true) == EncodeRun(x, w, false)
  {
    var z := Leading(x, 0);
    assert forall i :: 0 <= i < |x[z..]| ==> x[z..][i] == x[z + i] && x[z + i] in x;
    assert Widened(x[z..], true) == Widened(x[z..], false) == x[z..];
    SignedRun(x[z..], w);
  }

  lemma {:induction false} SignedRun(input: seq<nat>, w: nat)
    requires Digits(input, 256)
    ensures Run(Encoding, input, w, true) == Run(Encoding, input, w, false)
  {
    if input != [] {
      var front := input[..|input| - 1];
      SignedRun(front, w);
      var q := RunValue(Encoding, front, w);
      var (cells, n) := Run(Encoding, front, w, false);
      SignedAbsorb(cells, n, input[|input| - 1]);
    }
  }

  lemma {:induction false} SignedAbsorb(cells: seq<Byte>, left: nat, carry: nat)
    requires Digits(cells, 58)
    ensures Absorb(Encoding, cells, left, carry, true) == Absorb(Encoding, cells, left, carry, false)
  {
    if (carry > 0 || left > 0) && cells != [] {
      var t := Encoding.Sum(carry, cells[0]);
      SignedAbsorb(cells[1..], if left > 0 then left - 1 else 0, Encoding.High(t));
    }
  }

  /** A byte from 128 on, as a carry of 2^64 - 256 more, makes one of the two lowest cells wrong. */
  lemma WrongByte(cells: seq<Byte>, left: nat, c: Byte) returns (at: nat)
    requires c >= 128 && |cells| >= 2 && Digits(cells, 58)
    ensures var (bad, m, _) := Absorb(Encoding, cells, left, Widen(c, true), true);
            at < 2 && at < m && bad[at] != Absorb(Encoding, cells, left, c, false).0[at]
  {
    if cells[0] > 0 {
      WrappedSum(c, cells[0]);
      at := 0;
    } else {
      HugeCarry(c, cells[1]);
      FirstPair(cells, left, c);
      at := 1;
    }
  }

  lemma WrappedSum(c: Byte, d: Byte)
    requires c >= 128 && 0 < d < 58
    ensures Encoding.Low(Encoding.Sum(Widen(c, true), Widen(d, true))) != Encoding.Low(Encoding.Sum(c, Widen(d, false)))
  {
    var t := c + 256 * (d - 1);
    DivMod(1, t, SIZE_T);
    assert Encoding.Sum(Widen(c, true), Widen(d, true)) == t;
    assert Encoding.Sum(c, Widen(d, false)) == t + 256;
  }

  const HUGE := 318047311615681920   // (2^64 - 256) / 58

  lemma HugeCarry(c: Byte, d: Byte)
    requires c >= 128 && d < 58
    ensures Encoding.High(Encoding.Sum(Widen(c, true), 0)) == HUGE + c / 58
    ensures Encoding.High(Encoding.Sum(c, 0)) == c / 58
    ensures Encoding.Low(Encoding.Sum(HUGE + c / 58, Widen(d, true))) !=
            Encoding.Low(Encoding.Sum(c / 58, Widen(d, false)))
  {
    var t := SIZE_T - 256 + c;
    assert Encoding.Sum(Widen(c, true), 0) == t;
    assert t == c % 58 + 58 * (HUGE + c / 58);
    DivMod(HUGE + c / 58, c % 58, 58);
    NextDigit(c / 58, d);
  }

  lemma NextDigit(h: nat, d: Byte)
    requires h < 5 && d < 58
    ensures Encoding.Low(Encoding.Sum(HUGE + h, d)) != Encoding.Low(Encoding.Sum(h, d))
  {
    var y := h + 256 * d;
    DivMod(0, HUGE + y, SIZE_T);
    assert HUGE == 58 * 5483574338201412 + 24;
    DivMod(5483574338201412 + (y + 24) / 58, (y + 24) % 58, 58);
  }

  lemma FirstPair(cells: seq<Byte>, left: nat, c: Byte)
    requires c >= 128 && |cells| >= 2 && Digits(cells, 58) && cells[0] == 0
    ensures var (bad, m, _) := Absorb(Encoding, cells, left, Widen(c, true), true);
            var carry := Encoding.High(Encoding.Sum(Widen(c, true), 0));
            m > 1 && bad[1] == Encoding.Low(Encoding.Sum(carry, Widen(cells[1], true)))
    ensures Absorb(Encoding, cells, left, c, false).0[1] ==
            Encoding.Low(Encoding.Sum(Encoding.High(Encoding.Sum(c, 0)), Widen(cells[1], false)))
  {
    HugeCarry(c, cells[1]);
    hide Direction.Sum, Direction.Low;
  }

  lemma EncodeStep(input: seq<nat>, w: nat, signed: bool)
    requires input != []
    ensures var before := Run(Encoding, input[..|input| - 1], w, signed);
            var after := Absorb(Encoding, before.0, before.1, input[|input| - 1], signed);
            Run(Encoding, input, w, signed) == (after.0, after.1)
  {
  }

  lemma WrongLastByte(front: seq<nat>, c: Byte, w: nat) returns (at: nat)
    requires Digits(front, 128) && c >= 128 && w >= 2
    ensures var (bad, m) := Run(Encoding, front + [Widen(c, true)], w, true);
            at < w && at < m && bad[at] != Run(Encoding, front + [c as nat], w, false).0[at]
  {
    hide Run, Absorb, Widen;
    SignedRun(front, w);
    var q := RunValue(Encoding, front, w);
    var (cells, n) := Run(Encoding, front, w, false);
    at := WrongByte(cells, n, c);
    var x, y := front + [Widen(c, true)], front + [c as nat];
    assert x[..|x| - 1] == front && y[..|y| - 1] == front;
    EncodeStep(x, w, true);
    EncodeStep(y, w, false);
  }

  lemma WrittenDiffers(z: nat, x: seq<nat>, y: seq<nat>, w: nat, at: nat)
    requires at < w && at < Run(Encoding, x, w, true).1
    requires Run(Encoding, x, w, true).0[at] != Run(Encoding, y, w, false).0[at]
    ensures Written(Encoding, z, x, w, true) != Written(Encoding, z, y, w, false)
  {
    hide Run;
    var (bad, m) := Run(Encoding, x, w, true);
    var (good, n) := Run(Encoding, y, w, false);
    if m == n {
      assert Reversed<nat>(bad[..m])[m - 1 - at] == bad[at] && Reversed<nat>(good[..n])[m - 1 - at] == good[at];
      assert Written(Encoding, z, x, w, true)[z + (m - 1 - at)] == bad[at];
    }
  }

  lemma WidenedLast(x: seq<Byte>, z: nat)
    requires z < |x| && forall i :: 0 <= i < |x| - 1 ==> x[i] < 128
    ensures var front: seq<nat>, c := x[z..|x| - 1], x[|x| - 1];
            && Digits(front, 128)
            && Widened(x[z..], true) == front + [Widen(c, true)]
            && Widened(x[z..], false) == front + [c as nat]
  {
  }

  /** Encoding under a signed char is wrong at the first byte from 128 on. */
  lemma SignedEncodeWrong(x: seq<Byte>, w: nat)
    requires x != [] && x[|x| - 1] >= 128 && (forall i :: 0 <= i < |x| - 1 ==> x[i] < 128)
    requires w >= 2 && Horner(x, 256) < Pow(58, w)
    ensures EncodeRun(x, w, true) != EncodeSpec(x)
  {
    hide Run, Horner, Pow, Written, EncodeSpec, Widened, Widen, Leading;
    EncodeExact(x, w);
    var z, c := Leading(x, 0), x[|x| - 1];
    assert z < |x|;
    var front: seq<nat> := x[z..|x| - 1];
    WidenedLast(x, z);
    var at := WrongLastByte(front, c, w);
    WrittenDiffers(z, front + [Widen(c, true)], front + [c as nat], w, at);
    FindsCodes(Written(Encoding, z, front + [Widen(c, true)], w, true));
    FindsCodes(Written(Encoding, z, front + [c as nat], w, false));
  }

  ghost predicate EncodesAlike(x: seq<Byte>, k: nat, w: nat)
    requires k <= |x|
  {
    EncodeRun(x[..k], w, true) == EncodeSpec(x[..k])
  }

  lemma {:induction false} BytesPrefix(x: seq<Byte>, k: nat)
    requires k <= |x|
    ensures Horner(x[..k], 256) <= Horner(x, 256)
  {
    if k < |x| {
      HornerMono(x, 256);
      BytesPrefix(x[..|x| - 1], k);
      assert x[..|x| - 1][..k] == x[..k];
    } else {
      assert x[..k] == x;
    }
  }

  lemma LowPrefixEncodes(x: seq<Byte>, k: nat, w: nat)
    requires k <= |x| && (forall c <- x :: c < 128) && Horner(x[..k], 256) < Pow(58, w)
    ensures EncodesAlike(x, k, w)
  {
    hide Horner, Pow, EncodeSpec, EncodeRun;
    EncodeExact(x[..k], w);
    forall c | c in x[..k] ensures c < 128 { assert c in x; }
    SignedEncode(x[..k], w);
  }

  /** Under a signed char a byte string and all its prefixes are encoded rightly if and only if all
      its bytes are below 128. */
  lemma SignedEncodeExact(x: seq<Byte>, w: nat)
    requires w >= 2 && Horner(x, 256) < Pow(58, w)
    ensures (forall k :: 0 <= k <= |x| ==> EncodesAlike(x, k, w)) <==> forall c <- x :: c < 128
  {
    hide Horner, Pow, EncodeSpec, EncodeRun;
    if forall c <- x :: c < 128 {
      forall k | 0 <= k <= |x| ensures EncodesAlike(x, k, w) {
        BytesPrefix(x, k);
        LowPrefixEncodes(x, k, w);
      }
    } else {
      var k := FirstHighByte(x);
      BytesPrefix(x, k + 1);
      SignedEncodeWrong(x[..k + 1], w);
      assert !EncodesAlike(x, k + 1, w);
    }
  }

  lemma FirstHighByte(x: seq<Byte>) returns (k: nat)
    requires exists c <- x :: c >= 128
    ensures k < |x| && x[k] >= 128 && forall i :: 0 <= i < k ==> x[i] < 128
  {
    k := 0;
    while x[k] < 128
      invariant k < |x| && forall i :: 0 <= i < k ==> x[i] < 128
      invariant exists i :: k <= i < |x| && x[i] >= 128
      decreases |x| - k
    {
      k := k + 1;
    }
  }

  /** The same when each prefix is encoded in the window that the library takes for its length. */
  lemma SignedEncodeInItsWindow(x: seq<Byte>)
    ensures (forall k :: 0 <= k <= |x| ==> EncodesAlike(x, k, EncodeSize(k))) <==> forall c <- x :: c < 128
  {
    hide Horner, Pow, EncodeSpec, EncodeRun;
    if forall c <- x :: c < 128 {
      forall k | 0 <= k <= |x| ensures EncodesAlike(x, k, EncodeSize(k)) {
        EncodeFits(x[..k]);
        LowPrefixEncodes(x, k, EncodeSize(k));
      }
    } else {
      var k := FirstHighByte(x);
      EncodeFits(x[..k + 1]);
      SignedEncodeWrong(x[..k + 1], EncodeSize(k + 1));
      assert !EncodesAlike(x, k + 1, EncodeSize(k + 1));
    }
  }

  /** A single byte comes out right if and only if it is below 128. */
  lemma SignedSingleByte(c: Byte)
    ensures EncodeRun([c], EncodeSize(1), true) == EncodeSpec([c]) <==> c < 128
  {
    hide Horner, Pow, EncodeRun, EncodeSpec;
    EncodeFits([c]);
    EncodeExact([c], EncodeSize(1));
    if c < 128 {
      SignedEncode([c], EncodeSize(1));
    } else {
      SignedEncodeWrong([c], EncodeSize(1));
    }
  }
}
