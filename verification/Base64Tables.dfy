/** The tables of ircd/b64.cc, entry by entry, and what they say in closed form. Long tables
    are written in pieces of 32. */
module Base64Tables {
  import opened Basics

  const LETTERS := "ABCDEFGHIJKLMNOPQRSTUVWXYZabcdef"
  const LETTERS_AND_DIGITS := "ghijklmnopqrstuvwxyz0123456789"

  const RFC1421 := LETTERS + LETTERS_AND_DIGITS + "+/"
  const RFC3501 := LETTERS + LETTERS_AND_DIGITS + "+,"
  const RFC4648 := LETTERS + LETTERS_AND_DIGITS + "-_"

  /** encode_permute_tab and encode_shift_ctrl, eight entries a row as in the source. */
  const ENCODE_PERMUTE: seq<seq<nat>> := [
    [1, 0, 2, 1, 4, 3, 5, 4],
    [7, 6, 8, 7, 10, 9, 11, 10],
    [13, 12, 14, 13, 16, 15, 17, 16],
    [19, 18, 20, 19, 22, 21, 23, 22],
    [25, 24, 26, 25, 28, 27, 29, 28],
    [31, 30, 32, 31, 34, 33, 35, 34],
    [37, 36, 38, 37, 40, 39, 41, 40],
    [43, 42, 44, 43, 46, 45, 47, 46]
  ]

  const ENCODE_SHIFT: seq<seq<nat>> := [
    [10, 4, 22, 16, 42, 36, 54, 48],
    [10, 4, 22, 16, 42, 36, 54, 48],
    [10, 4, 22, 16, 42, 36, 54, 48],
    [10, 4, 22, 16, 42, 36, 54, 48],
    [10, 4, 22, 16, 42, 36, 54, 48],
    [10, 4, 22, 16, 42, 36, 54, 48],
    [10, 4, 22, 16, 42, 36, 54, 48],
    [10, 4, 22, 16, 42, 36, 54, 48]
  ]

  /** decode_permute_tab_le, the 48 entries that are read, twelve a row. */
  const DECODE_PERMUTE: seq<seq<nat>> := [
    [2, 1, 0, 6, 5, 4, 10, 9, 8, 14, 13, 12],
    [18, 17, 16, 22, 21, 20, 26, 25, 24, 30, 29, 28],
    [34, 33, 32, 38, 37, 36, 42, 41, 40, 46, 45, 44],
    [50, 49, 48, 54, 53, 52, 58, 57, 56, 62, 61, 60]
  ]

  /** decode_tab, a row of 32 characters at a time. */
  const DECODE_ROW0: seq<nat> := [
    64, 64, 64, 64, 64, 64, 64, 64, 64, 64, 64, 64, 64, 64, 64, 64,
    64, 64, 64, 64, 64, 64, 64, 64, 64, 64, 64, 64, 64, 64, 64, 64]
  const DECODE_ROW1: seq<nat> := [
    64, 64, 64, 64, 64, 64, 64, 64, 64, 64, 64, 62, 63, 62, 64, 63,
    52, 53, 54, 55, 56, 57, 58, 59, 60, 61, 64, 64, 64, 64, 64, 64]
  const DECODE_ROW2: seq<nat> := [
    64, 0, 1, 2, 3, 4, 5, 6, 7, 8, 9, 10, 11, 12, 13, 14,
    15, 16, 17, 18, 19, 20, 21, 22, 23, 24, 25, 64, 64, 64, 64, 63]
  const DECODE_ROW3: seq<nat> := [
    64, 26, 27, 28, 29, 30, 31, 32, 33, 34, 35, 36, 37, 38, 39, 40,
    41, 42, 43, 44, 45, 46, 47, 48, 49, 50, 51, 64, 64, 64, 64, 64]
  const DECODE_ROW4: seq<nat> := [
    64, 64, 64, 64, 64, 64, 64, 64, 64, 64, 64, 64, 64, 64, 64, 64,
    64, 64, 64, 64, 64, 64, 64, 64, 64, 64, 64, 64, 64, 64, 64, 64]
  const DECODE_ROW5: seq<nat> := [
    64, 64, 64, 64, 64, 64, 64, 64, 64, 64, 64, 64, 64, 64, 64, 64,
    64, 64, 64, 64, 64, 64, 64, 64, 64, 64, 64, 64, 64, 64, 64, 64]
  const DECODE_ROW6: seq<nat> := [
    64, 64, 64, 64, 64, 64, 64, 64, 64, 64, 64, 64, 64, 64, 64, 64,
    64, 64, 64, 64, 64, 64, 64, 64, 64, 64, 64, 64, 64, 64, 64, 64]
  const DECODE_ROW7: seq<nat> := [
    64, 64, 64, 64, 64, 64, 64, 64, 64, 64, 64, 64, 64, 64, 64, 64,
    64, 64, 64, 64, 64, 64, 64, 64, 64, 64, 64, 64, 64, 64, 64, 64]

  function DecodeRow(r: nat): (row: seq<nat>)
    requires r < 8
    ensures |row| == 32
  {
    [DECODE_ROW0, DECODE_ROW1, DECODE_ROW2, DECODE_ROW3, DECODE_ROW4, DECODE_ROW5, DECODE_ROW6, DECODE_ROW7][r]
  }

  function DecodeTab(c: Byte): nat {
    DecodeRow(c / 32)[c % 32]
  }

  /** The bytes that the permutation brings to the eight positions of word i: two triples. */
  lemma PermuteRow(i: nat)
    requires i < 8
    ensures |ENCODE_PERMUTE| == 8
    ensures ENCODE_PERMUTE[i] == [6 * i + 1, 6 * i, 6 * i + 2, 6 * i + 1, 6 * i + 4, 6 * i + 3, 6 * i + 5, 6 * i + 4]
  {
    if i < 4 {
      if i < 2 { if i == 0 {} else {} } else { if i == 2 {} else {} }
    } else {
      if i < 6 { if i == 4 {} else {} } else { if i == 6 {} else {} }
    }
  }

  lemma ShiftRow(i: nat)
    requires i < 8
    ensures |ENCODE_SHIFT| == 8
    ensures ENCODE_SHIFT[i] == [10, 4, 22, 16, 42, 36, 54, 48]
  {
    if i < 4 {
      if i < 2 { if i == 0 {} else {} } else { if i == 2 {} else {} }
    } else {
      if i < 6 { if i == 4 {} else {} } else { if i == 6 {} else {} }
    }
  }

  /** The bytes that leave for the twelve positions of row i: four quads, each turned around. */
  lemma DecodePermuteRow(i: nat)
    requires i < 4
    ensures |DECODE_PERMUTE| == 4
    ensures DECODE_PERMUTE[i] == [16 * i + 2, 16 * i + 1, 16 * i, 16 * i + 6, 16 * i + 5, 16 * i + 4,
                                  16 * i + 10, 16 * i + 9, 16 * i + 8, 16 * i + 14, 16 * i + 13, 16 * i + 12]
  {
    if i < 2 { if i == 0 {} else {} } else { if i == 2 {} else {} }
  }

  /** The value of a character in any of the three dictionaries; 64 for every other one. */
  function ValueOf(c: Byte): nat {
    if 65 <= c <= 90 then c - 65
    else if 97 <= c <= 122 then c - 71
    else if 48 <= c <= 57 then c + 4
    else if c == 43 || c == 45 then 62
    else if c == 44 || c == 47 || c == 95 then 63
    else 64
  }

  lemma DecodeTabShape(c: Byte)
    ensures DecodeTab(c) == ValueOf(c)
  {
    var r, i := c / 32, c % 32;
    assert c == 32 * r + i;
    match r
    case 0 => Row0(i);
    case 1 => Row1(i);
    case 2 => Row2(i);
    case 3 => Row3(i);
    case _ => HighRows(r, i);
  }

  lemma Row0(i: nat)
    requires i < 32
    ensures DECODE_ROW0[i] == ValueOf(i)
  {
  }

  lemma Row1(i: nat)
    requires i < 32
    ensures DECODE_ROW1[i] == ValueOf(32 + i)
  {
  }

  lemma Row2(i: nat)
    requires i < 32
    ensures DECODE_ROW2[i] == ValueOf(64 + i)
  {
  }

  lemma Row3(i: nat)
    requires i < 32
    ensures DECODE_ROW3[i] == ValueOf(96 + i)
  {
  }

  lemma HighRows(r: nat, i: nat)
    requires 4 <= r < 8 && i < 32
    ensures DecodeRow(r)[i] == 64
  {
    assert DECODE_ROW5 == DECODE_ROW4 && DECODE_ROW6 == DECODE_ROW4 && DECODE_ROW7 == DECODE_ROW4;
  }

  predicate IsDict(dict: string) {
    dict == RFC1421 || dict == RFC3501 || dict == RFC4648
  }

  function DictAt(dict: string, s: nat): (c: Byte)
    requires IsDict(dict) && s < 64
  {
    DictEntry(dict, s);
    dict[s] as int
  }

  /** The three dictionaries in closed form. */
  lemma DictShape(dict: string, s: nat)
    requires IsDict(dict) && s < 64
    ensures DictAt(dict, s) ==
            if s < 26 then 'A' as int + s
            else if s < 52 then 'a' as int + (s - 26)
            else if s < 62 then '0' as int + (s - 52)
            else if s == 62 then (if dict == RFC4648 then '-' as int else '+' as int)
            else if dict == RFC1421 then '/' as int else if dict == RFC3501 then ',' as int else '_' as int
  {
    if s < 32 {
      LettersShape(s);
    } else if s < 62 {
      DigitsShape(s - 32);
    }
    assert RFC1421[63] != RFC3501[63] && RFC1421[63] != RFC4648[63] && RFC3501[63] != RFC4648[63];
  }

  lemma LettersShape(s: nat)
    requires s < 32
    ensures LETTERS[s] as int == if s < 26 then 'A' as int + s else 'a' as int + (s - 26)
  {
  }

  lemma DigitsShape(s: nat)
    requires s < 30
    ensures LETTERS_AND_DIGITS[s] as int == if s < 20 then 'g' as int + s else '0' as int + (s - 20)
  {
  }

  /** Every dictionary character is plain ASCII, is not the pad, and decodes to its position. */
  lemma DictEntry(dict: string, s: nat)
    requires IsDict(dict) && s < 64
    ensures |dict| == 64 && 0 < dict[s] as int < 128 && dict[s] != '=' && ValueOf(dict[s] as int) == s
  {
    if s < 32 {
      LettersEntry(s);
    } else if s < 62 {
      DigitsEntry(s - 32);
    }
  }

  lemma LettersEntry(s: nat)
    requires s < 32
    ensures 0 < LETTERS[s] as int < 128 && LETTERS[s] != '=' && ValueOf(LETTERS[s] as int) == s
  {
  }

  lemma DigitsEntry(s: nat)
    requires s < 30
    ensures var c := LETTERS_AND_DIGITS[s]; 0 < c as int < 128 && c != '=' && ValueOf(c as int) == 32 + s
  {
  }

  /** A character has a value exactly when one of the dictionaries holds it. */
  lemma ValueIffInDict(c: Byte)
    ensures ValueOf(c) < 64 <==> exists dict, s: nat :: IsDict(dict) && s < 64 && DictAt(dict, s) == c
  {
    var s := ValueOf(c);
    if s < 64 {
      if c == 44 {
        assert DictAt(RFC3501, 63) == c;
      } else if c == 45 || c == 95 {
        assert DictAt(RFC4648, s) == c;
      } else {
        InRFC1421(c);
      }
    }
    forall dict, t: nat | IsDict(dict) && t < 64 && DictAt(dict, t) == c ensures s < 64 {
      DictEntry(dict, t);
    }
  }

  lemma InRFC1421(c: Byte)
    requires ValueOf(c) < 64 && c != 44 && c != 45 && c != 95
    ensures DictAt(RFC1421, ValueOf(c)) == c
  {
    var s := ValueOf(c);
    if s < 32 { InLetters(c); } else if s < 62 { InDigits(c); }
  }

  lemma InLetters(c: Byte)
    requires ValueOf(c) < 32
    ensures LETTERS[ValueOf(c)] as int == c
  {
  }

  lemma InDigits(c: Byte)
    requires 32 <= ValueOf(c) < 62
    ensures LETTERS_AND_DIGITS[ValueOf(c) - 32] as int == c
  {
  }
}
