/** The case-insensitive glob matcher (ircd/globular.cc:57-87): one pass over pattern and text, no
    backtracking. It decides a smaller language than globs, which is defined here and shown to be
    part of the glob language. */
module Globular {
  function Lower(c: char): char {
    if 'A' <= c <= 'Z' then (c as int + 32) as char else c
  }

  /** The glob language: a star stands for any text, a question mark for one character. */
  predicate Match(p: string, s: string)
    decreases |p| + |s|
  {
    if p == "" then s == ""
    else if p[0] == '*' then Match(p[1..], s) || (s != "" && Match(p, s[1..]))
    else s != "" && (p[0] == '?' || Lower(p[0]) == Lower(s[0])) && Match(p[1..], s[1..])
  }

  /** The first place of a character in a text. */
  predicate FirstAt(s: string, c: char, i: nat) {
    i < |s| && Lower(s[i]) == Lower(c) && forall j :: 0 <= j < i ==> Lower(s[j]) != Lower(c)
  }

  /** What is decided: a star before the end stands for the text up to the first place of the next
      pattern character, taken literally; a star at the end for any text but the empty one; and
      two stars at the end for any text with a star in it. */
  ghost predicate Taken(p: string, s: string)
    decreases |p|
  {
    if p == "" then s == ""
    else if p[0] != '*' then s != "" && (p[0] == '?' || Lower(p[0]) == Lower(s[0])) && Taken(p[1..], s[1..])
    else if |p| == 1 then s != ""
    else exists i: nat :: FirstAt(s, p[1], i) && (p == "**" || Taken(p[2..], s[i + 1..]))
  }

  /** Lower joins the two cases of a letter, and nothing else. */
  lemma LowerJoins(c: char, d: char)
    ensures Lower(c) == Lower(d) <==>
              || c == d
              || ('A' <= c <= 'Z' && d as int == c as int + 32)
              || ('A' <= d <= 'Z' && c as int == d as int + 32)
  {
  }

  lemma LowerMarks(c: char)
    ensures Lower(c) == '*' <==> c == '*'
    ensures Lower(c) == '?' <==> c == '?'
  {
  }

  // ----- one step of the pass -----

  /** A star reads a character that is not the one it waits for. */
  lemma StarReads(p: string, s: string)
    requires |p| >= 2 && p[0] == '*' && s != "" && Lower(s[0]) != Lower(p[1])
    ensures Taken(p, s) <==> Taken(p, s[1..])
  {
    var t := s[1..];
    assert forall j :: 0 <= j < |t| ==> t[j] == s[j + 1];
    if Taken(p, s) {
      var i: nat :| FirstAt(s, p[1], i) && (p == "**" || Taken(p[2..], s[i + 1..]));
      assert s[i + 1..] == t[i - 1 + 1..] && FirstAt(t, p[1], i - 1);
    }
    if Taken(p, t) {
      var i: nat :| FirstAt(t, p[1], i) && (p == "**" || Taken(p[2..], t[i + 1..]));
      assert t[i + 1..] == s[i + 1 + 1..];
      assert FirstAt(s, p[1], i + 1) by {
        assert forall j :: 0 <= j < i + 1 ==> Lower(s[j]) != Lower(p[1]) by {
          assert forall j :: 1 <= j < i + 1 ==> s[j] == t[j - 1];
        }
      }
    }
  }

  /** A star is passed, with the character it waits for. */
  lemma StarPasses(p: string, s: string)
    requires |p| >= 2 && p[0] == '*' && s != "" && Lower(s[0]) == Lower(p[1])
    ensures Taken(p, s) <==> p == "**" || Taken(p[2..], s[1..])
  {
    assert FirstAt(s, p[1], 0);
    if Taken(p, s) {
      var i: nat :| FirstAt(s, p[1], i) && (p == "**" || Taken(p[2..], s[i + 1..]));
      assert i == 0;
    }
  }

  predicate EndsInStar(a: string) {
    a != "" && a[|a| - 1] == '*'
  }

  predicate IEquals(a: string, b: string) {
    |a| == |b| && forall i :: 0 <= i < |a| ==> Lower(a[i]) == Lower(b[i])
  }

  /** What the rest of the pass decides; past a final pair of stars the answer is yes. */
  ghost predicate Rest(a: string, b: string, ap: nat, bp: nat)
    requires ap <= |a| && bp <= |b|
  {
    if ap == |a| && EndsInStar(a) then true else Taken(a[ap..], b[bp..])
  }

  lemma Slices(a: string, b: string, ap: nat, bp: nat)
    requires ap < |a| && bp < |b|
    ensures a[ap..][0] == a[ap] && a[ap..][1..] == a[ap + 1..] && b[bp..][0] == b[bp] && b[bp..][1..] == b[bp + 1..]
    ensures ap + 2 <= |a| ==> a[ap..][1] == a[ap + 1] && a[ap..][2..] == a[ap + 2..]
  {
  }

  lemma PassStep(a: string, b: string, ap: nat, bp: nat)
    requires ap < |a| && bp < |b|
    ensures a[ap] != '*' ==>
              (Rest(a, b, ap, bp) <==> (a[ap] == '?' || Lower(a[ap]) == Lower(b[bp])) && Rest(a, b, ap + 1, bp + 1))
    ensures a[ap] == '*' && ap + 1 == |a| ==> Rest(a, b, ap, bp)
    ensures a[ap] == '*' && ap + 1 < |a| && Lower(b[bp]) == Lower(a[ap + 1]) ==>
              (Rest(a, b, ap, bp) <==> Rest(a, b, ap + 2, bp + 1))
    ensures a[ap] == '*' && ap + 1 < |a| && Lower(b[bp]) != Lower(a[ap + 1]) ==>
              (Rest(a, b, ap, bp) <==> Rest(a, b, ap, bp + 1))
  {
    var p, s := a[ap..], b[bp..];
    Slices(a, b, ap, bp);
    if a[ap] == '*' && ap + 1 < |a| {
      if Lower(s[0]) == Lower(p[1]) {
        StarPasses(p, s);
        hide Taken;
        if ap + 2 == |a| { assert p == [p[0], p[1]]; LowerMarks(p[1]); }
      } else {
        StarReads(p, s);
      }
    }
  }

  /** Where the loop ends: one side is used up. */
  lemma AtEnd(a: string, b: string, ap: nat, bp: nat)
    requires ap <= |a| && bp <= |b| && (ap == |a| || bp == |b|)
    ensures Rest(a, b, ap, bp) <==> (ap == |a| && (EndsInStar(a) || bp == |b|))
  {
    if ap < |a| {
      assert b[bp..] == "" && a[ap..] != "";
    }
  }

  /** globular_imatch::operator() */
  method IMatch(a: string, b: string) returns (r: bool)
    ensures r <==> Taken(a, b)
  {
    var ap, bp := 0, 0;
    assert a[0..] == a && b[0..] == b;
    hide Taken, Rest, Lower, IEquals;
    assert Rest(a, b, 0, 0) <==> Taken(a, b) by { FromStart(a, b); }
    while ap < |a| && bp < |b|
      invariant ap <= |a| && bp <= |b| && (Rest(a, b, ap, bp) <==> Taken(a, b))
    {
      var ca, cb := Lower(a[ap]), Lower(b[bp]);
      LowerMarks(a[ap]);
      PassStep(a, b, ap, bp);
      var globa, wilda := ca == '*', ca == '?';
      if !globa && !wilda && ca != cb {
        return false;
      }
      if globa && ap + 1 >= |a| {
        break;
      }
      if globa && cb == Lower(a[ap + 1]) {
        ap := ap + 2;
      }
      if !globa {
        ap := ap + 1;
      }
      bp := bp + 1;
    }
    if bp < |b| && a != "" && a[|a| - 1] == '*' {
      if ap == |a| { AtEnd(a, b, ap, bp); }
      return true;
    }
    AtEnd(a, b, ap, bp);
    r := IEquals(a[ap..], b[bp..]);
    SameLength(a[ap..], b[bp..]);
  }

  lemma FromStart(a: string, b: string)
    ensures Rest(a, b, 0, 0) <==> Taken(a, b)
  {
    assert a[0..] == a && b[0..] == b;
  }

  lemma SameLength(a: string, b: string)
    requires a == "" || b == ""
    ensures IEquals(a, b) <==> a == b
  {
  }

  // ----- against the glob language -----

  lemma {:induction false} StarMatches(p: string, s: string, i: nat)
    requires p != "" && p[0] == '*' && i <= |s| && Match(p[1..], s[i..])
    ensures Match(p, s)
    decreases i
  {
    if i == 0 {
      assert s[0..] == s;
    } else {
      assert s[1..][i - 1..] == s[i..];
      StarMatches(p, s[1..], i - 1);
    }
  }

  lemma FinalStar(p: string, s: string)
    requires p == "*"
    ensures Match(p, s)
  {
    assert s[|s|..] == "" && Match("", "");
    assert Match(p[1..], s[|s|..]);
    StarMatches(p, s, |s|);
  }

  /** The matcher is sound: what it takes is in the glob language. */
  lemma {:induction false} TakenMatches(p: string, s: string)
    requires Taken(p, s)
    ensures Match(p, s)
    decreases |p|
  {
    if p == "" {
    } else if p[0] != '*' {
      TakenMatches(p[1..], s[1..]);
    } else if |p| == 1 {
      FinalStar(p, s);
    } else {
      var i: nat :| FirstAt(s, p[1], i) && (p == "**" || Taken(p[2..], s[i + 1..]));
      if p == "**" {
        FinalStar(p[1..], s[i..]);
      } else {
        TakenMatches(p[2..], s[i + 1..]);
        Literal(p[1..], s[i..]);
      }
      StarMatches(p, s, i);
    }
  }

  /** A pattern character matches its own like, even if it is a star or a question mark. */
  lemma Literal(p: string, s: string)
    requires p != "" && s != "" && Lower(p[0]) == Lower(s[0]) && Match(p[1..], s[1..])
    ensures Match(p, s)
  {
    if p[0] == '*' {
      assert Match(p, s[1..]);
    }
  }

  /** No star before the last character. */
  predicate OneStar(p: string) {
    forall i :: 0 <= i < |p| - 1 ==> p[i] != '*'
  }

  /** Without an inner star it decides the glob language, but for a final star that has nothing to match. */
  lemma {:induction false} OneStarExact(p: string, s: string)
    requires OneStar(p)
    ensures Taken(p, s) <==> Match(p, s) && (EndsInStar(p) ==> |s| >= |p|)
    decreases |p|
  {
    if p == "" {
    } else if p[0] != '*' {
      if s != "" {
        assert forall i :: 0 <= i < |p[1..]| ==> p[1..][i] == p[i + 1];
        OneStarExact(p[1..], s[1..]);
      }
    } else {
      assert |p| == 1;
      FinalStar(p, s);
    }
  }

  /** An inner star does not backtrack: the glob "*ab" matches "aab", the matcher does not. */
  lemma NoBacktracking()
    ensures Match("*ab", "aab") && !Taken("*ab", "aab")
  {
    var p, s, t := "*ab", "aab", "ab";
    assert s[1..] == t && t[1..] == "b" && p[1..] == t && p[2..] == "b";
    assert Match("b", "b") by { assert "b"[1..] == ""; }
    assert Match(t, t);
    StarMatches(p, s, 1);
    StarPasses(p, s);
    assert !Taken("b", t);
  }

  // ----- for which patterns it decides the glob language -----

  /** A shortest text of the pattern: no star stands for anything, a question mark for a letter. */
  function Least(p: string): (s: string)
    ensures '*' !in s && '?' !in s
    ensures '*' !in p ==> |s| == |p|
  {
    if p == "" then ""
    else if p[0] == '*' then Least(p[1..])
    else [Letter(p[0])] + Least(p[1..])
  }

  function Letter(c: char): (d: char)
    requires c != '*'
    ensures d != '*' && d != '?' && (c == '?' || c == d)
  {
    if c == '?' then 'a' else c
  }

  lemma {:induction false} LeastMatches(p: string)
    ensures Match(p, Least(p))
  {
    if p != "" {
      LeastMatches(p[1..]);
      if p[0] != '*' {
        assert Least(p)[1..] == Least(p[1..]);
      }
    }
  }

  /** Without a star a text is taken only at the pattern's own length. */
  lemma {:induction false} StarFreeLength(p: string, s: string)
    requires '*' !in p && Taken(p, s)
    ensures |s| == |p|
    decreases |p|
  {
    if p != "" {
      assert p[0] in p;
      StarFreeLength(p[1..], s[1..]);
    }
  }

  /** One more character in front, on both sides. */
  lemma PlainHead(p: string, c: char, s: string)
    requires p != "" && p[0] != '*' && (p[0] == '?' || p[0] == c)
    ensures Match(p, [c] + s) <==> Match(p[1..], s)
    ensures Taken(p, [c] + s) <==> Taken(p[1..], s)
  {
    assert ([c] + s)[1..] == s;
  }

  /** A star, and a text that begins with the character it waits for. */
  lemma StarHead(p: string, s: string)
    requires |p| >= 2 && p[0] == '*' && p[1] != '*' && p[1] != '?'
    ensures Match(p[2..], s) ==> Match(p, [p[1]] + s)
    ensures Taken(p, [p[1]] + s) <==> Taken(p[2..], s)
  {
    var t := [p[1]] + s;
    assert t[1..] == s && p[1..][1..] == p[2..];
    StarPasses(p, t);
    if Match(p[2..], s) {
      assert Match(p[1..], t);
    }
  }

  /** A text of a star's pattern in which the next pattern character, a star or a question mark, does
      not occur. */
  lemma MarkNotFound(p: string)
    requires |p| >= 2 && p[0] == '*' && (p[1] == '*' || p[1] == '?')
    ensures !Taken(p, Least(p))
  {
    var s := Least(p);
    forall i | 0 <= i < |s| ensures Lower(s[i]) != Lower(p[1]) {
      LowerMarks(s[i]);
      LowerMarks(p[1]);
      assert s[i] in s;
    }
  }

  /** A star before a plain rest does not skip a first character like the next pattern character. */
  lemma SkipNeeded(p: string)
    requires |p| >= 2 && p[0] == '*' && p[1] != '*' && p[1] != '?' && '*' !in p[2..]
    ensures Match(p, [p[1]] + Least(p[1..])) && !Taken(p, [p[1]] + Least(p[1..]))
  {
    var s := Least(p[1..]);
    LeastMatches(p[1..]);
    assert ([p[1]] + s)[1..] == s;
    StarMatches(p, [p[1]] + s, 1);
    StarHead(p, s);
    assert p[1..][1..] == p[2..] && |s| == 1 + |Least(p[2..])|;
    if Taken(p[2..], s) {
      StarFreeLength(p[2..], s);
    }
  }

  /** For every pattern with a star, a glob text that the matcher refuses. */
  lemma {:induction false} StarFails(p: string) returns (s: string)
    requires '*' in p
    ensures Match(p, s) && !Taken(p, s)
    decreases |p|
  {
    if p[0] != '*' {
      assert '*' in p[1..];
      var t := StarFails(p[1..]);
      s := [Letter(p[0])] + t;
      PlainHead(p, Letter(p[0]), t);
    } else if |p| == 1 {
      s := "";
      FinalStar(p, s);
    } else if p[1] == '*' || p[1] == '?' {
      s := Least(p);
      LeastMatches(p);
      MarkNotFound(p);
    } else if '*' in p[2..] {
      var t := StarFails(p[2..]);
      s := [p[1]] + t;
      StarHead(p, t);
    } else {
      s := [p[1]] + Least(p[1..]);
      SkipNeeded(p);
    }
  }

  /** The matcher decides the glob language of a pattern if and only if the pattern has no star. */
  lemma GlobExact(p: string)
    ensures (forall s: string :: Taken(p, s) <==> Match(p, s)) <==> '*' !in p
  {
    if '*' in p {
      var s := StarFails(p);
      assert Match(p, s) && !Taken(p, s);
    } else {
      forall s: string ensures Taken(p, s) <==> Match(p, s) {
        forall i | 0 <= i < |p| ensures p[i] != '*' { assert p[i] in p; }
        OneStarExact(p, s);
      }
    }
  }

  // ----- where it is a complete search -----

  /** Stars with one literal character each between them, and a star at the end. */
  predicate Search(p: string) {
    p == "*" || (|p| >= 3 && p[0] == '*' && p[1] != '*' && p[1] != '?' && Search(p[2..]))
  }

  /** The same pattern for one character more at the end. */
  function OneMore(p: string): string
    requires p != ""
  {
    p[..|p| - 1] + "?*"
  }

  lemma {:induction false} AnyText(s: string)
    ensures Match("*", s)
  {
    assert "*"[1..] == "";
    if s != "" { AnyText(s[1..]); }
  }

  lemma OneMoreTail(p: string)
    requires Search(p) && p != "*"
    ensures OneMore(p)[0] == '*' && OneMore(p)[1] == p[1] && OneMore(p)[2..] == OneMore(p[2..])
  {
  }

  /** A star and a literal take a text exactly when the rest takes what follows some such character. */
  lemma {:induction false} StarLiteral(w: string, s: string)
    requires |w| >= 2 && w[0] == '*' && w[1] != '*' && w[1] != '?'
    ensures Match(w, s) <==> exists i: nat :: i < |s| && Lower(s[i]) == Lower(w[1]) && Match(w[2..], s[i + 1..])
    decreases |s|
  {
    var q := w[1..];
    assert q[0] == w[1] && q[1..] == w[2..];
    if s != "" {
      StarLiteral(w, s[1..]);
      if Match(q, s) { assert Lower(s[0]) == Lower(w[1]) && Match(w[2..], s[0 + 1..]); }
      if Match(w, s[1..]) {
        var i: nat :| i < |s[1..]| && Lower(s[1..][i]) == Lower(w[1]) && Match(w[2..], s[1..][i + 1..]);
        assert s[1..][i + 1..] == s[(i + 1) + 1..] && s[1..][i] == s[i + 1];
      }
      if i: nat :| i < |s| && Lower(s[i]) == Lower(w[1]) && Match(w[2..], s[i + 1..]) {
        if i > 0 { assert s[1..][i - 1] == s[i] && s[1..][(i - 1) + 1..] == s[i + 1..]; }
      }
    }
  }

  /** What such a pattern takes it takes with more text in front. */
  lemma {:induction false} MoreInFront(p: string, s: string, k: nat)
    requires Search(p) && k <= |s| && Match(OneMore(p), s[k..])
    ensures Match(OneMore(p), s)
  {
    if p == "*" {
      assert OneMore(p) == "?*" && "?*"[1..] == "*";
      AnyText(s[1..]);
    } else {
      OneMoreTail(p);
      StarLiteral(OneMore(p), s[k..]);
      StarLiteral(OneMore(p), s);
      var i: nat :| i < |s[k..]| && Lower(s[k..][i]) == Lower(p[1]) && Match(OneMore(p)[2..], s[k..][i + 1..]);
      assert s[k..][i + 1..] == s[(k + i) + 1..] && s[k..][i] == s[k + i];
    }
  }

  /** Not backtracking loses nothing for these patterns: the matcher takes exactly the texts that have
      their characters in order, and one more behind them for the final star. */
  lemma {:induction false} SearchExact(p: string, s: string)
    requires Search(p)
    ensures Taken(p, s) <==> Match(OneMore(p), s)
    decreases |p|
  {
    if p == "*" {
      assert OneMore(p) == "?*" && "?*"[1..] == "*";
      if s != "" { AnyText(s[1..]); }
    } else {
      forall t: string ensures Taken(p[2..], t) <==> Match(OneMore(p[2..]), t) { SearchExact(p[2..], t); }
      SearchStep(p, s);
    }
  }

  lemma SearchStep(p: string, s: string)
    requires Search(p) && p != "*" && forall t: string :: Taken(p[2..], t) <==> Match(OneMore(p[2..]), t)
    ensures Taken(p, s) <==> Match(OneMore(p), s)
  {
    hide Match, Lower;
    OneMoreTail(p);
    StarLiteral(OneMore(p), s);
    if Match(OneMore(p), s) {
      var i: nat :| i < |s| && Lower(s[i]) == Lower(p[1]) && Match(OneMore(p)[2..], s[i + 1..]);
      var f := First(s, p[1], i);
      assert s[f + 1..][i - f..] == s[i + 1..];
      MoreInFront(p[2..], s[f + 1..], i - f);
    }
  }

  lemma First(s: string, c: char, i: nat) returns (f: nat)
    requires i < |s| && Lower(s[i]) == Lower(c)
    ensures f <= i && FirstAt(s, c, f)
  {
    f := 0;
    while Lower(s[f]) != Lower(c)
      invariant f <= i && forall j :: 0 <= j < f ==> Lower(s[j]) != Lower(c)
      decreases i - f
    {
      f := f + 1;
    }
  }
}
