/** Small notions shared by the models. */
module Basics {
  type Byte = b: int | 0 <= b < 256

  datatype Option<+T> = None | Some(value: T)

  ghost predicate Distinct<T>(s: seq<T>) {
    forall i, j :: 0 <= i < j < |s| ==> s[i] != s[j]
  }

  function ToSet<T>(s: seq<T>): set<T> {
    set x | x in s
  }

  function IndexOf<T(==)>(s: seq<T>, x: T): (i: nat)
    requires x in s
    ensures i < |s| && s[i] == x
  {
    if s[0] == x then 0 else 1 + IndexOf(s[1..], x)
  }

  function Without<T(==)>(s: seq<T>, x: T): seq<T>
    requires x in s
  {
    var i := IndexOf(s, x);
    s[..i] + s[i + 1..]
  }

  function Replace<T(==)>(s: seq<T>, x: T, y: T): seq<T>
    requires x in s
  {
    s[IndexOf(s, x) := y]
  }

  function Inserted<T>(s: seq<T>, k: nat, x: T): seq<T>
    requires k <= |s|
  {
    s[..k] + [x] + s[k..]
  }

  lemma InsertedAt<T>(s: seq<T>, k: nat, x: T)
    requires k <= |s|
    ensures |Inserted(s, k, x)| == |s| + 1
    ensures forall i :: 0 <= i <= |s| ==> Inserted(s, k, x)[i] == if i < k then s[i] else if i == k then x else s[i - 1]
  {
  }

  lemma WithoutElements<T>(s: seq<T>, x: T)
    requires x in s && Distinct(s)
    ensures var r := Without(s, x); Distinct(r) && |r| == |s| - 1 && forall y :: y in r <==> y in s && y != x
  {
    var i := IndexOf(s, x);
    var r := Without(s, x);
    forall y ensures y in r <==> y in s && y != x {
      if y in s && y != x {
        var j :| 0 <= j < |s| && s[j] == y;
        assert r[if j < i then j else j - 1] == y;
      }
    }
  }

  lemma ReplaceElements<T>(s: seq<T>, x: T, y: T)
    requires x in s && y !in s && Distinct(s)
    ensures var r := Replace(s, x, y); Distinct(r) && |r| == |s| && forall z :: z in r <==> z == y || (z in s && z != x)
  {
    var i := IndexOf(s, x);
    var r := Replace(s, x, y);
    assert r[i] == y;
    forall z ensures z in r <==> z == y || (z in s && z != x) {
      if z in s && z != x {
        var j :| 0 <= j < |s| && s[j] == z;
        assert r[j] == z;
      }
    }
  }
}
