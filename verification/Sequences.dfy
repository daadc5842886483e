// Sequences without repetition.
module Sequences {

  predicate Distinct<T(==)>(s: seq<T>) {
    forall i, j :: 0 <= i < j < |s| ==> s[i] != s[j]
  }

  function Elements<T>(s: seq<T>): set<T> {
    set x | x in s
  }

  function IndexOf<T(==)>(s: seq<T>, x: T): (i: nat)
    ensures i <= |s|
    ensures i < |s| ==> s[i] == x
    ensures x in s <==> i < |s|
    ensures x !in s[..i]
  {
    if s == [] || s[0] == x then 0 else
      var i := IndexOf(s[1..], x);
      assert x in s[1 + i..] <==> x in s[1..][i..];
      assert s[..1 + i] == [s[0]] + s[1..][..i];
      1 + i
  }

  function Without<T(==)>(s: seq<T>, x: T): (r: seq<T>)
    requires x in s
    ensures |r| == |s| - 1
  {
    s[..IndexOf(s, x)] + s[IndexOf(s, x) + 1..]
  }

  lemma WithoutElements<T>(s: seq<T>, x: T)
    requires Distinct(s) && x in s
    ensures Distinct(Without(s, x)) && Elements(Without(s, x)) == Elements(s) - {x}
  {
    var i, r := IndexOf(s, x), Without(s, x);
    forall y | y in s && y != x ensures y in r {
      var j :| 0 <= j < |s| && s[j] == y;
      assert r[if j < i then j else j - 1] == y;
    }
  }

  lemma AppendElements<T>(s: seq<T>, x: T)
    requires Distinct(s) && x !in s
    ensures Distinct(s + [x]) && Elements(s + [x]) == Elements(s) + {x}
  {
  }

  lemma StaysIn<T>(s: seq<T>, x: T, y: T)
    requires x in s && y in s && x != y
    ensures y in Without(s, x)
  {
    var i := IndexOf(s, x);
    var j :| 0 <= j < |s| && s[j] == y;
    assert Without(s, x)[if j < i then j else j - 1] == y;
  }

  // The sequence without the element at one position.
  function WithoutAt<T>(s: seq<T>, i: nat): seq<T>
    requires i < |s|
  {
    s[..i] + s[i + 1..]
  }

  lemma RemoveAt<T>(s: seq<T>, i: nat)
    requires i < |s|
    ensures multiset(WithoutAt(s, i)) == multiset(s) - multiset{s[i]}
  {
    assert s == s[..i] + ([s[i]] + s[i + 1..]);
    assert multiset(s) == multiset{s[i]} + multiset(WithoutAt(s, i));
  }
}
