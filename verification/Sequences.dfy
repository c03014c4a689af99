/** Sequences with one element more or less. */
module Sequences {

  function Spliced<T>(s: seq<T>, i: nat, x: T): (r: seq<T>)
    requires i <= |s|
    ensures |r| == |s| + 1
    ensures forall j {:trigger r[j]} | 0 <= j < |r| :: r[j] == if j < i then s[j] else if j == i then x else s[j - 1]
  {
    s[..i] + [x] + s[i..]
  }

  function Cut<T>(s: seq<T>, k: nat): (r: seq<T>)
    requires k < |s|
    ensures |r| == |s| - 1
    ensures forall j {:trigger r[j]} | 0 <= j < |r| :: r[j] == if j < k then s[j] else s[j + 1]
  {
    s[..k] + s[k + 1..]
  }

  lemma SplicedMembers<T>(s: seq<T>, i: nat, x: T)
    requires i <= |s|
    ensures multiset(Spliced(s, i, x)) == multiset(s) + multiset{x}
    ensures forall y | y in Spliced(s, i, x) :: y == x || y in s
  {
    assert s == s[..i] + s[i..];
  }
}
