/** Insertion into and removal from sequences without repetition. */
module Sequences {

  function Inserted<T>(s: seq<T>, p: nat, x: T): (r: seq<T>)
    requires p <= |s|
    ensures |r| == |s| + 1 && r[p] == x
    ensures forall i :: 0 <= i < |r| ==> r[i] == if i < p then s[i] else if i == p then x else s[i - 1]
  {
    s[..p] + [x] + s[p..]
  }

  function Removed<T>(s: seq<T>, p: nat): (r: seq<T>)
    requires p < |s|
    ensures |r| == |s| - 1
    ensures forall i :: 0 <= i < |r| ==> r[i] == if i < p then s[i] else s[i + 1]
  {
    s[..p] + s[p + 1..]
  }

  ghost predicate Distinct<T>(s: seq<T>) {
    forall i, j :: 0 <= i < j < |s| ==> s[i] != s[j]
  }

  lemma InsertedMembers<T>(s: seq<T>, p: nat, x: T)
    requires p <= |s|
    ensures forall e :: e in Inserted(s, p, x) <==> e in s || e == x
  {
    assert s == s[..p] + s[p..];
  }

  lemma InsertedDistinct<T>(s: seq<T>, p: nat, x: T)
    requires p <= |s| && Distinct(s) && x !in s
    ensures Distinct(Inserted(s, p, x))
  {
  }

  lemma RemovedDistinct<T>(s: seq<T>, p: nat)
    requires p < |s| && Distinct(s)
    ensures Distinct(Removed(s, p))
  {
  }

  lemma RemovedMembers<T>(s: seq<T>, p: nat)
    requires p < |s| && Distinct(s)
    ensures forall e :: e in Removed(s, p) <==> e in s && e != s[p]
  {
    assert s == s[..p] + [s[p]] + s[p + 1..];
  }
}
