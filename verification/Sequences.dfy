/** Facts about sequences that the in-place list code needs: the nodes of a linked list are
    kept as a ghost sequence, and linking or unlinking a node splices that sequence. */
module Sequences {

  ghost predicate Distinct<T>(s: seq<T>) {
    forall i, j :: 0 <= i < j < |s| ==> s[i] != s[j]
  }

  lemma OthersDiffer<T>(s: seq<T>, k: nat)
    requires Distinct(s) && k < |s|
    ensures forall i {:trigger s[i]} :: 0 <= i < |s| && i != k ==> s[i] != s[k]
  {
  }

  /** Where `x` is first in `s`; the length of `s` if it is nowhere. */
  function FirstIndex<T(==)>(s: seq<T>, x: T): (i: nat)
    ensures i <= |s| && (i < |s| ==> s[i] == x)
    ensures forall j :: 0 <= j < i ==> s[j] != x
  {
    if s == [] || s[0] == x then 0 else 1 + FirstIndex(s[1..], x)
  }

  /** `r` is `s` with `x` put in front of its k-th element. */
  ghost predicate Spliced<T>(s: seq<T>, k: nat, x: T, r: seq<T>) {
    && k <= |s| && |r| == |s| + 1
    && forall i {:trigger r[i]} :: 0 <= i < |r| ==> r[i] == if i < k then s[i] else if i == k then x else s[i - 1]
  }

  lemma Splice<T>(s: seq<T>, k: nat, x: T) returns (r: seq<T>)
    requires k <= |s|
    ensures Spliced(s, k, x, r)
    ensures Distinct(s) && x !in s ==> Distinct(r)
  {
    r := s[..k] + [x] + s[k..];
  }

  lemma SplicedIs<T>(s: seq<T>, k: nat, x: T, r: seq<T>)
    requires Spliced(s, k, x, r)
    ensures r == s[..k] + ([x] + s[k..])
  {
  }

  /** `r` is `s` without its k-th element. */
  ghost predicate Removed<T>(s: seq<T>, k: nat, r: seq<T>) {
    && k < |s| && |r| == |s| - 1
    && forall i {:trigger r[i]} :: 0 <= i < |r| ==> r[i] == if i < k then s[i] else s[i + 1]
  }

  lemma Remove<T>(s: seq<T>, k: nat) returns (r: seq<T>)
    requires k < |s|
    ensures Removed(s, k, r)
    ensures Distinct(s) ==> Distinct(r)
  {
    r := s[..k] + s[k + 1..];
  }

  lemma RemovedIs<T>(s: seq<T>, k: nat, r: seq<T>)
    requires Removed(s, k, r)
    ensures r == s[..k] + s[k + 1..]
  {
  }

  lemma RemoveMembers<T>(s: seq<T>, k: nat, r: seq<T>)
    requires Removed(s, k, r) && Distinct(s)
    ensures forall x :: x in s <==> x in r || x == s[k]
    ensures s[k] !in r
  {
    RemovedIs(s, k, r);
    assert s == s[..k] + [s[k]] + s[k + 1..];
  }

  lemma MultisetCons<T>(x: T, s: seq<T>)
    ensures multiset([x] + s) == multiset{x} + multiset(s)
  {
  }

  lemma MultisetSplit<T>(s: seq<T>)
    requires s != []
    ensures multiset(s) == multiset{s[0]} + multiset(s[1..])
  {
    assert s == [s[0]] + s[1..];
  }

  lemma SliceBehind<T>(s: seq<T>, n: nat, i: nat, j: nat)
    requires n <= i <= j <= |s|
    ensures s[i..j] == s[n..][i - n..j - n]
  {
    var r := s[n..][i - n..j - n];
    assert |r| == j - i && forall k :: 0 <= k < j - i ==> r[k] == s[i + k];
  }

  lemma ShiftOne<T>(s: seq<T>, t: seq<T>)
    requires t != []
    ensures s + t == (s + [t[0]]) + t[1..]
  {
  }

  lemma MultisetTails<T>(s: seq<T>, t: seq<T>)
    requires s != [] && t != [] && s[0] == t[0] && multiset(s) == multiset(t)
    ensures multiset(s[1..]) == multiset(t[1..])
  {
    MultisetSplit(s);
    MultisetSplit(t);
    assert multiset(s[1..]) == multiset(s) - multiset{s[0]};
  }

  lemma MultisetLength<T>(s: seq<T>, t: seq<T>)
    requires multiset(s) == multiset(t)
    ensures |s| == |t|
  {
    assert |s| == |multiset(s)|;
  }

  lemma Regroup<T>(s: seq<T>, x: T, t: seq<T>)
    ensures (s + [x]) + t == s + ([x] + t)
  {
  }
}
