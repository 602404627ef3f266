/** Sorting a list of reads into disk order by exchanging what neighbouring nodes hold. */
module Sorting {
  import opened Sequences
  import opened Chains
  import opened Merging

  function Exchanged(s: seq<Read>, k: nat): (r: seq<Read>)
    requires k + 1 < |s|
    ensures |r| == |s|
  {
    s[k := s[k + 1]][k + 1 := s[k]]
  }

  // ----- the measure: pairs in the wrong order -----

  /** How many reads of `s` belong before `a`. */
  ghost function Before(s: seq<Read>, a: Read): nat {
    if s == [] then 0 else (if Leq(a, s[0]) then 0 else 1) + Before(s[1..], a)
  }

  ghost function Inversions(s: seq<Read>): nat {
    if s == [] then 0 else Before(s[1..], s[0]) + Inversions(s[1..])
  }

  lemma ExchangedSplit(s: seq<Read>, k: nat)
    requires k + 1 < |s|
    ensures k == 0 ==> Exchanged(s, k)[0] == s[1] && Exchanged(s, k)[1..] == [s[0]] + s[2..]
    ensures k > 0 ==> Exchanged(s, k)[0] == s[0] && Exchanged(s, k)[1..] == Exchanged(s[1..], k - 1)
  {
  }

  lemma {:induction false} ExchangeKeepsBefore(s: seq<Read>, k: nat, a: Read)
    requires k + 1 < |s|
    ensures Before(Exchanged(s, k), a) == Before(s, a)
  {
    ExchangedSplit(s, k);
    hide Exchanged, Leq;
    if k == 0 {
      assert ([s[0]] + s[2..])[1..] == s[2..] && s[1..][1..] == s[2..];
    } else {
      ExchangeKeepsBefore(s[1..], k - 1, a);
    }
  }

  /** Exchanging two neighbours in the wrong order leaves one inversion less. */
  lemma {:induction false} ExchangeReduces(s: seq<Read>, k: nat)
    requires k + 1 < |s| && !Leq(s[k], s[k + 1])
    ensures Inversions(Exchanged(s, k)) == Inversions(s) - 1
  {
    ExchangedSplit(s, k);
    assert Leq(s[k + 1], s[k]);
    hide Exchanged, Leq;
    var r := Exchanged(s, k);
    if k == 0 {
      var t := s[2..];
      assert s[1..][1..] == t && r[1..][1..] == t && r[1..][0] == s[0];
      assert Inversions(r) == Before(r[1..], s[1]) + (Before(t, s[0]) + Inversions(t));
      assert Inversions(s) == Before(s[1..], s[0]) + (Before(t, s[1]) + Inversions(t));
    } else {
      assert s[1..][k - 1] == s[k] && s[1..][k] == s[k + 1];
      ExchangeKeepsBefore(s[1..], k - 1, s[0]);
      ExchangeReduces(s[1..], k - 1);
    }
  }

  // ----- what stays -----

  /** The reads at one place of the disk, in order. */
  ghost function At(s: seq<Read>, lba: int, off: int): seq<Read> {
    if s == [] then []
    else (if s[0].lba == lba && s[0].off == off then [s[0]] else []) + At(s[1..], lba, off)
  }

  /** `r` has the reads of `s`, and those at the same place in the same order. */
  ghost predicate StableReordering(s: seq<Read>, r: seq<Read>) {
    multiset(s) == multiset(r) && forall lba, off :: At(s, lba, off) == At(r, lba, off)
  }

  lemma {:induction false} ExchangeIsStable(s: seq<Read>, k: nat, lba: int, off: int)
    requires k + 1 < |s| && !Leq(s[k], s[k + 1])
    ensures At(Exchanged(s, k), lba, off) == At(s, lba, off)
  {
    ExchangedSplit(s, k);
    if k == 0 {
      var r := Exchanged(s, k);
      assert s[1..][1..] == s[2..] && r[1..][1..] == s[2..];
    } else {
      assert s[1..][k - 1] == s[k] && s[1..][k] == s[k + 1];
      ExchangeIsStable(s[1..], k - 1, lba, off);
    }
  }

  lemma ExchangeKeepsReads(s: seq<Read>, k: nat)
    requires k + 1 < |s|
    ensures multiset(Exchanged(s, k)) == multiset(s)
  {
    assert s == s[..k] + [s[k], s[k + 1]] + s[k + 2..];
    assert Exchanged(s, k) == s[..k] + [s[k + 1], s[k]] + s[k + 2..];
  }

  lemma ExchangeKeeps(s: seq<Read>, c: seq<Read>, k: nat)
    requires k + 1 < |c| && !Leq(c[k], c[k + 1]) && StableReordering(s, c)
    ensures StableReordering(s, Exchanged(c, k))
  {
    ExchangeKeepsReads(c, k);
    forall lba, off
      ensures At(s, lba, off) == At(Exchanged(c, k), lba, off)
    {
      ExchangeIsStable(c, k, lba, off);
    }
  }

  lemma {:induction false} NeighboursInOrder(s: seq<Read>, i: nat, j: nat)
    requires i <= j < |s| && forall k :: 0 <= k < |s| - 1 ==> Leq(s[k], s[k + 1])
    ensures Leq(s[i], s[j])
    decreases j
  {
    if i < j {
      NeighboursInOrder(s, i, j - 1);
      assert Leq(s[j - 1], s[j - 1 + 1]);
    }
  }

  /** There is only one way to sort stably: the result does not depend on how it is done. */
  lemma {:induction false} SortIsUnique(s: seq<Read>, r: seq<Read>)
    requires InOrder(s) && InOrder(r) && StableReordering(s, r)
    ensures s == r
  {
    MultisetLength(s, r);
    if s != [] {
      HeadComesFirst(s, r);
      HeadComesFirst(r, s);
      var lba, off := s[0].lba, s[0].off;
      assert At(s, lba, off)[0] == s[0] && At(r, lba, off)[0] == r[0];
      assert At(s, lba, off) == At(r, lba, off);
      MultisetTails(s, r);
      forall l, o
        ensures At(s[1..], l, o) == At(r[1..], l, o)
      {
        AtTail(s, l, o);
        AtTail(r, l, o);
        assert At(s, l, o) == At(r, l, o);
      }
      SortIsUnique(s[1..], r[1..]);
      assert s == [s[0]] + s[1..] && r == [r[0]] + r[1..];
    }
  }

  lemma AtTail(s: seq<Read>, lba: int, off: int)
    requires s != []
    ensures At(s[1..], lba, off) ==
              if s[0].lba == lba && s[0].off == off then At(s, lba, off)[1..] else At(s, lba, off)
  {
  }

  lemma HeadComesFirst(s: seq<Read>, r: seq<Read>)
    requires InOrder(s) && s != [] && r != [] && multiset(s) == multiset(r)
    ensures Leq(s[0], r[0])
  {
    assert r[0] in multiset(r) && r[0] in s;
  }

  // ----- in place -----

  /** Exchange what two neighbouring nodes hold, by copying whole nodes and then repairing the
      links. */
  method Swap(l: List<Read>, a: Node<Read>, b: Node<Read>, ghost k: nat)
    requires l.Valid() && k + 1 < |l.spine| && a == l.spine[k] && b == l.spine[k + 1]
    modifies l`contents, a, b
    ensures l.Valid() && l.contents == Exchanged(old(l.contents), k)
  {
    var tmpItem, tmpNext := b.item, b.next;
    b.item, b.next := a.item, a.next;
    a.item, a.next := tmpItem, tmpNext;
    a.next := b;
    b.next := tmpNext;
    l.contents := Exchanged(l.contents, k);
  }

  /** Sort one list. It ends because every exchange removes an inversion; the nodes and their
      links stay as they were. */
  method SortReadList(l: List<Read>)
    requires l.Valid() && l.contents != []
    modifies l`contents, l.repr
    ensures l.Valid() && InOrder(l.contents) && StableReordering(old(l.contents), l.contents)
  {
    hide Exchanged, StableReordering, Inversions, InOrder;
    ghost var s := l.contents;
    SameIsStable(s);
    var swapped := true;
    while swapped
      invariant l.Valid() && l.contents != [] && StableReordering(s, l.contents)
      invariant !swapped ==> InOrder(l.contents)
      decreases Inversions(l.contents), swapped
    {
      swapped := SortPass(l, s);
    }
  }

  lemma SameIsStable(s: seq<Read>)
    ensures StableReordering(s, s)
  {
  }

  /** One pass over the list. */
  method SortPass(l: List<Read>, ghost s: seq<Read>) returns (swapped: bool)
    requires l.Valid() && l.contents != [] && StableReordering(s, l.contents)
    modifies l`contents, l.repr
    ensures l.Valid() && l.contents != [] && StableReordering(s, l.contents)
    ensures if swapped then Inversions(l.contents) < Inversions(old(l.contents)) else InOrder(l.contents)
    ensures !swapped ==> l.contents == old(l.contents)
  {
    hide Exchanged, StableReordering, Inversions, InOrder, Leq;
    swapped := false;
    var n := l.head;
    ghost var k := 0;
    while n.next != null
      invariant l.Valid() && k < |l.spine| && n == l.spine[k] && StableReordering(s, l.contents)
      invariant if swapped then Inversions(l.contents) < Inversions(old(l.contents)) else l.contents == old(l.contents)
      invariant !swapped ==> forall i :: 0 <= i < k ==> Leq(l.contents[i], l.contents[i + 1])
      decreases |l.contents| - k
    {
      ghost var c := l.contents;
      assert n.item == c[k] && n.next.item == c[k + 1];
      var wrong := OutOfOrder(n.item, n.next.item);
      if wrong {
        ExchangeKeeps(s, c, k);
        ExchangeReduces(c, k);
        Swap(l, n, n.next, k);
        swapped := true;
      }
      n, k := n.next, k + 1;
    }
    if !swapped {
      AllInOrder(l.contents);
    }
  }

  lemma AllInOrder(s: seq<Read>)
    requires forall k :: 0 <= k < |s| - 1 ==> Leq(s[k], s[k + 1])
    ensures InOrder(s)
  {
    forall i, j | 0 <= i <= j < |s|
      ensures Leq(s[i], s[j])
    {
      NeighboursInOrder(s, i, j);
    }
  }

  /** The comparison of the sorting loop. */
  method OutOfOrder(a: Read, b: Read) returns (wrong: bool)
    ensures wrong <==> !Leq(a, b)
  {
    if a.lba > b.lba {
      return true;
    } else if a.lba == b.lba {
      if a.off > b.off {
        return true;
      }
    }
    return false;
  }
}
