/** Merging neighbouring reads of a list until nothing merges any more. */
module Merging {
  import opened Sequences
  import opened Chains
  import opened Extents

  /** One read or mapping of the log. */
  datatype Read = Read(path: string, ts: int, off: int, len: int, lba: int, ino: int) {
    /** What the source calls OFFTOLEN: one more than the end. */
    function Limit(): int { off + len + 1 }

    function Bytes(): Extent { Extent(lba, off, len) }
  }

  /** The whole of `b` lies in `a`, limits included. */
  predicate Subset(a: Read, b: Read) {
    b.off >= a.off && b.Limit() <= a.Limit()
  }

  /** `b` starts in `a`, limit included, and goes on after it. */
  predicate Expands(a: Read, b: Read) {
    b.off >= a.off && b.off <= a.Limit() && b.Limit() > a.Limit()
  }

  predicate Mergeable(a: Read, b: Read) {
    a.lba == b.lba && a.Limit() >= b.off && a.off <= b.Limit()
  }

  /** What `a` becomes when it takes in `b`. The second branch adds the limit of `b` to a
      distance, not its length; the third one uses the offset it has just overwritten. */
  function Merged(a: Read, b: Read): Read {
    if Subset(b, a) then a.(off := b.off, len := b.len)
    else if Expands(a, b) then a.(len := b.off - a.off + b.Limit())
    else if Expands(b, a) then a.(off := b.off, len := b.off - b.off + (b.off + a.len + 1))
    else a
  }

  /** One pass. A read that has just merged is not compared again in the same pass. */
  function MergePass(s: seq<Read>): (r: seq<Read>)
    ensures |r| <= |s| && (s != [] ==> r != [])
    decreases |s|
  {
    if |s| < 2 then s
    else if Mergeable(s[0], s[1]) then [Merged(s[0], s[1])] + MergePass(s[2..])
    else [s[0]] + MergePass(s[1..])
  }

  /** Passes until one merges nothing. */
  function MergeAll(s: seq<Read>): seq<Read>
    decreases |s|
  {
    var r := MergePass(s);
    if |r| < |s| then MergeAll(r) else r
  }

  ghost function Bytes(s: seq<Read>): (r: seq<Extent>)
    ensures |r| == |s|
  {
    if s == [] then [] else [s[0].Bytes()] + Bytes(s[1..])
  }

  /** The order of the disk: by lba, then by offset. */
  predicate Leq(a: Read, b: Read) {
    a.lba < b.lba || (a.lba == b.lba && a.off <= b.off)
  }

  ghost predicate InOrder(s: seq<Read>) {
    forall i, j :: 0 <= i <= j < |s| ==> Leq(s[i], s[j])
  }

  ghost predicate Sane(s: seq<Read>) {
    forall r :: r in s ==> 0 <= r.off && 0 <= r.len
  }

  /** More than one byte apart, and in order. */
  predicate Clear(a: Read, b: Read) {
    a.lba < b.lba || (a.lba == b.lba && a.Limit() < b.off)
  }

  ghost predicate AllClear(s: seq<Read>) {
    forall i, j :: 0 <= i < j < |s| ==> Clear(s[i], s[j])
  }

  // ----- one pair -----

  /** Merging a read with a later one keeps its place, loses nothing, and stays sane. */
  lemma MergedKeeps(a: Read, b: Read, p: Spot)
    requires Mergeable(a, b) && a.off <= b.off && 0 <= a.off && 0 <= a.len && 0 <= b.len && p.Byte?
    ensures Merged(a, b).lba == a.lba && Merged(a, b).off == a.off && 0 <= Merged(a, b).len
    ensures Has(a.Bytes(), p) || Has(b.Bytes(), p) ==> Has(Merged(a, b).Bytes(), p)
  {
  }

  /** Whatever is merged, the file, its inode and the time stay those of the first read. */
  lemma MergedKeepsFile(a: Read, b: Read)
    ensures var m := Merged(a, b); m.path == a.path && m.ino == a.ino && m.lba == a.lba && m.ts == a.ts
  {
  }

  /** Merging with a read that starts earlier moves the start to it, and the end to 2 b.off + 1 - a.off
      bytes behind the later end, which can be in front of it; the end is right exactly if the earlier
      read ends no sooner. */
  lemma MergedBackwards(a: Read, b: Read)
    requires Mergeable(a, b) && b.off < a.off && 0 <= a.len && 0 <= b.len
    ensures var m, end := Merged(a, b), a.off + a.len;
            && m.off == b.off
            && if b.off + b.len < end then m.off + m.len == end + (2 * b.off + 1 - a.off)
               else m.off + m.len == b.off + b.len
  {
  }

  /** Merging any two reads loses bytes exactly when the second ends before the first, and either the
      first is not empty and starts more than one byte behind twice the offset of the second, or the
      second alone is longer than what it is merged into. */
  lemma MergedLosesExactly(a: Read, b: Read)
    requires Mergeable(a, b) && 0 <= a.off && 0 <= b.off && 0 <= a.len && 0 <= b.len
    ensures (forall p: Spot :: p.Byte? && (Has(a.Bytes(), p) || Has(b.Bytes(), p)) ==> Has(Merged(a, b).Bytes(), p))
            <==> !(b.Limit() < a.Limit() && ((0 < a.len && 2 * b.off + 1 < a.off) || b.off + a.len + 1 < b.len))
  {
    var ends, endb := Byte(a.lba, a.off + a.len - 1), Byte(b.lba, b.off + b.len - 1);
    if b.Limit() < a.Limit() && 0 < a.len && 2 * b.off + 1 < a.off {
      assert Has(a.Bytes(), ends) && !Has(Merged(a, b).Bytes(), ends);
    } else if b.Limit() < a.Limit() && b.off + a.len + 1 < b.len {
      assert Has(b.Bytes(), endb) && !Has(Merged(a, b).Bytes(), endb);
    }
  }

  /** Merging in order covers only what was read exactly when no branch that adds lengths to
      offsets is taken; otherwise it prefetches extra bytes past the later end. */
  lemma MergedOvershootsExactly(a: Read, b: Read)
    requires Mergeable(a, b) && a.off <= b.off && 0 <= a.off && 0 <= a.len && 0 <= b.len
    ensures var end := if a.off + a.len < b.off + b.len then b.off + b.len else a.off + a.len;
            var extra := Merged(a, b).off + Merged(a, b).len - end;
            && (extra == 0 || extra == b.off + 1)
            && (extra == 0 <==> Subset(b, a) || (a.off < b.off && Subset(a, b)))
  {
  }

  // ----- lists -----

  lemma BytesCons(a: Read, s: seq<Read>, p: Spot)
    ensures Covers(Bytes([a] + s), p) <==> Has(a.Bytes(), p) || Covers(Bytes(s), p)
  {
    assert ([a] + s)[1..] == s;
    CoversCons(a.Bytes(), Bytes(s), p);
  }

  lemma BytesSplit(s: seq<Read>, p: Spot)
    requires s != []
    ensures Covers(Bytes(s), p) <==> Has(s[0].Bytes(), p) || Covers(Bytes(s[1..]), p)
  {
    BytesCons(s[0], s[1..], p);
    assert s == [s[0]] + s[1..];
  }

  lemma OrderSplit(s: seq<Read>)
    requires s != [] && InOrder(s) && Sane(s)
    ensures InOrder(s[1..]) && Sane(s[1..]) && 0 <= s[0].off && 0 <= s[0].len
    ensures forall r :: r in s[1..] ==> Leq(s[0], r)
  {
    assert s[0] in s && forall r :: r in s[1..] ==> r in s;
  }

  lemma OrderCons(a: Read, s: seq<Read>)
    requires InOrder(s) && Sane(s) && 0 <= a.off && 0 <= a.len && forall r :: r in s ==> Leq(a, r)
    ensures InOrder([a] + s) && Sane([a] + s)
  {
  }

  lemma {:induction false} PassStaysAbove(d: Read, s: seq<Read>)
    requires InOrder(s) && Sane(s) && forall r :: r in s ==> Leq(d, r)
    ensures forall r :: r in MergePass(s) ==> Leq(d, r)
    decreases |s|
  {
    if |s| >= 2 {
      assert s[0] in s && s[1] in s;
      OrderSplit(s);
      OrderSplit(s[1..]);
      assert s[1..][1..] == s[2..];
      if Mergeable(s[0], s[1]) {
        MergedKeeps(s[0], s[1], Byte(0, 0));
        PassStaysAbove(d, s[2..]);
      } else {
        PassStaysAbove(d, s[1..]);
      }
    }
  }

  /** On a sorted list a pass keeps the order and every byte. */
  lemma {:induction false} PassKeeps(s: seq<Read>, p: Spot)
    requires InOrder(s) && Sane(s) && p.Byte?
    ensures InOrder(MergePass(s)) && Sane(MergePass(s))
    ensures Covers(Bytes(s), p) ==> Covers(Bytes(MergePass(s)), p)
    decreases |s|
  {
    if |s| >= 2 {
      var a, b := s[0], s[1];
      OrderSplit(s);
      OrderSplit(s[1..]);
      assert b in s[1..] && s[1..][1..] == s[2..];
      BytesSplit(s, p);
      BytesSplit(s[1..], p);
      hide InOrder, Sane, Bytes;
      if Mergeable(a, b) {
        var m := Merged(a, b);
        MergedKeeps(a, b, p);
        PassKeeps(s[2..], p);
        PassStaysAbove(m, s[2..]);
        OrderCons(m, MergePass(s[2..]));
        BytesCons(m, MergePass(s[2..]), p);
      } else {
        PassKeeps(s[1..], p);
        PassStaysAbove(a, s[1..]);
        OrderCons(a, MergePass(s[1..]));
        BytesCons(a, MergePass(s[1..]), p);
      }
    }
  }

  /** A pass merges neighbours in pairs: what has just been merged is not merged again. */
  lemma {:induction false} PassMergesPairs(s: seq<Read>, m: Read)
    requires m in MergePass(s)
    ensures m in s || exists i :: 0 <= i < |s| - 1 && Mergeable(s[i], s[i + 1]) && m == Merged(s[i], s[i + 1])
    decreases |s|
  {
    hide Mergeable, Merged;
    if |s| >= 2 {
      var n := if Mergeable(s[0], s[1]) then 2 else 1;
      var rest := s[n..];
      assert s[0] in s && (forall x :: x in rest ==> x in s) && forall i :: 0 <= i < |rest| ==> rest[i] == s[i + n];
      if m in MergePass(rest) {
        PassMergesPairs(rest, m);
        if i :| 0 <= i < |rest| - 1 && Mergeable(rest[i], rest[i + 1]) && m == Merged(rest[i], rest[i + 1]) {
          assert s[i + n] == rest[i] && s[i + n + 1] == rest[i + 1];
        }
      } else if n == 2 {
        assert m == Merged(s[0], s[0 + 1]);
      }
    }
  }

  /** A pass that merges nothing has found all neighbours apart, and in a sorted list that
      holds for any two reads. */
  lemma {:induction false} QuietPass(s: seq<Read>)
    requires |MergePass(s)| == |s|
    ensures MergePass(s) == s
    ensures forall i :: 0 <= i < |s| - 1 ==> !Mergeable(s[i], s[i + 1])
    decreases |s|
  {
    if |s| >= 2 {
      assert !Mergeable(s[0], s[1]);
      QuietPass(s[1..]);
      assert s == [s[0]] + s[1..];
      forall i | 0 <= i < |s| - 1
        ensures !Mergeable(s[i], s[i + 1])
      {
        if i > 0 { assert s[1..][i - 1] == s[i] && s[1..][i] == s[i + 1]; }
      }
    }
  }

  lemma {:induction false} NeighboursSuffice(s: seq<Read>, i: nat, j: nat)
    requires InOrder(s) && Sane(s) && i < j < |s|
    requires forall i :: 0 <= i < |s| - 1 ==> !Mergeable(s[i], s[i + 1])
    ensures Clear(s[i], s[j])
    decreases j
  {
    assert s[j - 1] in s && s[j] in s && Leq(s[j - 1], s[j]);
    assert !Mergeable(s[j - 1], s[j - 1 + 1]);
    if i < j - 1 {
      NeighboursSuffice(s, i, j - 1);
    }
  }

  lemma {:induction false} MergeAllIsNotEmpty(s: seq<Read>)
    ensures s != [] ==> MergeAll(s) != []
    decreases |s|
  {
    if |MergePass(s)| < |s| {
      MergeAllIsNotEmpty(MergePass(s));
    }
  }

  /** Merging to the end keeps order and bytes, and leaves any two reads of the same lba more
      than one byte apart. */
  lemma {:induction false} MergeAllKeeps(s: seq<Read>, p: Spot)
    requires InOrder(s) && Sane(s) && p.Byte?
    ensures InOrder(MergeAll(s)) && Sane(MergeAll(s)) && AllClear(MergeAll(s))
    ensures Covers(Bytes(s), p) ==> Covers(Bytes(MergeAll(s)), p)
    decreases |s|
  {
    var r := MergePass(s);
    PassKeeps(s, p);
    if |r| < |s| {
      MergeAllKeeps(r, p);
    } else {
      QuietPass(s);
      forall i, j | 0 <= i < j < |s|
        ensures Clear(s[i], s[j])
      {
        NeighboursSuffice(s, i, j);
      }
    }
  }

  // ----- lists that are not sorted -----

  /** No read starts before the one directly in front of it, if both are of one lba. */
  ghost predicate Onward(s: seq<Read>) {
    |s| < 2 || ((s[0].lba == s[1].lba ==> s[0].off <= s[1].off) && Onward(s[1..]))
  }

  /** `m` is a read of a file that a read of `s` is of. */
  ghost predicate FileIn(m: Read, s: seq<Read>) {
    exists x :: x in s && x.lba == m.lba && x.path == m.path
  }

  /** `r` covers what `s` covers, with reads of the same files. */
  ghost predicate Carried(s: seq<Read>, r: seq<Read>) {
    && Sane(r) && (forall m :: m in r ==> FileIn(m, s))
    && forall p: Spot :: p.Byte? && Covers(Bytes(s), p) ==> Covers(Bytes(r), p)
  }

  lemma {:induction false} InOrderIsOnward(s: seq<Read>)
    requires InOrder(s)
    ensures Onward(s)
  {
    if |s| >= 2 {
      assert Leq(s[0], s[1]);
      InOrderIsOnward(s[1..]);
    }
  }

  lemma OnwardCons(a: Read, s: seq<Read>)
    requires Onward(s) && (s != [] && a.lba == s[0].lba ==> a.off <= s[0].off)
    ensures Onward([a] + s)
  {
    assert ([a] + s)[1..] == s;
  }

  lemma SaneSplit(s: seq<Read>)
    requires s != [] && Sane(s)
    ensures 0 <= s[0].off && 0 <= s[0].len && Sane(s[1..])
  {
    assert s[0] in s && forall r :: r in s[1..] ==> r in s;
  }

  /** A pass then loses no byte either, and the first read stays where it starts. */
  lemma {:induction false} OnwardPass(s: seq<Read>, p: Spot)
    requires Onward(s) && Sane(s) && p.Byte?
    ensures var r := MergePass(s);
            && Onward(r) && Sane(r) && (Covers(Bytes(s), p) ==> Covers(Bytes(r), p))
            && (s != [] ==> r[0].lba == s[0].lba && r[0].off == s[0].off)
    decreases |s|
  {
    hide Bytes, Covers, Has, Mergeable, Merged, Sane;
    if |s| >= 2 {
      var a, b := s[0], s[1];
      SaneSplit(s);
      SaneSplit(s[1..]);
      assert s[1..][1..] == s[2..];
      BytesSplit(s, p);
      BytesSplit(s[1..], p);
      if Mergeable(a, b) {
        MergedInOrder(a, b, p);
        var m, rest := Merged(a, b), MergePass(s[2..]);
        OnwardPass(s[2..], p);
        OnwardCons(m, rest);
        BytesCons(m, rest, p);
        SaneCons(m, rest);
      } else {
        var rest := MergePass(s[1..]);
        OnwardPass(s[1..], p);
        OnwardCons(a, rest);
        BytesCons(a, rest, p);
        SaneCons(a, rest);
      }
    }
  }

  lemma MergedInOrder(a: Read, b: Read, p: Spot)
    requires Mergeable(a, b) && (a.lba == b.lba ==> a.off <= b.off)
    requires 0 <= a.off && 0 <= a.len && 0 <= b.len && p.Byte?
    ensures a.lba == b.lba && Merged(a, b).lba == a.lba && Merged(a, b).off == a.off && 0 <= Merged(a, b).len
    ensures Has(a.Bytes(), p) || Has(b.Bytes(), p) ==> Has(Merged(a, b).Bytes(), p)
  {
    MergedKeeps(a, b, p);
  }

  lemma SaneCons(a: Read, s: seq<Read>)
    requires Sane(s) && 0 <= a.off && 0 <= a.len
    ensures Sane([a] + s)
  {
  }

  lemma {:induction false} OnwardMergeAll(s: seq<Read>, p: Spot)
    requires Onward(s) && Sane(s) && p.Byte?
    ensures Sane(MergeAll(s)) && (Covers(Bytes(s), p) ==> Covers(Bytes(MergeAll(s)), p))
    decreases |s|
  {
    hide Onward, Sane, Covers, MergePass;
    OnwardPass(s, p);
    if |MergePass(s)| < |s| {
      OnwardMergeAll(MergePass(s), p);
    }
  }

  lemma {:induction false} PassFiles(s: seq<Read>, m: Read)
    requires m in MergePass(s)
    ensures FileIn(m, s)
    decreases |s|
  {
    if |s| >= 2 {
      var more := if Mergeable(s[0], s[1]) then s[2..] else s[1..];
      assert s[0] in s && forall x :: x in more ==> x in s;
      if m in MergePass(more) {
        PassFiles(more, m);
      }
    }
  }

  lemma {:induction false} MergeAllFiles(s: seq<Read>, m: Read)
    requires m in MergeAll(s)
    ensures FileIn(m, s)
    decreases |s|
  {
    var r := MergePass(s);
    if |r| < |s| {
      MergeAllFiles(r, m);
      var x :| x in r && x.lba == m.lba && x.path == m.path;
      PassFiles(s, x);
    } else {
      PassFiles(s, m);
    }
  }

  /** Merging to the end keeps every byte of any list whose reads of one lba, where they stand next to
      each other, start in order. */
  lemma OnwardIsCarried(s: seq<Read>)
    requires Onward(s) && Sane(s)
    ensures Carried(s, MergeAll(s))
  {
    hide MergeAll, Onward, Sane, Covers, FileIn;
    OnwardMergeAll(s, Byte(0, 0));
    forall m | m in MergeAll(s)
      ensures FileIn(m, s)
    {
      MergeAllFiles(s, m);
    }
    forall p: Spot | p.Byte? && Covers(Bytes(s), p)
      ensures Covers(Bytes(MergeAll(s)), p)
    {
      OnwardMergeAll(s, p);
    }
  }

  lemma CarriedOn(s: seq<Read>, r: seq<Read>, t: seq<Read>)
    requires Carried(s, r) && Carried(r, t)
    ensures Carried(s, t)
  {
    hide Sane, Covers;
    forall m | m in t
      ensures FileIn(m, s)
    {
      assert FileIn(m, r);
      var x :| x in r && x.lba == m.lba && x.path == m.path;
      assert FileIn(x, s);
    }
  }

  // ----- in place -----

  /** The pass has left the first k reads behind. */
  ghost function PassFrom(s: seq<Read>, k: nat): seq<Read>
    requires k <= |s|
  {
    s[..k] + MergePass(s[k..])
  }

  lemma PassStep(s: seq<Read>, k: nat)
    requires k + 1 < |s|
    ensures !Mergeable(s[k], s[k + 1]) ==> PassFrom(s, k + 1) == PassFrom(s, k)
    ensures Mergeable(s[k], s[k + 1]) ==>
              PassFrom(s[..k] + ([Merged(s[k], s[k + 1])] + s[k + 2..]), k + 1) == PassFrom(s, k)
  {
    hide Mergeable, Merged;
    var t := s[k..];
    assert t[0] == s[k] && t[1] == s[k + 1] && t[1..] == s[k + 1..] && t[2..] == s[k + 2..];
    if Mergeable(s[k], s[k + 1]) {
      var m := Merged(s[k], s[k + 1]);
      var r := s[..k] + ([m] + s[k + 2..]);
      assert r[..k + 1] == s[..k] + [m] && r[k + 1..] == s[k + 2..];
      Regroup(s[..k], m, MergePass(s[k + 2..]));
    } else {
      assert s[..k + 1] == s[..k] + [s[k]];
      Regroup(s[..k], s[k], MergePass(s[k + 1..]));
    }
  }

  lemma PassEnds(s: seq<Read>, k: nat)
    requires k <= |s| <= k + 1
    ensures PassFrom(s, k) == s
  {
    assert s[..k] + s[k..] == s;
  }

  /** The source's merge: take the next node into this one if they meet. */
  method MergeNext(l: List<Read>, a: Node<Read>, ghost k: nat) returns (merged: bool)
    requires l.Valid() && k + 1 < |l.spine| && a == l.spine[k] && a.item.lba == a.next.item.lba
    modifies l, a
    ensures l.Valid() && k < |l.spine| && a == l.spine[k] && l.repr == old(l.repr)
    ensures merged <==> Mergeable(old(l.contents)[k], old(l.contents)[k + 1])
    ensures var s := old(l.contents);
            l.contents == if merged then s[..k] + ([Merged(s[k], s[k + 1])] + s[k + 2..]) else s
  {
    ghost var s := l.contents;
    var b := a.next;
    assert a.item == s[k] && b.item == s[k + 1];
    if a.item.Limit() < b.item.off {
      return false;
    }
    if a.item.off > b.item.Limit() {
      return false;
    }
    var x := a.item;
    if Subset(b.item, x) {
      x := x.(off := b.item.off);
      x := x.(len := b.item.len);
    } else if Expands(x, b.item) {
      x := x.(len := b.item.off - x.off + b.item.Limit());
    } else if Expands(b.item, x) {
      x := x.(off := b.item.off);
      x := x.(len := x.off - b.item.off + x.Limit());
    }
    l.SetItem(a, x, k);
    l.DropNext(a, k);
    RemovedIs(s[k := x], k + 1, l.contents);
    return true;
  }

  method PassInPlace(l: List<Read>) returns (merged: bool)
    requires l.Valid() && l.contents != []
    modifies l, l.repr
    ensures l.Valid() && l.contents == MergePass(old(l.contents)) && l.repr == old(l.repr)
    ensures merged <==> |l.contents| < |old(l.contents)|
  {
    hide MergePass;
    merged := false;
    var n := l.head;
    ghost var k := 0;
    assert PassFrom(l.contents, 0) == MergePass(l.contents);
    while n.next != null
      invariant l.Valid() && l.repr == old(l.repr) && k < |l.spine| && n == l.spine[k]
      invariant PassFrom(l.contents, k) == MergePass(old(l.contents))
      invariant merged <==> |l.contents| < |old(l.contents)|
      invariant |l.contents| <= |old(l.contents)|
      decreases |l.contents| - k
    {
      PassStep(l.contents, k);
      assert n.item == l.contents[k] && n.next.item == l.contents[k + 1];
      if n.item.lba == n.next.item.lba {
        var m := MergeNext(l, n, k);
        if m {
          merged := true;
        }
      }
      if n.next == null {
        PassEnds(l.contents, k + 1);
        break;
      }
      n, k := n.next, k + 1;
    }
    PassEnds(l.contents, k);
  }

  /** Merging one list until a pass changes nothing. The source ends its loop over the lists
      of the plan with this for each of them. */
  method MergeReadList(l: List<Read>)
    requires l.Valid() && l.contents != []
    modifies l, l.repr
    ensures l.Valid() && l.contents == MergeAll(old(l.contents)) && l.repr == old(l.repr)
  {
    hide MergePass;
    var merged := true;
    while merged
      invariant l.Valid() && l.contents != [] && l.repr == old(l.repr)
      invariant (if merged then MergeAll(l.contents) else l.contents) == MergeAll(old(l.contents))
      decreases |l.contents|, merged
    {
      merged := PassInPlace(l);
    }
  }
}
