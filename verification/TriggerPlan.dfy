/** Assigning triggers to groups, on values. A group whose idle period before it has no usable
    trigger is folded into the group before it. */
module TriggerPlan {
  import opened ReadLists
  import opened Grouping
  import opened SideLists

  /** A mapped file: `md` identifies it. */
  datatype Mapping = Mapping(ts: int, md: int, startAddr: int, endAddr: int)

  datatype Target = NoTarget | Target(md: int, bpOffset: int)

  predicate Contains(m: Mapping, addr: int) {
    m.startAddr <= addr && m.endAddr >= addr
  }

  /** Where a trigger lies: in the first mapping that contains it, among those before the first
      one that is later than the trigger. */
  function Resolve(mm: seq<Mapping>, t: Trigger, idleEnd: int): Target {
    if mm == [] || mm[0].ts > t.ts || mm[0].ts > idleEnd then NoTarget
    else if Contains(mm[0], t.retAddr) then Target(mm[0].md, t.retAddr - mm[0].startAddr)
    else Resolve(mm[1..], t, idleEnd)
  }

  /** Mapping k is the first that contains the trigger, both ends included, and no mapping up to it is
      later than the trigger or the end of the period. */
  ghost predicate LiesIn(mm: seq<Mapping>, t: Trigger, idleEnd: int, k: nat) {
    && k < |mm| && mm[k].startAddr <= t.retAddr <= mm[k].endAddr
    && (forall j :: 0 <= j < k ==> t.retAddr < mm[j].startAddr || mm[j].endAddr < t.retAddr)
    && forall j :: 0 <= j <= k ==> mm[j].ts <= t.ts && mm[j].ts <= idleEnd
  }

  /** A trigger resolves to an offset exactly in the mapping that it lies in. */
  lemma {:induction false} ResolveByLiesIn(mm: seq<Mapping>, t: Trigger, idleEnd: int)
    ensures Resolve(mm, t, idleEnd).Target? <==> exists k: nat :: LiesIn(mm, t, idleEnd, k)
    ensures forall k: nat :: LiesIn(mm, t, idleEnd, k) ==>
              k < |mm| && Resolve(mm, t, idleEnd) == Target(mm[k].md, t.retAddr - mm[k].startAddr)
  {
    if mm == [] {
      assert forall k: nat :: !LiesIn(mm, t, idleEnd, k);
    } else {
      ResolveByLiesIn(mm[1..], t, idleEnd);
      forall k: nat
        ensures LiesIn(mm, t, idleEnd, k) ==>
                  k < |mm| && Resolve(mm, t, idleEnd) == Target(mm[k].md, t.retAddr - mm[k].startAddr)
      {
        LiesInTail(mm, t, idleEnd, k);
      }
      if Resolve(mm, t, idleEnd).Target? {
        LiesInTail(mm, t, idleEnd, 0);
        if !Contains(mm[0], t.retAddr) {
          var k: nat :| LiesIn(mm[1..], t, idleEnd, k);
          LiesInTail(mm, t, idleEnd, k + 1);
        }
      }
    }
  }

  /** The same in plain comparisons: the target is in the first mapping from start to end address of
      which the return address is, and there is none exactly if there is no such mapping before the
      first one that is later than the trigger or the period. */
  lemma ResolveExactly(mm: seq<Mapping>, t: Trigger, idleEnd: int)
    ensures var r := Resolve(mm, t, idleEnd);
            && (r.Target? ==>
                  exists k ::
                    && 0 <= k < |mm| && mm[k].startAddr <= t.retAddr <= mm[k].endAddr
                    && r == Target(mm[k].md, t.retAddr - mm[k].startAddr)
                    && (forall j :: 0 <= j < k ==> t.retAddr < mm[j].startAddr || mm[j].endAddr < t.retAddr)
                    && (forall j :: 0 <= j <= k ==> mm[j].ts <= t.ts && mm[j].ts <= idleEnd))
            && (r.NoTarget? ==>
                  forall k :: 0 <= k < |mm| && (forall j :: 0 <= j <= k ==> mm[j].ts <= t.ts && mm[j].ts <= idleEnd) ==>
                    t.retAddr < mm[k].startAddr || mm[k].endAddr < t.retAddr)
  {
    ResolveByLiesIn(mm, t, idleEnd);
    if Resolve(mm, t, idleEnd).Target? {
      var k: nat :| LiesIn(mm, t, idleEnd, k);
    } else {
      forall k | 0 <= k < |mm| && forall j :: 0 <= j <= k ==> mm[j].ts <= t.ts && mm[j].ts <= idleEnd
        ensures t.retAddr < mm[k].startAddr || mm[k].endAddr < t.retAddr
      {
        NotLyingAnywhere(mm, t, idleEnd, k);
      }
    }
  }

  lemma {:induction false} NotLyingAnywhere(mm: seq<Mapping>, t: Trigger, idleEnd: int, k: nat)
    requires k < |mm| && forall j :: 0 <= j <= k ==> mm[j].ts <= t.ts && mm[j].ts <= idleEnd
    requires forall j: nat :: !LiesIn(mm, t, idleEnd, j)
    ensures t.retAddr < mm[k].startAddr || mm[k].endAddr < t.retAddr
  {
    forall j | 0 <= j < k
      ensures t.retAddr < mm[j].startAddr || mm[j].endAddr < t.retAddr
    {
      NotLyingAnywhere(mm, t, idleEnd, j);
    }
    assert !LiesIn(mm, t, idleEnd, k);
  }

  lemma LiesInTail(mm: seq<Mapping>, t: Trigger, idleEnd: int, k: nat)
    requires mm != []
    ensures LiesIn(mm, t, idleEnd, k) <==>
            && mm[0].ts <= t.ts && mm[0].ts <= idleEnd
            && if mm[0].startAddr <= t.retAddr <= mm[0].endAddr then k == 0
               else k > 0 && LiesIn(mm[1..], t, idleEnd, k - 1)
  {
    if k > 0 && LiesIn(mm[1..], t, idleEnd, k - 1) {
      assert forall j :: 1 <= j <= k ==> mm[j] == mm[1..][j - 1];
    }
  }

  /** Go through the triggers of one idle period until the group behind it has one. An offset of
      0 counts as none. */
  function Scan(mm: seq<Mapping>, ts: seq<Trigger>, idleBegin: int, idleEnd: int, g: Group): Group
    decreases |ts|
  {
    if ts == [] then g
    else if ts[0].ts < idleBegin then Scan(mm, ts[1..], idleBegin, idleEnd, g)
    else if ts[0].ts > idleEnd || g.bpOffset != 0 then g
    else
      match Resolve(mm, ts[0], idleEnd)
      case NoTarget => Scan(mm, ts[1..], idleBegin, idleEnd, g)
      case Target(md, off) => Scan(mm, ts[1..], idleBegin, idleEnd, g.(md := md, bpOffset := off))
  }

  function ScanBetween(mm: seq<Mapping>, ts: seq<Trigger>, a: Group, b: Group): Group {
    Scan(mm, ts, a.endTs, b.startTs, b)
  }

  /** The loop over the groups. */
  function Assigned(mm: seq<Mapping>, ts: seq<Trigger>, s: seq<Group>): seq<Group>
    decreases |s|
  {
    if |s| < 2 then s
    else
      var b := ScanBetween(mm, ts, s[0], s[1]);
      if b.bpOffset == 0 then Assigned(mm, ts, [Absorb(s[0], b)] + s[2..])
      else [s[0]] + Assigned(mm, ts, [b] + s[2..])
  }

  // ----- the reference: every boundary on its own -----

  /** The trigger lies in the idle period between the two groups, at a nonzero offset. */
  predicate Usable(mm: seq<Mapping>, t: Trigger, a: Group, b: Group) {
    a.endTs <= t.ts <= b.startTs && var r := Resolve(mm, t, b.startTs); r.Target? && r.bpOffset != 0
  }

  /** The target of the earliest usable trigger. */
  function FirstTarget(mm: seq<Mapping>, ts: seq<Trigger>, a: Group, b: Group): Target {
    if ts == [] then NoTarget
    else if Usable(mm, ts[0], a, b) then Resolve(mm, ts[0], b.startTs)
    else FirstTarget(mm, ts[1..], a, b)
  }

  lemma {:induction false} FirstTargetExists(mm: seq<Mapping>, ts: seq<Trigger>, a: Group, b: Group)
    ensures FirstTarget(mm, ts, a, b).Target? <==> exists t :: t in ts && Usable(mm, t, a, b)
    ensures FirstTarget(mm, ts, a, b).Target? ==> FirstTarget(mm, ts, a, b).bpOffset != 0
  {
    if ts != [] {
      assert ts == [ts[0]] + ts[1..];
      FirstTargetExists(mm, ts[1..], a, b);
    }
  }

  /** Scanning finds the earliest usable trigger, if the triggers are in time order. */
  lemma {:induction false} ScanFindsFirst(mm: seq<Mapping>, ts: seq<Trigger>, a: Group, b: Group, g: Group)
    requires InTimeOrder(ts) && g.bpOffset == 0
    ensures var r := Scan(mm, ts, a.endTs, b.startTs, g);
            match FirstTarget(mm, ts, a, b)
            case NoTarget => r.bpOffset == 0 && r == g.(md := r.md)
            case Target(md, off) => r == g.(md := md, bpOffset := off)
    decreases |ts|
  {
    if ts != [] {
      assert InTimeOrder(ts[1..]);
      if ts[0].ts < a.endTs {
        ScanFindsFirst(mm, ts[1..], a, b, g);
      } else if ts[0].ts > b.startTs {
        NoneLater(mm, ts, a, b);
      } else {
        match Resolve(mm, ts[0], b.startTs)
        case NoTarget => ScanFindsFirst(mm, ts[1..], a, b, g);
        case Target(md, off) =>
          if off == 0 {
            ScanFindsFirst(mm, ts[1..], a, b, g.(md := md, bpOffset := off));
          } else {
            ScanStops(mm, ts[1..], a.endTs, b.startTs, g.(md := md, bpOffset := off));
          }
      }
    }
  }

  lemma {:induction false} ScanStops(mm: seq<Mapping>, ts: seq<Trigger>, idleBegin: int, idleEnd: int, g: Group)
    requires g.bpOffset != 0
    ensures Scan(mm, ts, idleBegin, idleEnd, g) == g
    decreases |ts|
  {
    if ts != [] && ts[0].ts < idleBegin {
      ScanStops(mm, ts[1..], idleBegin, idleEnd, g);
    }
  }

  lemma {:induction false} NoneLater(mm: seq<Mapping>, ts: seq<Trigger>, a: Group, b: Group)
    requires InTimeOrder(ts) && ts != [] && ts[0].ts > b.startTs
    ensures FirstTarget(mm, ts, a, b) == NoTarget
  {
    if |ts| > 1 {
      assert ts[1].ts >= ts[0].ts && InTimeOrder(ts[1..]);
      NoneLater(mm, ts[1..], a, b);
    }
  }

  /** Each group as the boundary before it alone decides, looking only at the original groups. */
  function Tagged(mm: seq<Mapping>, ts: seq<Trigger>, s: seq<Group>): (r: seq<Group>)
    ensures |r| == |s|
  {
    seq(|s|, i requires 0 <= i < |s| => if i == 0 then s[0] else ScanBetween(mm, ts, s[i - 1], s[i]))
  }

  /** Split in front of every group that has a trigger; the first group starts a segment anyway. */
  function Segments(s: seq<Group>): (r: seq<seq<Group>>)
    requires s != []
    ensures r != [] && (forall i :: 0 <= i < |r| ==> r[i] != []) && r[0][0] == s[0]
  {
    if |s| == 1 then [s]
    else
      var r := Segments(s[1..]);
      if s[1].bpOffset != 0 then [[s[0]]] + r else [[s[0]] + r[0]] + r[1..]
  }

  /** No group but the first has a trigger yet. */
  ghost predicate Fresh(s: seq<Group>) {
    forall i :: 1 <= i < |s| ==> s[i].bpOffset == 0
  }

  lemma {:induction false} SegmentsCover(s: seq<Group>)
    requires s != []
    ensures Concat(Segments(s)) == s
  {
    if |s| == 1 {
      assert Segments(s)[1..] == [] && s + [] == s;
    } else {
      SegmentsCover(s[1..]);
      var r := Segments(s[1..]);
      assert ([[s[0]]] + r)[1..] == r && ([[s[0]] + r[0]] + r[1..])[1..] == r[1..];
      assert [s[0]] + (r[0] + Concat(r[1..])) == ([s[0]] + r[0]) + Concat(r[1..]);
      assert s == [s[0]] + s[1..];
    }
  }

  lemma TaggedTail(mm: seq<Mapping>, ts: seq<Trigger>, a: Group, b: Group, rest: seq<Group>)
    ensures var t := ScanBetween(mm, ts, a, b);
            Tagged(mm, ts, [a] + ([b] + rest)) == [a] + ([t] + Tagged(mm, ts, [b] + rest)[1..])
  {
    hide Scan, ScanBetween;
    var s, whole := [b] + rest, Tagged(mm, ts, [a] + ([b] + rest));
    var r := [a] + ([ScanBetween(mm, ts, a, b)] + Tagged(mm, ts, s)[1..]);
    forall i | 0 <= i < |whole|
      ensures whole[i] == r[i]
    {
      if i >= 2 {
        assert ([a] + s)[i - 1] == s[i - 2] && ([a] + s)[i] == s[i - 1];
        assert r[i] == Tagged(mm, ts, s)[i - 1];
      }
    }
  }

  /** The scan of a boundary only looks at the end of the group before it. */
  lemma TaggedHead(mm: seq<Mapping>, ts: seq<Trigger>, a: Group, a': Group, rest: seq<Group>)
    requires a.endTs == a'.endTs
    ensures Tagged(mm, ts, [a] + rest)[1..] == Tagged(mm, ts, [a'] + rest)[1..]
  {
  }

  lemma FuseSegment(a: Group, b: Group, rest: seq<Group>)
    requires b.bpOffset == 0
    ensures FuseAll(Segments([a] + ([b] + rest))) == FuseAll(Segments([Absorb(a, b)] + rest))
  {
    var m := Absorb(a, b);
    assert ([a] + ([b] + rest))[1..] == [b] + rest && ([a] + ([b] + rest))[1] == b;
    if rest == [] {
      assert [b] + rest == [b] && [m] + rest == [m];
      assert Segments([b]) == [[b]] && Segments([m]) == [[m]];
      assert Segments([a] + [b]) == [[a] + [b]] + [];
      FuseAllCons([a] + [b], []);
      FuseAllCons([m], []);
      assert [a] + ([b] + []) == [a] + [b];
      FuseStep(a, b, []);
      assert [[a] + [b]] + [] == [[a] + [b]] && [[m]] + [] == [[m]] && [m] + [] == [m];
    } else {
      var r := Segments(rest);
      assert ([b] + rest)[1..] == rest && ([m] + rest)[1..] == rest;
      if rest[0].bpOffset != 0 {
        assert Segments([b] + rest) == [[b]] + r && Segments([m] + rest) == [[m]] + r;
        assert Segments([a] + ([b] + rest)) == [[a] + [b]] + ([[b]] + r)[1..];
        assert ([[b]] + r)[1..] == r;
        FuseAllCons([a] + [b], r);
        FuseAllCons([m], r);
        FuseStep(a, b, []);
        assert [a] + ([b] + []) == [a] + [b] && [m] + [] == [m];
      } else {
        var b' := [[b] + r[0]] + r[1..];
        assert Segments([b] + rest) == b' && b'[0] == [b] + r[0] && b'[1..] == r[1..];
        assert Segments([m] + rest) == [[m] + r[0]] + r[1..];
        FuseAllCons([a] + ([b] + r[0]), r[1..]);
        FuseAllCons([m] + r[0], r[1..]);
        FuseStep(a, b, r[0]);
      }
    }
  }

  lemma SplitSegment(a: Group, rest: seq<Group>)
    requires rest != [] && rest[0].bpOffset != 0
    ensures FuseAll(Segments([a] + rest)) == [a] + FuseAll(Segments(rest))
  {
    assert ([a] + rest)[1..] == rest;
    FuseAllCons([a], Segments(rest));
  }

  /** Assigning triggers splits the chain exactly where the boundaries by themselves say so:
      what was folded before does not matter. */
  lemma {:induction false} AssignedIsPointwise(mm: seq<Mapping>, ts: seq<Trigger>, s: seq<Group>)
    requires s != [] && Fresh(s)
    ensures Assigned(mm, ts, s) == FuseAll(Segments(Tagged(mm, ts, s)))
    decreases |s|
  {
    if |s| == 1 {
      assert Tagged(mm, ts, s) == s && Segments(s) == [s] == [s] + [];
      FuseAllCons(s, []);
    } else {
      var a, rest := s[0], s[2..];
      var b := ScanBetween(mm, ts, a, s[1]);
      assert s == [a] + ([s[1]] + rest);
      TaggedTail(mm, ts, a, s[1], rest);
      ScanKeepsTimes(mm, ts, a.endTs, s[1].startTs, s[1]);
      TaggedHead(mm, ts, s[1], b, rest);
      var tail := Tagged(mm, ts, [b] + rest)[1..];
      assert Tagged(mm, ts, [b] + rest) == [b] + tail;
      assert Tagged(mm, ts, s) == [a] + ([b] + tail);
      if b.bpOffset == 0 {
        var m := Absorb(a, b);
        TaggedHead(mm, ts, b, m, rest);
        assert Tagged(mm, ts, [m] + rest) == [m] + tail;
        AssignedIsPointwise(mm, ts, [m] + rest);
        FuseSegment(a, b, tail);
      } else {
        AssignedIsPointwise(mm, ts, [b] + rest);
        SplitSegment(a, [b] + tail);
      }
    }
  }

  lemma {:induction false} ScanKeepsTimes(mm: seq<Mapping>, ts: seq<Trigger>, idleBegin: int, idleEnd: int, g: Group)
    ensures var r := Scan(mm, ts, idleBegin, idleEnd, g); r == g.(md := r.md, bpOffset := r.bpOffset)
    decreases |ts|
  {
    if ts != [] {
      if ts[0].ts < idleBegin {
        ScanKeepsTimes(mm, ts[1..], idleBegin, idleEnd, g);
      } else if !(ts[0].ts > idleEnd || g.bpOffset != 0) {
        match Resolve(mm, ts[0], idleEnd)
        case NoTarget => ScanKeepsTimes(mm, ts[1..], idleBegin, idleEnd, g);
        case Target(md, off) => ScanKeepsTimes(mm, ts[1..], idleBegin, idleEnd, g.(md := md, bpOffset := off));
      }
    }
  }

  /** The trigger lies in the idle period between two groups, and behind the start of the mapping that
      it lies in, which is the k-th. */
  ghost predicate UsableIn(mm: seq<Mapping>, t: Trigger, a: Group, b: Group, k: nat) {
    a.endTs <= t.ts <= b.startTs && LiesIn(mm, t, b.startTs, k) && t.retAddr != mm[k].startAddr
  }

  lemma UsableExactly(mm: seq<Mapping>, t: Trigger, a: Group, b: Group)
    ensures Usable(mm, t, a, b) <==> exists k: nat :: UsableIn(mm, t, a, b, k)
    ensures forall k: nat :: UsableIn(mm, t, a, b, k) ==>
              k < |mm| && Resolve(mm, t, b.startTs) == Target(mm[k].md, t.retAddr - mm[k].startAddr)
  {
    hide LiesIn, Resolve;
    ResolveByLiesIn(mm, t, b.startTs);
    if Usable(mm, t, a, b) {
      var k: nat :| LiesIn(mm, t, b.startTs, k);
      assert UsableIn(mm, t, a, b, k);
    }
  }

  lemma {:induction false} FirstTargetIsEarliest(mm: seq<Mapping>, ts: seq<Trigger>, a: Group, b: Group)
      returns (j: nat, k: nat)
    requires FirstTarget(mm, ts, a, b).Target?
    ensures j < |ts| && UsableIn(mm, ts[j], a, b, k) && k < |mm|
    ensures FirstTarget(mm, ts, a, b) == Target(mm[k].md, ts[j].retAddr - mm[k].startAddr)
    ensures forall i, l: nat :: 0 <= i < j ==> !UsableIn(mm, ts[i], a, b, l)
  {
    hide UsableIn, Usable, Resolve;
    UsableExactly(mm, ts[0], a, b);
    if Usable(mm, ts[0], a, b) {
      j := 0;
      k :| UsableIn(mm, ts[0], a, b, k);
    } else {
      j, k := FirstTargetIsEarliest(mm, ts[1..], a, b);
      j := j + 1;
      forall i, l: nat | 0 <= i < j
        ensures !UsableIn(mm, ts[i], a, b, l)
      {
        assert i > 0 ==> ts[i] == ts[1..][i - 1];
      }
    }
  }

  /** The j-th trigger is the earliest usable one of the period between two groups, in mapping k. */
  ghost predicate Earliest(mm: seq<Mapping>, ts: seq<Trigger>, a: Group, b: Group, j: nat, k: nat) {
    && j < |ts| && UsableIn(mm, ts[j], a, b, k)
    && forall i, l: nat :: 0 <= i < j ==> !UsableIn(mm, ts[i], a, b, l)
  }

  /** A boundary survives exactly when some trigger is in its idle period and lies behind the start of
      a mapping; the group behind it gets the earliest of these. */
  lemma BoundarySurvives(mm: seq<Mapping>, ts: seq<Trigger>, s: seq<Group>, i: nat)
    requires InTimeOrder(ts) && Fresh(s) && 1 <= i < |s|
    ensures var g, a, b := Tagged(mm, ts, s)[i], s[i - 1], s[i];
            && (g.bpOffset != 0 <==>
                  exists t, k: nat ::
                    && t in ts && a.endTs <= t.ts <= b.startTs && LiesIn(mm, t, b.startTs, k)
                    && t.retAddr != mm[k].startAddr)
            && (g.bpOffset != 0 ==>
                  exists j: nat, k: nat :: Earliest(mm, ts, a, b, j, k) && g.md == mm[k].md
                                           && g.bpOffset == ts[j].retAddr - mm[k].startAddr)
            && g == b.(md := g.md, bpOffset := g.bpOffset)
  {
    var g, a, b := Tagged(mm, ts, s)[i], s[i - 1], s[i];
    hide LiesIn, Usable, Scan, FirstTarget;
    ScanFindsFirst(mm, ts, a, b, b);
    FirstTargetExists(mm, ts, a, b);
    ScanKeepsTimes(mm, ts, a.endTs, b.startTs, b);
    forall t | t in ts
      ensures Usable(mm, t, a, b) <==> exists k: nat :: UsableIn(mm, t, a, b, k)
    {
      UsableExactly(mm, t, a, b);
    }
    if t, k: nat :| t in ts && a.endTs <= t.ts <= b.startTs && LiesIn(mm, t, b.startTs, k)
                    && t.retAddr != mm[k].startAddr {
      assert UsableIn(mm, t, a, b, k);
    }
    if g.bpOffset != 0 {
      var j, k := FirstTargetIsEarliest(mm, ts, a, b);
      assert Earliest(mm, ts, a, b, j, k) && ts[j] in ts;
    }
  }

  /** The segments are cut exactly in front of the groups with a trigger. */
  lemma {:induction false} SegmentsAreCut(s: seq<Group>, i: nat)
    requires s != [] && i < |Segments(s)|
    ensures i > 0 ==> Segments(s)[i][0].bpOffset != 0
    ensures forall j :: 1 <= j < |Segments(s)[i]| ==> Segments(s)[i][j].bpOffset == 0
  {
    if |s| > 1 {
      var r := Segments(s[1..]);
      if s[1].bpOffset != 0 {
        if i > 0 { SegmentsAreCut(s[1..], i - 1); }
      } else {
        SegmentsAreCut(s[1..], i);
        if i == 0 {
          assert forall j :: 2 <= j <= |r[0]| ==> ([s[0]] + r[0])[j] == r[0][j - 1];
        }
      }
    }
  }

  /** No read is lost, moved or doubled. */
  lemma {:induction false} AssignedKeepsReads(mm: seq<Mapping>, ts: seq<Trigger>, s: seq<Group>)
    ensures Items(Assigned(mm, ts, s)) == Items(s)
    decreases |s|
  {
    if |s| >= 2 {
      var a, rest := s[0], s[2..];
      var b := ScanBetween(mm, ts, a, s[1]);
      ScanKeepsTimes(mm, ts, a.endTs, s[1].startTs, s[1]);
      assert s[1..][1..] == rest && s[1..][0] == s[1];
      assert a.items + (b.items + Items(rest)) == (a.items + b.items) + Items(rest);
      if b.bpOffset == 0 {
        AssignedKeepsReads(mm, ts, [Absorb(a, b)] + rest);
        assert ([Absorb(a, b)] + rest)[1..] == rest;
      } else {
        AssignedKeepsReads(mm, ts, [b] + rest);
        assert ([b] + rest)[1..] == rest;
        assert ([a] + Assigned(mm, ts, [b] + rest))[1..] == Assigned(mm, ts, [b] + rest);
      }
    }
  }
}
