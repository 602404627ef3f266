/** What trimming against earlier groups does to the bytes that are read ahead: when it adds bytes
    that nobody read, and when the groups that it has rewritten are still printed in full. */
module CrossGroupBytes {
  import opened Extents
  import opened BurstPlan
  import opened CrossGroupPlan

  // ----- bytes added -----

  /** Node `n` cuts off the start of `t`. */
  predicate CutsStart(n: Extent, t: Extent) {
    n.lba == t.lba && RightExtends(t, n) && !Contains(t, n)
  }

  /** Node `n` cuts off the end of `t`. */
  predicate CutsEnd(n: Extent, t: Extent) {
    n.lba == t.lba && LeftExtends(t, n)
  }

  /** Because of node `n`, nothing of `t` is inserted. */
  predicate Drops(n: Extent, t: Extent) {
    n.lba == t.lba && !LeftExtends(t, n) && (Contains(t, n) || (!RightExtends(t, n) && Contains(n, t)))
  }

  /** The two overlap or touch. */
  predicate Meets(n: Extent, t: Extent) {
    n.lba == t.lba && n.off <= t.End() && t.off <= n.End()
  }

  lemma MeetingKinds(n: Extent, t: Extent)
    requires 0 < n.len && 0 < t.len
    ensures Meets(n, t) <==> CutsStart(n, t) || CutsEnd(n, t) || Drops(n, t)
  {
  }

  /** Trimming `t` against a group adds a byte: one that is now in the group or in what is left of
      `t`, and was in neither. */
  ghost predicate Adds(nodes: seq<Extent>, t: Extent, p: Spot) {
    var (nodes', e) := TrimWalk(nodes, t, t);
    p.Byte? && (Covers(nodes', p) || (e.lba != 0 && Has(e, p))) && !Covers(nodes, p) && !Has(t, p)
  }

  /** What is left of `t` after the nodes `done`: a part of `t`, unless a node cut off its start and
      a later one its end. */
  ghost predicate LeftOver(done: seq<Extent>, t: Extent, e: Extent) {
    e.lba == 0
    || (&& e.lba == t.lba && (forall n :: n in done ==> !Drops(n, t))
        && (e.off == t.off || exists a :: a in done && CutsStart(a, t) && e.off == a.End())
        && ((t.off <= e.off && e.End() <= t.End())
            || exists a, b :: a in done && b in done && CutsStart(a, t) && CutsEnd(b, t)
                              && e == Extent(t.lba, a.End(), b.off - t.off)))
  }

  lemma LeftOverStep(done: seq<Extent>, n: Extent, t: Extent, e: Extent)
    requires t.lba != 0 && 0 < n.len && 0 < t.len && LeftOver(done, t, e)
    ensures LeftOver(done + [n], t, TrimNode(n, t, e).1)
  {
    var all, e1 := done + [n], TrimNode(n, t, e).1;
    assert n in all && forall m :: m in all <==> m in done || m == n;
    if e1.lba != 0 && CutsEnd(n, t) && e.off != t.off {
      var a :| a in done && CutsStart(a, t) && e.off == a.End();
      assert a in all && e1 == Extent(t.lba, a.End(), n.off - t.off);
    }
  }

  lemma {:induction false} LeftOverWalk(done: seq<Extent>, nodes: seq<Extent>, t: Extent, e: Extent)
    requires t.lba != 0 && 0 < t.len && Positive(nodes) && LeftOver(done, t, e)
    ensures LeftOver(done + nodes, t, TrimWalk(nodes, t, e).1)
    decreases nodes
  {
    hide LeftOver;
    if nodes == [] {
      assert done + nodes == done;
    } else {
      LeftOverStep(done, nodes[0], t, e);
      LeftOverWalk(done + [nodes[0]], nodes[1..], t, TrimNode(nodes[0], t, e).1);
      assert done + nodes == (done + [nodes[0]]) + nodes[1..];
    }
  }

  /** The group itself only takes bytes of `t`. */
  lemma {:induction false} NodesGrowInside(nodes: seq<Extent>, t: Extent, e: Extent, p: Spot)
    ensures Covers(TrimWalk(nodes, t, e).0, p) ==> Covers(nodes, p) || Has(t, p)
  {
    if nodes != [] && t.lba != 0 {
      var (n, e1) := TrimNode(nodes[0], t, e);
      NodesGrowInside(nodes[1..], t, e1, p);
      CoversCons(n, TrimWalk(nodes[1..], t, e1).0, p);
      CoversSplit(nodes, p);
    }
  }

  /** In any group: bytes are added only if a node cuts off the start of `t` and another one, shorter
      than what was cut off, its end, and no node has all of `t` or is inside it. */
  lemma AddsOnlyIf(nodes: seq<Extent>, t: Extent, p: Spot)
    requires t.lba != 0 && 0 < t.len && Positive(nodes) && Adds(nodes, t, p)
    ensures forall n :: n in nodes ==> !Drops(n, t)
    ensures exists a, b :: a in nodes && b in nodes && CutsStart(a, t) && CutsEnd(b, t) && b.len < a.End() - t.off
  {
    NodesGrowInside(nodes, t, t, p);
    LeftOverWalk([], nodes, t, t);
    assert [] + nodes == nodes;
  }

  lemma {:induction false} WalkPast(x: seq<Extent>, y: seq<Extent>, t: Extent, e: Extent)
    requires t.lba != 0 && 0 < t.len && Positive(x) && forall n :: n in x ==> !Meets(n, t)
    ensures TrimWalk(x + y, t, e) == (x + TrimWalk(y, t, e).0, TrimWalk(y, t, e).1)
  {
    if x == [] {
      assert x + y == y && x + TrimWalk(y, t, e).0 == TrimWalk(y, t, e).0;
    } else {
      assert (x + y)[1..] == x[1..] + y && x[0] in x;
      MeetingKinds(x[0], t);
      WalkPast(x[1..], y, t, e);
      assert [x[0]] + (x[1..] + TrimWalk(y, t, e).0) == x + TrimWalk(y, t, e).0;
    }
  }

  /** The i-th node cuts off the start of `t`, and the j-th, shorter than that, its end; no other
      node meets it. */
  ghost predicate Overshoots(nodes: seq<Extent>, t: Extent, i: nat, j: nat) {
    && i < j < |nodes| && CutsStart(nodes[i], t) && CutsEnd(nodes[j], t)
    && nodes[j].len < nodes[i].End() - t.off
    && forall k :: 0 <= k < |nodes| && k != i && k != j ==> !Meets(nodes[k], t)
  }

  lemma WalkCons(n: Extent, r: seq<Extent>, t: Extent, e: Extent)
    requires t.lba != 0
    ensures var (n', e') := TrimNode(n, t, e);
            TrimWalk([n] + r, t, e) == ([n'] + TrimWalk(r, t, e').0, TrimWalk(r, t, e').1)
  {
    hide TrimNode;
    assert ([n] + r)[1..] == r && ([n] + r)[0] == n;
  }

  lemma WalkCut(n: Extent, r: seq<Extent>, t: Extent, e: Extent)
    requires t.lba != 0
    ensures CutsStart(n, t) ==> TrimWalk([n] + r, t, e).1 == TrimWalk(r, t, Extent(e.lba, n.End(), t.End() - n.End())).1
    ensures CutsEnd(n, t) ==> TrimWalk([n] + r, t, e).1 == TrimWalk(r, t, Extent(e.lba, e.off, n.off - t.off)).1
  {
    hide TrimWalk;
    WalkCons(n, r, t, e);
  }

  lemma WalkPastAll(x: seq<Extent>, t: Extent, e: Extent)
    requires t.lba != 0 && 0 < t.len && Positive(x) && forall n :: n in x ==> !Meets(n, t)
    ensures TrimWalk(x, t, e).1 == e
  {
    WalkPast(x, [], t, e);
    assert x + [] == x;
  }

  lemma OvershootsTo(nodes: seq<Extent>, t: Extent, i: nat, j: nat)
    requires t.lba != 0 && 0 < t.len && Positive(nodes) && Overshoots(nodes, t, i, j)
    ensures TrimWalk(nodes, t, t).1 == Extent(t.lba, nodes[i].End(), nodes[j].off - t.off)
  {
    hide TrimWalk, Meets, CutsStart, CutsEnd;
    var a, b := nodes[i], nodes[j];
    var x, y, z := nodes[..i], nodes[i + 1..j], nodes[j + 1..];
    assert nodes == x + ([a] + (y + ([b] + z)));
    WalkPast(x, [a] + (y + ([b] + z)), t, t);
    WalkCut(a, y + ([b] + z), t, t);
    var e := Extent(t.lba, a.End(), t.End() - a.End());
    WalkPast(y, [b] + z, t, e);
    WalkCut(b, z, t, e);
    WalkPastAll(z, t, Extent(t.lba, a.End(), b.off - t.off));
  }

  lemma OvershootAdds(nodes: seq<Extent>, t: Extent, i: nat, j: nat)
    requires t.lba != 0 && 0 < t.len && Positive(nodes) && Separated(nodes) && Overshoots(nodes, t, i, j)
    ensures Adds(nodes, t, Byte(t.lba, nodes[j].End()))
  {
    hide TrimWalk;
    OvershootsTo(nodes, t, i, j);
    var p := Byte(t.lba, nodes[j].End());
    forall k | 0 <= k < |nodes|
      ensures !Has(nodes[k], p)
    {
      assert k != j ==> Apart(nodes[k], nodes[j]) || Apart(nodes[j], nodes[k]);
    }
  }

  lemma CutsAreAlone(nodes: seq<Extent>, t: Extent, i: nat, j: nat)
    requires 0 < t.len && Positive(nodes) && Separated(nodes) && (forall n :: n in nodes ==> !Drops(n, t))
    requires i < |nodes| && j < |nodes| && CutsStart(nodes[i], t) && CutsEnd(nodes[j], t)
    ensures i < j && forall k :: 0 <= k < |nodes| && k != i && k != j ==> !Meets(nodes[k], t)
  {
    forall k | 0 <= k < |nodes| && k != i && k != j
      ensures !Meets(nodes[k], t)
    {
      MeetingKinds(nodes[k], t);
      assert nodes[k] in nodes;
      assert Apart(nodes[k], nodes[i]) || Apart(nodes[i], nodes[k]);
      assert Apart(nodes[k], nodes[j]) || Apart(nodes[j], nodes[k]);
    }
    assert i != j && !Apart(nodes[j], nodes[i]);
  }

  /** In a group with gaps between its nodes, trimming adds bytes that nobody read if and only if one
      node cuts off the start of the entry, another one, shorter than that, its end, and no other
      meets it: the length is then measured from where the entry used to start. */
  lemma TrimmingOvershootsExactly(nodes: seq<Extent>, t: Extent)
    requires t.lba != 0 && 0 < t.len && Positive(nodes) && Separated(nodes)
    ensures (exists p :: Adds(nodes, t, p)) <==> exists i, j :: Overshoots(nodes, t, i, j)
  {
    hide TrimWalk, Adds, Drops, CutsStart, CutsEnd, Meets, Separated;
    if p :| Adds(nodes, t, p) {
      AddsOnlyIf(nodes, t, p);
      var a, b :| a in nodes && b in nodes && CutsStart(a, t) && CutsEnd(b, t) && b.len < a.End() - t.off;
      var i: nat :| i < |nodes| && nodes[i] == a;
      var j: nat :| j < |nodes| && nodes[j] == b;
      CutsAreAlone(nodes, t, i, j);
      assert Overshoots(nodes, t, i, j);
    }
    if i: nat, j: nat :| Overshoots(nodes, t, i, j) {
      OvershootAdds(nodes, t, i, j);
    }
  }

  // ----- what is printed -----

  /** The fusing pass loses no byte of the group and adds none. */
  ghost predicate PrintsAll(s: seq<Extent>) {
    SameBytes(Coalesce(s), s)
  }

  ghost predicate FilesInOrder(s: seq<Extent>) {
    forall i, j :: 0 <= i < j < |s| ==> s[i].lba <= s[j].lba
  }

  /** The j-th node is the first of a chain of touching nodes: no node before it reaches it. */
  ghost predicate Head(s: seq<Extent>, j: nat) {
    j < |s| && forall i :: 0 <= i < j && s[i].lba == s[j].lba ==> s[i].End() < s[j].off
  }

  /** No later node of the file starts before the first one of a chain. */
  ghost predicate HeadsStart(s: seq<Extent>) {
    && FilesInOrder(s)
    && forall h, j :: 0 <= h < j < |s| && s[h].lba == s[j].lba && Head(s, h) ==> s[h].off <= s[j].off
  }

  /** The first node of every chain neither starts nor ends after a later node of the file, where
      for one that starts at `lo` only the start counts. */
  ghost predicate Leads(s: seq<Extent>, lo: int) {
    && FilesInOrder(s)
    && forall h, j :: 0 <= h < j < |s| && s[h].lba == s[j].lba && Head(s, h) ==>
         s[h].off <= s[j].off && (s[h].off == lo || s[h].End() <= s[j].End())
  }

  /** No extent starts before `lo`. */
  ghost predicate From(s: seq<Extent>, lo: int) {
    forall e :: e in s ==> lo <= e.off
  }

  /** In a group that is still in order it is enough to look at the ends. */
  lemma SortedLeads(s: seq<Extent>, lo: int)
    requires Sorted(s)
    requires forall h, j :: 0 <= h < j < |s| && s[h].lba == s[j].lba && Head(s, h) && s[h].off != lo ==>
               s[h].End() <= s[j].End()
    ensures Leads(s, lo)
  {
    forall i, j | 0 <= i < j < |s|
      ensures s[i].lba <= s[j].lba && (s[i].lba == s[j].lba ==> s[i].off < s[j].off)
    {
      assert Below(s[i], s[j]);
    }
  }

  lemma LeadsStart(s: seq<Extent>, lo: int)
    requires Leads(s, lo)
    ensures HeadsStart(s)
  {
  }

  lemma FusedIs(a: Extent, b: Extent, e: Extent)
    requires 0 < a.len && 0 < b.len && (a.lba == b.lba ==> a.off <= b.off) && Fused(a, b) == Some(e)
    ensures e.lba == a.lba == b.lba && e.off == a.off && 0 < e.len
    ensures e.End() == if a.End() < b.End() then b.End() else a.End()
    ensures forall p: Spot :: p.Byte? ==> (Has(e, p) <==> Has(a, p) || Has(b, p))
  {
  }

  lemma HeadBehind(s: seq<Extent>, e: Extent, h: nat)
    requires 2 <= |s| && e.lba == s[0].lba == s[1].lba && s[0].End() <= e.End() && s[1].End() <= e.End()
    requires 0 < h && Head([e] + s[2..], h)
    ensures Head(s, h + 1)
  {
    var r := [e] + s[2..];
    assert r[0] == e && forall i :: 2 <= i < |s| ==> s[i] == r[i - 1];
  }

  /** The first two nodes have become `e`. */
  lemma FusedHeads(s: seq<Extent>, e: Extent)
    requires HeadsStart(s) && Positive(s) && 2 <= |s| && Fused(s[0], s[1]) == Some(e)
    ensures HeadsStart([e] + s[2..]) && Positive([e] + s[2..])
    ensures forall p: Spot :: p.Byte? ==> (Has(e, p) <==> Has(s[0], p) || Has(s[1], p))
  {
    hide Fused, Has;
    var r := [e] + s[2..];
    assert s[0] in s && s[1] in s && (forall d :: d in s[2..] ==> d in s) && Head(s, 0);
    FusedIs(s[0], s[1], e);
    assert forall j :: 1 <= j < |r| ==> r[j] == s[j + 1];
    forall h, j | 0 <= h < j < |r| && r[h].lba == r[j].lba && Head(r, h)
      ensures r[h].off <= r[j].off
    {
      if h > 0 {
        HeadBehind(s, e, h);
      }
    }
  }

  /** The first node stays by itself. */
  lemma Parted(s: seq<Extent>)
    requires HeadsStart(s) && Positive(s) && 2 <= |s| && Fused(s[0], s[1]) == None
    ensures HeadsStart(s[1..]) && Positive(s[1..])
  {
    var a, b, r := s[0], s[1], s[1..];
    assert a in s && b in s && (forall d :: d in r ==> d in s) && Head(s, 0);
    assert a.lba == b.lba ==> a.End() < b.off || (a.off == b.off && a.End() < b.End());
    forall h, j | 0 <= h < j < |r| && r[h].lba == r[j].lba && Head(r, h)
      ensures r[h].off <= r[j].off
    {
      assert s[h + 1] == r[h] && s[j + 1] == r[j];
      if h > 0 || a.lba != b.lba || a.End() < b.off {
        assert r[0] == b && (h > 0 && b.lba == r[h].lba ==> b.End() < r[h].off);
        assert forall i :: 1 <= i < h + 1 ==> s[i] == r[i - 1];
        assert Head(s, h + 1);
      }
    }
  }

  /** If no node starts before the first one of its chain, the fusing pass keeps the bytes. */
  lemma {:induction false} HeadsPrint(s: seq<Extent>, p: Spot)
    requires HeadsStart(s) && Positive(s) && p.Byte?
    ensures Covers(Coalesce(s), p) <==> Covers(s, p)
    decreases |s|
  {
    hide HeadsStart, Fused, Has, Positive;
    if |s| >= 2 {
      CoversSplit(s, p);
      CoversSplit(s[1..], p);
      assert s[1..][1..] == s[2..];
      match Fused(s[0], s[1])
      case Some(e) =>
        FusedHeads(s, e);
        CoversCons(e, s[2..], p);
        HeadsPrint([e] + s[2..], p);
      case None =>
        Parted(s);
        CoversCons(s[0], Coalesce(s[1..]), p);
        HeadsPrint(s[1..], p);
    }
  }

  lemma LeadsPrint(s: seq<Extent>, lo: int)
    requires Leads(s, lo) && Positive(s)
    ensures PrintsAll(s)
  {
    LeadsStart(s, lo);
    forall lba, b
      ensures Covers(Coalesce(s), Byte(lba, b)) <==> Covers(s, Byte(lba, b))
    {
      HeadsPrint(s, Byte(lba, b));
    }
  }

  /** What trimming `t` makes of a node. */
  function Rewritten(n: Extent, t: Extent): Extent {
    if n.lba == t.lba && !LeftExtends(t, n) && Contains(t, n) then t else n
  }

  lemma {:induction false} WalkRewrites(nodes: seq<Extent>, t: Extent, e: Extent)
    requires t.lba != 0
    ensures forall i :: 0 <= i < |nodes| ==> TrimWalk(nodes, t, e).0[i] == Rewritten(nodes[i], t)
  {
    if nodes != [] {
      WalkRewrites(nodes[1..], t, TrimNode(nodes[0], t, e).1);
    }
  }

  /** A trimmed pair keeps its starts and ends in order. */
  lemma PairKeepsOrder(m: Extent, n: Extent, t: Extent, lo: int)
    requires m.lba == n.lba && 0 < m.len && 0 < n.len && 0 < t.len && lo <= m.off <= n.off && lo <= t.off
    requires m.off == lo || m.End() <= n.End()
    ensures Rewritten(m, t).off <= Rewritten(n, t).off
    ensures Rewritten(m, t).off == lo || Rewritten(m, t).End() <= Rewritten(n, t).End()
  {
  }

  lemma Grown(n: Extent, t: Extent)
    ensures Rewritten(n, t).lba == n.lba && Rewritten(n, t).off <= n.off && n.End() <= Rewritten(n, t).End()
  {
  }

  /** Trimming an entry keeps the chains led by their first nodes. */
  lemma WalkKeepsLeads(nodes: seq<Extent>, t: Extent, lo: int)
    requires Leads(nodes, lo) && Positive(nodes) && From(nodes, lo) && 0 < t.len && lo <= t.off
    ensures Leads(TrimWalk(nodes, t, t).0, lo) && From(TrimWalk(nodes, t, t).0, lo)
  {
    if t.lba != 0 {
      hide TrimWalk, Rewritten;
      var r := TrimWalk(nodes, t, t).0;
      WalkRewrites(nodes, t, t);
      forall i | 0 <= i < |nodes|
        ensures r[i].lba == nodes[i].lba && r[i].off <= nodes[i].off && nodes[i].End() <= r[i].End()
        ensures 0 < nodes[i].len && lo <= nodes[i].off && lo <= r[i].off
      {
        Grown(nodes[i], t);
        assert nodes[i] in nodes;
        StaysFrom(nodes[i], t, lo);
      }
      forall h, j | 0 <= h < j < |r| && r[h].lba == r[j].lba && Head(r, h)
        ensures r[h].off <= r[j].off && (r[h].off == lo || r[h].End() <= r[j].End())
      {
        forall i | 0 <= i < h && nodes[i].lba == nodes[h].lba
          ensures nodes[i].End() < nodes[h].off
        {
          assert r[i].End() < r[h].off;
        }
        assert Head(nodes, h);
        PairKeepsOrder(nodes[h], nodes[j], t, lo);
      }
    }
  }

  lemma StaysFrom(n: Extent, t: Extent, lo: int)
    requires lo <= n.off && lo <= t.off
    ensures lo <= Rewritten(n, t).off
  {
  }

  lemma {:induction false} BatchKeepsLeads(nodes: seq<Extent>, batch: seq<Extent>, lo: int)
    requires Leads(nodes, lo) && Positive(nodes) && From(nodes, lo) && Positive(batch) && From(batch, lo)
    ensures Leads(TrimBatch(nodes, batch).0, lo) && From(TrimBatch(nodes, batch).0, lo)
    decreases |batch|
  {
    hide TrimWalk, Leads;
    if batch != [] {
      WalkKeepsLeads(nodes, batch[0], lo);
      TrimWalkKeepsPositive(nodes, batch[0], batch[0]);
      BatchKeepsLeads(TrimWalk(nodes, batch[0], batch[0]).0, batch[1..], lo);
    }
  }

  lemma {:induction false} WalkKeepsFrom(nodes: seq<Extent>, t: Extent, e: Extent, lo: int)
    requires From(nodes, lo) && Positive(nodes) && lo <= t.off && lo <= e.off
    ensures From(TrimWalk(nodes, t, e).0, lo) && lo <= TrimWalk(nodes, t, e).1.off
  {
    if nodes != [] && t.lba != 0 {
      assert nodes[0] in nodes;
      WalkKeepsFrom(nodes[1..], t, TrimNode(nodes[0], t, e).1, lo);
    }
  }

  lemma {:induction false} BatchKeepsFrom(nodes: seq<Extent>, batch: seq<Extent>, lo: int)
    requires From(nodes, lo) && Positive(nodes) && From(batch, lo) && Positive(batch)
    ensures From(TrimBatch(nodes, batch).0, lo) && From(TrimBatch(nodes, batch).1, lo)
    decreases |batch|
  {
    hide TrimWalk;
    if batch != [] {
      WalkKeepsFrom(nodes, batch[0], batch[0], lo);
      TrimWalkKeepsPositive(nodes, batch[0], batch[0]);
      BatchKeepsFrom(TrimWalk(nodes, batch[0], batch[0]).0, batch[1..], lo);
    }
  }

  /** The groups that have been closed. */
  ghost predicate AllLead(groups: seq<seq<Extent>>, lo: int) {
    forall g :: g in groups ==> Leads(g, lo) && From(g, lo)
  }

  lemma {:induction false} GroupsKeepLeads(groups: seq<seq<Extent>>, batch: seq<Extent>, lo: int)
    requires AllLead(groups, lo) && (forall g :: g in groups ==> Positive(g)) && Positive(batch) && From(batch, lo)
    ensures AllLead(TrimGroups(groups, batch).0, lo) && From(TrimGroups(groups, batch).1, lo)
  {
    hide TrimBatch, Leads;
    if groups != [] {
      BatchKeepsLeads(groups[0], batch, lo);
      BatchKeepsFrom(groups[0], batch, lo);
      TrimBatchKeepsPositive(groups[0], batch);
      GroupsKeepLeads(groups[1..], TrimBatch(groups[0], batch).1, lo);
    }
  }

  lemma {:induction false} InsertsKeepFrom(s: seq<Extent>, ts: seq<Extent>, lo: int)
    requires From(s, lo) && From(ts, lo)
    ensures From(InsertAll(s, ts), lo)
    decreases |ts|
  {
    hide Insert;
    if ts != [] {
      InsertKeepsFrom(s, ts[0], lo);
      InsertsKeepFrom(Insert(s, ts[0]), ts[1..], lo);
    }
  }

  lemma {:induction false} InsertKeepsFrom(s: seq<Extent>, t: Extent, lo: int)
    requires From(s, lo) && lo <= t.off
    ensures From(Insert(s, t), lo)
  {
    if s != [] {
      assert s[0] in s && forall e :: e in s[1..] ==> e in s;
      InsertKeepsFrom(s[1..], t, lo);
    }
  }

  lemma {:induction false} KeptFrom(batch: seq<Extent>, lo: int)
    requires From(batch, lo)
    ensures From(Kept(batch), lo)
  {
    if batch != [] {
      KeptFrom(batch[1..], lo);
    }
  }

  // ----- whole runs -----

  /** Every group has its chains led by their first nodes when it stops being the current one. */
  ghost predicate ClosesLed(g: Groups, events: seq<Event>, lo: int)
    decreases |events|
  {
    events == [] || ((events[0].NewGroup? ==> Leads(g.current, lo)) && ClosesLed(Step(g, events[0]), events[1..], lo))
  }

  /** Entries are nonempty and start at `lo` or later. */
  ghost predicate Proper(events: seq<Event>, lo: int) {
    forall i :: 0 <= i < |events| && events[i].Batch? ==> Positive(events[i].entries) && From(events[i].entries, lo)
  }

  ghost predicate Printed(g: Groups, p: Spot) {
    Covers(Coalesce(g.current), p) || exists e :: e in g.earlier && Covers(Coalesce(e), p)
  }

  lemma StepKeepsLeads(g: Groups, ev: Event, lo: int)
    requires WellFormed(g) && AllLead(g.earlier, lo) && From(g.current, lo)
    requires ev.Batch? ==> Positive(ev.entries) && From(ev.entries, lo)
    requires ev.NewGroup? ==> Leads(g.current, lo)
    ensures AllLead(Step(g, ev).earlier, lo) && From(Step(g, ev).current, lo)
  {
    hide Leads, TrimGroups, From, InsertAll;
    if ev.Batch? {
      GroupsKeepLeads(g.earlier, ev.entries, lo);
      KeptFrom(TrimGroups(g.earlier, ev.entries).1, lo);
      InsertsKeepFrom(g.current, Kept(TrimGroups(g.earlier, ev.entries).1), lo);
    } else {
      assert forall e :: e in g.earlier + [g.current] <==> e in g.earlier || e == g.current;
      NothingFrom(lo);
    }
  }

  lemma NothingFrom(lo: int)
    ensures From([], lo)
  {
  }

  lemma AllPrints(g: Groups, p: Spot, lo: int)
    requires WellFormed(g) && AllLead(g.earlier, lo) && p.Byte? && Prefetched(g, p)
    ensures Printed(g, p)
  {
    hide Coalesce, Sorted, Leads, From;
    if Covers(g.current, p) {
      CoalesceCovers(g.current, p);
    } else {
      var e :| e in g.earlier && Covers(e, p);
      LeadsPrint(e, lo);
      assert Covers(Coalesce(e), Byte(p.lba, p.at));
    }
  }

  /** In every run whose groups have their chains led by the first nodes when they are closed, each
      byte that was ever queued is printed at the end, whatever trimming did to the groups. */
  lemma {:induction false} RunPrintsTheBytes(g: Groups, events: seq<Event>, p: Spot, lo: int)
    requires WellFormed(g) && AllLead(g.earlier, lo) && From(g.current, lo) && ClosesLed(g, events, lo)
    requires Proper(events, lo) && p.Byte?
    ensures Prefetched(g, p) || Queued(events, p) ==> Printed(Run(g, events), p)
    decreases |events|
  {
    hide Step, Printed, Leads, From;
    if events == [] {
      if Prefetched(g, p) { AllPrints(g, p, lo); }
    } else {
      StepKeeps(g, events[0], p);
      StepKeepsLeads(g, events[0], lo);
      RunPrintsTheBytes(Step(g, events[0]), events[1..], p, lo);
      if Queued(events, p) {
        var i :| 0 <= i < |events| && events[i].Batch? && Covers(Kept(events[i].entries), p);
        assert i > 0 ==> events[1..][i - 1] == events[i];
      }
    }
  }

  // ----- why the order is needed -----

  lemma TrimTwo(a: Extent, b: Extent, t: Extent)
    requires t.lba != 0
    ensures TrimWalk([a, b], t, t).0 == [Rewritten(a, t), Rewritten(b, t)]
  {
    WalkRewrites([a, b], t, t);
  }

  lemma PairPrints(a: Extent, b: Extent)
    requires 0 < a.len && 0 < b.len
    ensures PrintsAll([a, b]) <==> !(a.lba == b.lba && b.off < a.off <= b.End() < a.End())
  {
    FusingLosesExactly(a, b);
  }

  /** Two nodes in order are printed in full after trimming by any one entry that does not start
      before `lo` if and only if the first one starts there, or ends at most one byte after the
      second. */
  lemma OneTrimPrintsExactly(a: Extent, b: Extent, lo: int)
    requires a.lba == b.lba != 0 && lo <= a.off < b.off && 0 < a.len && 0 < b.len
    ensures (forall t: Extent :: lo <= t.off && 0 < t.len ==> PrintsAll(TrimWalk([a, b], t, t).0))
            <==> a.off == lo || a.End() <= b.End() + 1
  {
    hide PrintsAll, TrimWalk;
    if a.off == lo || a.End() <= b.End() + 1 {
      forall t: Extent | lo <= t.off && 0 < t.len
        ensures PrintsAll(TrimWalk([a, b], t, t).0)
      {
        if t.lba != 0 {
          TrimTwo(a, b, t);
          PairPrints(Rewritten(a, t), Rewritten(b, t));
        } else {
          NothingTrimmed([a, b], t);
          PairPrints(a, b);
        }
      }
    } else {
      var t := Extent(a.lba, a.off - 1, a.len);
      TrimTwo(a, b, t);
      PairPrints(a, t);
    }
  }

  lemma NothingTrimmed(nodes: seq<Extent>, t: Extent)
    requires t.lba == 0
    ensures TrimWalk(nodes, t, t).0 == nodes
  {
  }

  lemma BatchCons(nodes: seq<Extent>, t: Extent, rest: seq<Extent>)
    ensures var (nodes', e) := TrimWalk(nodes, t, t);
            var (nodes'', batch) := TrimBatch(nodes', rest);
            TrimBatch(nodes, [t] + rest) == (nodes'', [e] + batch)
  {
    hide TrimWalk;
    assert ([t] + rest)[1..] == rest;
  }

  lemma BatchOfTwo(nodes: seq<Extent>, t: Extent, u: Extent)
    ensures var (nodes', e) := TrimWalk(nodes, t, t);
            var (nodes'', f) := TrimWalk(nodes', u, u);
            TrimBatch(nodes, [t, u]) == (nodes'', [e, f])
  {
    hide TrimWalk;
    BatchCons(nodes, t, [u]);
    var (m, e) := TrimWalk(nodes, t, t);
    var (m', f) := TrimWalk(m, u, u);
    BatchCons(m, u, []);
    assert TrimBatch(m', []) == (m', []);
    assert [t] + [u] == [t, u] && [u] + [] == [u] && [f] + [] == [f] && [e] + [f] == [e, f];
  }

  lemma TwoLead(a: Extent, b: Extent, lo: int)
    requires a.lba == b.lba && lo <= a.off < b.off && 0 < a.len && 0 < b.len && (a.off == lo || a.End() <= b.End())
    ensures Leads([a, b], lo) && Positive([a, b]) && From([a, b], lo)
  {
  }

  /** They are printed in full after any trimming, by however many entries, if and only if the first
      one starts at `lo` or does not end after the second. */
  lemma AnyTrimPrintsExactly(a: Extent, b: Extent, lo: int)
    requires a.lba == b.lba != 0 && lo <= a.off < b.off && 0 < a.len && 0 < b.len
    ensures (forall batch :: Positive(batch) && From(batch, lo) ==> PrintsAll(TrimBatch([a, b], batch).0))
            <==> a.off == lo || a.End() <= b.End()
  {
    hide PrintsAll, TrimWalk, Leads;
    if a.off == lo || a.End() <= b.End() {
      TwoLead(a, b, lo);
      forall batch | Positive(batch) && From(batch, lo)
        ensures PrintsAll(TrimBatch([a, b], batch).0)
      {
        BatchKeepsLeads([a, b], batch, lo);
        TrimBatchKeepsPositive([a, b], batch);
        LeadsPrint(TrimBatch([a, b], batch).0, lo);
      }
    } else {
      var t, u := Extent(a.lba, a.off - 1, a.len + 1), Extent(a.lba, a.off, a.len + 1);
      TrimTwo(a, b, t);
      TrimTwo(a, t, u);
      BatchOfTwo([a, b], t, u);
      PairPrints(u, t);
      assert Positive([t, u]) && From([t, u], lo) && TrimBatch([a, b], [t, u]).0 == [u, t];
    }
  }

  /** A run from nothing, readable all along, in which a group is closed out of order, rewritten, and
      then does not print a byte that was queued. */
  lemma RunLosesAByte()
    ensures var events := [Batch([Extent(1, 6, 2), Extent(1, 10, 5), Extent(1, 7, 23)]), NewGroup,
                           Batch([Extent(1, 5, 15), Extent(2, 0, 1)])];
            var start, end := Groups([], []), Groups([[Extent(1, 6, 24), Extent(1, 5, 15)]], [Extent(2, 0, 1)]);
            && AllReadable(start, events) && Run(start, events) == end
            && Queued(events, Byte(1, 29)) && !Printed(end, Byte(1, 29))
  {
    hide TrimGroups, InsertAll, Kept, Covers, Coalesce, TrimBatch;
    var first, second := [Extent(1, 6, 2), Extent(1, 10, 5), Extent(1, 7, 23)], [Extent(1, 5, 15), Extent(2, 0, 1)];
    var group := [Extent(1, 6, 24), Extent(1, 10, 5)];
    var start, mid := Groups([], []), Groups([group], []);
    var events := [Batch(first), NewGroup, Batch(second)];
    FirstGroup(first[0], first[1], first[2]);
    SecondBatch(second[0], second[1]);
    NoGroups(first);
    assert events[1..] == [NewGroup, Batch(second)] && events[1..][1..] == [Batch(second)];
    assert [Batch(second)][1..] == [];
    assert Step(start, events[0]) == Groups([], group) && Step(Groups([], group), NewGroup) == mid;
    LostByte();
    assert events[0].entries == first;
  }

  lemma NoGroups(batch: seq<Extent>)
    ensures TrimGroups([], batch) == ([], batch)
  {
  }

  lemma LostByte()
    ensures Covers(Kept([Extent(1, 6, 2), Extent(1, 10, 5), Extent(1, 7, 23)]), Byte(1, 29))
    ensures !Covers(Coalesce([Extent(1, 6, 24), Extent(1, 5, 15)]), Byte(1, 29))
    ensures !Covers(Coalesce([Extent(2, 0, 1)]), Byte(1, 29))
  {
    var c, t := Extent(1, 7, 23), Extent(1, 5, 15);
    FirstGroup(Extent(1, 6, 2), Extent(1, 10, 5), c);
    assert c in [Extent(1, 6, 2), Extent(1, 10, 5), c] && Has(c, Byte(1, 29));
    assert [Extent(1, 6, 24), t][2..] == [] && Coalesce([Extent(1, 5, 24)]) == [Extent(1, 5, 24)];
    assert Coalesce([Extent(1, 6, 24), t]) == [Extent(1, 5, 24)];
  }

  lemma FirstGroup(a: Extent, b: Extent, c: Extent)
    requires a == Extent(1, 6, 2) && b == Extent(1, 10, 5) && c == Extent(1, 7, 23)
    ensures Kept([a, b, c]) == [a, b, c] && InsertAll([], [a, b, c]) == [Extent(1, 6, 24), b]
  {
    assert [a, b][1..] == [b] && [a, b, c][1..] == [b, c] && [b, c][1..] == [c] && [c][1..] == [];
    assert Kept([c]) == [c] && Kept([b, c]) == [b, c];
    assert Insert([], a) == [a] && Insert([a], b) == [a, b];
    assert Insert([a, b], c) == [Extent(1, 6, 24), b];
    assert InsertAll([], [a, b, c]) == InsertAll([a], [b, c]) == InsertAll([a, b], [c]);
  }

  lemma SecondBatch(t: Extent, d: Extent)
    requires t == Extent(1, 5, 15) && d == Extent(2, 0, 1)
    ensures var group := [Extent(1, 6, 24), Extent(1, 10, 5)];
            && TrimGroups([group], [t, d]) == ([[Extent(1, 6, 24), t]], [Extent(0, 5, 1), d])
            && Kept([Extent(0, 5, 1), d]) == [d] && InsertAll([], [d]) == [d]
  {
    var a, b, gone := Extent(1, 6, 24), Extent(1, 10, 5), Extent(0, 5, 1);
    TwoWalks(a, b, t, d);
    BatchOfTwo([a, b], t, d);
    assert [[a, b]][1..] == [] && [[a, t]] + [] == [[a, t]];
    assert [gone, d][1..] == [d] && [d][1..] == [] && Kept([d]) == [d];
    assert Insert([], d) == [d] && InsertAll([], [d]) == InsertAll([d], []);
  }

  lemma TwoWalks(a: Extent, b: Extent, t: Extent, d: Extent)
    requires a == Extent(1, 6, 24) && b == Extent(1, 10, 5) && t == Extent(1, 5, 15) && d == Extent(2, 0, 1)
    ensures TrimWalk([a, b], t, t) == ([a, t], Extent(0, 5, 1)) && TrimWalk([a, t], d, d) == ([a, t], d)
  {
    hide TrimWalk;
    WalkCons(a, [b], t, t);
    WalkCons(b, [], t, Extent(1, 5, 1));
    WalkCons(a, [t], d, d);
    WalkCons(t, [], d, d);
    WalkNothing(t, Extent(0, 5, 1));
    WalkNothing(d, d);
    assert [a] + [b] == [a, b] && [b] + [] == [b] && [a] + [t] == [a, t] && [t] + [] == [t];
  }

  lemma WalkNothing(t: Extent, e: Extent)
    ensures TrimWalk([], t, e) == ([], e)
  {
  }
}
