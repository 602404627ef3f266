/** The 64-bit analyzer's plan, on values: before a batch goes into the current group, its
    entries are trimmed against the groups before it, so that no group repeats what an
    earlier one already prefetches. An entry whose lba has become 0 is skipped from then on. */
module CrossGroupPlan {
  import opened Extents
  import opened BurstPlan

  /** One node `n` of an earlier group against entry `t`. The comparisons use `t`, the copy
      taken before the walk; the updates go to `e`, the entry in the queue. */
  function TrimNode(n: Extent, t: Extent, e: Extent): (Extent, Extent) {
    if n.lba != t.lba then (n, e)
    else if LeftExtends(t, n) then (n, Extent(e.lba, e.off, n.off - t.off))
    else if Contains(t, n) then (Extent(n.lba, t.off, t.len), Extent(0, e.off, e.len))
    else if RightExtends(t, n) then (n, Extent(e.lba, n.End(), t.End() - n.End()))
    else if Contains(n, t) then (n, Extent(0, e.off, e.len))
    else (n, e)
  }

  function TrimWalk(nodes: seq<Extent>, t: Extent, e: Extent): (r: (seq<Extent>, Extent))
    ensures |r.0| == |nodes|
  {
    if nodes == [] || t.lba == 0 then (nodes, e)
    else
      var (n, e1) := TrimNode(nodes[0], t, e);
      var (rest, e2) := TrimWalk(nodes[1..], t, e1);
      ([n] + rest, e2)
  }

  function TrimBatch(nodes: seq<Extent>, batch: seq<Extent>): (r: (seq<Extent>, seq<Extent>))
    ensures |r.0| == |nodes| && |r.1| == |batch|
    decreases |batch|
  {
    if batch == [] then (nodes, [])
    else
      var (nodes1, e) := TrimWalk(nodes, batch[0], batch[0]);
      var (nodes2, rest) := TrimBatch(nodes1, batch[1..]);
      (nodes2, [e] + rest)
  }

  function TrimGroups(groups: seq<seq<Extent>>, batch: seq<Extent>): (r: (seq<seq<Extent>>, seq<Extent>))
    ensures |r.0| == |groups| && |r.1| == |batch|
  {
    if groups == [] then ([], batch)
    else
      var (g, b1) := TrimBatch(groups[0], batch);
      var (rest, b2) := TrimGroups(groups[1..], b1);
      ([g] + rest, b2)
  }

  /** The entries that are still to be inserted. */
  function Kept(batch: seq<Extent>): seq<Extent> {
    if batch == [] then []
    else if batch[0].lba == 0 then Kept(batch[1..])
    else [batch[0]] + Kept(batch[1..])
  }

  // ----- no byte is lost -----

  /** Byte `p` is in a node, or still waits in an entry. */
  ghost predicate Available(nodes: seq<Extent>, batch: seq<Extent>, p: Spot) {
    Covers(nodes, p) || Covers(Kept(batch), p)
  }

  /** The state of one entry's walk: `e` is what is left of `t`, and it has not been moved to
      the left. A byte of `t` is in `e` unless the nodes passed so far have it (`done`). */
  ghost predicate Remains(t: Extent, e: Extent, done: bool, p: Spot) {
    && (e.lba == t.lba || e.lba == 0) && t.off <= e.off
    && (Has(t, p) ==> done || (e.lba == t.lba && Has(e, p)))
  }

  lemma TrimNodeKeeps(n: Extent, t: Extent, e: Extent, done: bool, p: Spot)
    requires p.Byte? && t.lba != 0 && Remains(t, e, done, p)
    ensures Remains(t, TrimNode(n, t, e).1, done || Has(TrimNode(n, t, e).0, p), p)
    ensures Has(n, p) ==> Has(TrimNode(n, t, e).0, p)
  {
  }

  /** Whatever updates an earlier node made to the entry, the comparisons with the stale copy
      leave every byte of it in the entry or in a node. */
  lemma {:induction false} TrimWalkKeeps(nodes: seq<Extent>, t: Extent, e: Extent, done: bool, p: Spot)
    requires p.Byte? && t.lba != 0 && Remains(t, e, done, p)
    ensures var (nodes', e') := TrimWalk(nodes, t, e);
            && (Covers(nodes, p) ==> Covers(nodes', p))
            && Remains(t, e', done || Covers(nodes', p), p)
  {
    if nodes != [] {
      var (n, e1) := TrimNode(nodes[0], t, e);
      var (rest, e2) := TrimWalk(nodes[1..], t, e1);
      TrimNodeKeeps(nodes[0], t, e, done, p);
      TrimWalkKeeps(nodes[1..], t, e1, done || Has(n, p), p);
      CoversSplit(nodes, p);
      CoversCons(n, rest, p);
    }
  }

  lemma {:induction false} TrimBatchKeeps(nodes: seq<Extent>, batch: seq<Extent>, p: Spot)
    requires p.Byte?
    ensures var (nodes', batch') := TrimBatch(nodes, batch);
            && (Covers(nodes, p) ==> Covers(nodes', p))
            && (Available(nodes, batch, p) ==> Available(nodes', batch', p))
    decreases |batch|
  {
    if batch != [] {
      var t := batch[0];
      var (nodes1, e) := TrimWalk(nodes, t, t);
      var (nodes2, rest) := TrimBatch(nodes1, batch[1..]);
      if t.lba != 0 {
        TrimWalkKeeps(nodes, t, t, false, p);
      }
      TrimBatchKeeps(nodes1, batch[1..], p);
      KeptCovers(batch, p);
      KeptCovers([e] + rest, p);
    }
  }

  lemma KeptCovers(batch: seq<Extent>, p: Spot)
    requires batch != []
    ensures Covers(Kept(batch), p) <==> (batch[0].lba != 0 && Has(batch[0], p)) || Covers(Kept(batch[1..]), p)
  {
    CoversCons(batch[0], Kept(batch[1..]), p);
  }

  ghost predicate SomeCovers(groups: seq<seq<Extent>>, p: Spot) {
    exists g :: g in groups && Covers(g, p)
  }

  lemma SomeCoversCons(g: seq<Extent>, groups: seq<seq<Extent>>, p: Spot)
    ensures SomeCovers([g] + groups, p) <==> Covers(g, p) || SomeCovers(groups, p)
  {
    assert forall h :: h in [g] + groups <==> h == g || h in groups;
  }

  lemma {:induction false} TrimGroupsKeep(groups: seq<seq<Extent>>, batch: seq<Extent>, p: Spot)
    requires p.Byte?
    ensures var (groups', batch') := TrimGroups(groups, batch);
            && (SomeCovers(groups, p) ==> SomeCovers(groups', p))
            && (Covers(Kept(batch), p) ==> SomeCovers(groups', p) || Covers(Kept(batch'), p))
  {
    if groups != [] {
      var (g, b1) := TrimBatch(groups[0], batch);
      var (rest, b2) := TrimGroups(groups[1..], b1);
      TrimBatchKeeps(groups[0], batch, p);
      TrimGroupsKeep(groups[1..], b1, p);
      SomeCoversCons(g, rest, p);
      SomeCoversCons(groups[0], groups[1..], p);
      assert groups == [groups[0]] + groups[1..];
    }
  }

  // ----- lengths stay positive -----

  lemma {:induction false} TrimWalkKeepsPositive(nodes: seq<Extent>, t: Extent, e: Extent)
    requires Positive(nodes) && 0 < t.len && 0 < e.len
    ensures Positive(TrimWalk(nodes, t, e).0) && 0 < TrimWalk(nodes, t, e).1.len
  {
    if nodes != [] && t.lba != 0 {
      TrimWalkKeepsPositive(nodes[1..], t, TrimNode(nodes[0], t, e).1);
    }
  }

  lemma {:induction false} TrimBatchKeepsPositive(nodes: seq<Extent>, batch: seq<Extent>)
    requires Positive(nodes) && Positive(batch)
    ensures Positive(TrimBatch(nodes, batch).0) && Positive(TrimBatch(nodes, batch).1)
    decreases |batch|
  {
    if batch != [] {
      TrimWalkKeepsPositive(nodes, batch[0], batch[0]);
      TrimBatchKeepsPositive(TrimWalk(nodes, batch[0], batch[0]).0, batch[1..]);
    }
  }

  lemma {:induction false} TrimGroupsKeepPositive(groups: seq<seq<Extent>>, batch: seq<Extent>)
    requires (forall g :: g in groups ==> Positive(g)) && Positive(batch)
    ensures var (groups', batch') := TrimGroups(groups, batch);
            (forall g :: g in groups' ==> Positive(g)) && Positive(batch')
  {
    if groups != [] {
      TrimBatchKeepsPositive(groups[0], batch);
      TrimGroupsKeepPositive(groups[1..], TrimBatch(groups[0], batch).1);
    }
  }

  lemma {:induction false} KeptPositive(batch: seq<Extent>)
    requires Positive(batch)
    ensures Positive(Kept(batch))
  {
    if batch != [] {
      KeptPositive(batch[1..]);
    }
  }

  // ----- the whole operation -----

  // ----- what earlier groups have is not planned again -----

  /** All of `x` is in one node. */
  ghost predicate Inside(nodes: seq<Extent>, x: Extent) {
    exists n :: n in nodes && n.lba == x.lba && n.off <= x.off && x.End() <= n.End()
  }

  lemma {:induction false} DroppedStays(nodes: seq<Extent>, t: Extent, e: Extent)
    requires e.lba == 0
    ensures TrimWalk(nodes, t, e).1.lba == 0
  {
    if nodes != [] && t.lba != 0 {
      DroppedStays(nodes[1..], t, TrimNode(nodes[0], t, e).1);
    }
  }

  lemma {:induction false} InsideIsDropped(nodes: seq<Extent>, t: Extent, e: Extent)
    requires t.lba != 0 && Inside(nodes, t)
    ensures TrimWalk(nodes, t, e).1.lba == 0
  {
    var n :| n in nodes && n.lba == t.lba && n.off <= t.off && t.End() <= n.End();
    var e' := TrimNode(nodes[0], t, e).1;
    if n == nodes[0] {
      DroppedStays(nodes[1..], t, e');
    } else {
      assert n in nodes[1..];
      InsideIsDropped(nodes[1..], t, e');
    }
  }

  lemma {:induction false} WalkKeepsInside(nodes: seq<Extent>, t: Extent, e: Extent, x: Extent)
    requires Inside(nodes, x)
    ensures Inside(TrimWalk(nodes, t, e).0, x)
  {
    if t.lba != 0 {
      var n :| n in nodes && n.lba == x.lba && n.off <= x.off && x.End() <= n.End();
      var (m, e') := TrimNode(nodes[0], t, e);
      var rest := TrimWalk(nodes[1..], t, e').0;
      if n == nodes[0] {
        assert m.lba == x.lba && m.off <= x.off && x.End() <= m.End() && m in [m] + rest;
      } else {
        assert n in nodes[1..];
        WalkKeepsInside(nodes[1..], t, e', x);
        var r :| r in rest && r.lba == x.lba && r.off <= x.off && x.End() <= r.End();
        assert r in [m] + rest;
      }
    }
  }

  /** An entry that is inside a node of a group is dropped when the queue is trimmed against it. */
  lemma {:induction false} BatchDropsInside(nodes: seq<Extent>, batch: seq<Extent>, i: nat)
    requires i < |batch| && (batch[i].lba == 0 || Inside(nodes, batch[i]))
    ensures TrimBatch(nodes, batch).1[i].lba == 0
    decreases i
  {
    hide TrimWalk, Inside;
    var t := batch[0];
    if i == 0 {
      if t.lba == 0 { DroppedStays(nodes, t, t); } else { InsideIsDropped(nodes, t, t); }
    } else {
      if batch[i].lba != 0 { WalkKeepsInside(nodes, t, t, batch[i]); }
      BatchDropsInside(TrimWalk(nodes, t, t).0, batch[1..], i - 1);
    }
  }

  lemma {:induction false} GroupsKeepDropped(groups: seq<seq<Extent>>, batch: seq<Extent>, i: nat)
    requires i < |batch| && batch[i].lba == 0
    ensures TrimGroups(groups, batch).1[i].lba == 0
  {
    hide TrimBatch;
    if groups != [] {
      BatchDropsInside(groups[0], batch, i);
      GroupsKeepDropped(groups[1..], TrimBatch(groups[0], batch).1, i);
    }
  }

  /** What the groups before the k-th leave of an entry is dropped if it is inside a node of the k-th. */
  lemma {:induction false} GroupsDropInside(groups: seq<seq<Extent>>, batch: seq<Extent>, k: nat, i: nat)
    requires k < |groups| && i < |batch|
    requires Inside(groups[k], TrimGroups(groups[..k], batch).1[i])
    ensures TrimGroups(groups, batch).1[i].lba == 0
    decreases k
  {
    hide TrimBatch, Inside;
    var b := TrimBatch(groups[0], batch).1;
    if k == 0 {
      BatchDropsInside(groups[0], batch, i);
      GroupsKeepDropped(groups[1..], b, i);
    } else {
      assert groups[..k][1..] == groups[1..][..k - 1] && groups[..k][0] == groups[0];
      GroupsDropInside(groups[1..], b, k - 1, i);
    }
  }

  lemma {:induction false} AllDropped(batch: seq<Extent>)
    requires forall i :: 0 <= i < |batch| ==> batch[i].lba == 0
    ensures Kept(batch) == []
  {
    if batch != [] { AllDropped(batch[1..]); }
  }

  /** Group k has all that the groups before it leave of the i-th entry. */
  ghost predicate HasAlready(earlier: seq<seq<Extent>>, batch: seq<Extent>, k: nat, i: nat) {
    k < |earlier| && i < |batch| && Inside(earlier[k], TrimGroups(earlier[..k], batch).1[i])
  }

  /** A batch of reads that earlier groups already have, the i-th one group ks[i], leaves the current
      group as it is. */
  lemma DuplicatesAreDropped(earlier: seq<seq<Extent>>, current: seq<Extent>, batch: seq<Extent>, ks: seq<nat>)
    requires |ks| == |batch| && forall i :: 0 <= i < |batch| ==> HasAlready(earlier, batch, ks[i], i)
    ensures AppendAcross(earlier, current, batch).1 == current
  {
    hide TrimGroups, Inside;
    var b := TrimGroups(earlier, batch).1;
    forall i | 0 <= i < |batch|
      ensures b[i].lba == 0
    {
      GroupsDropInside(earlier, batch, ks[i], i);
    }
    AllDropped(b);
  }

  /** The groups before the current one, the current one, and what a batch does to them. */
  function AppendAcross(earlier: seq<seq<Extent>>, current: seq<Extent>, batch: seq<Extent>)
    : (seq<seq<Extent>>, seq<Extent>)
  {
    var (earlier', batch') := TrimGroups(earlier, batch);
    (earlier', InsertAll(current, Kept(batch')))
  }

  /** No byte that some group covered is lost, and every byte of a queued entry with an lba
      ends up in some group. */
  lemma AppendAcrossKeepsTheBytes(earlier: seq<seq<Extent>>, current: seq<Extent>, batch: seq<Extent>, p: Spot)
    requires p.Byte? && (forall g :: g in earlier ==> Positive(g)) && Positive(batch)
    requires Sorted(current) && Positive(current)
    ensures var (earlier', current') := AppendAcross(earlier, current, batch);
            && Sorted(current') && Positive(current') && (forall g :: g in earlier' ==> Positive(g))
            && (SomeCovers(earlier, p) ==> SomeCovers(earlier', p))
            && (Covers(current, p) ==> Covers(current', p))
            && (Covers(Kept(batch), p) ==> SomeCovers(earlier', p) || Covers(current', p))
  {
    var (earlier', batch') := TrimGroups(earlier, batch);
    TrimGroupsKeep(earlier, batch, p);
    TrimGroupsKeepPositive(earlier, batch);
    KeptPositive(batch');
    InsertAllKeeps(current, Kept(batch'), p);
    InsertAllKeepsPositive(current, Kept(batch'));
  }

  // ----- whole runs -----

  /** The groups so far. The last one is the one that batches go into. */
  datatype Groups = Groups(earlier: seq<seq<Extent>>, current: seq<Extent>)

  datatype Event = Batch(entries: seq<Extent>) | NewGroup

  function Step(g: Groups, ev: Event): Groups {
    match ev
    case Batch(entries) =>
      var (earlier, current) := AppendAcross(g.earlier, g.current, entries);
      Groups(earlier, current)
    case NewGroup => Groups(g.earlier + [g.current], [])
  }

  function Run(g: Groups, events: seq<Event>): Groups
    decreases |events|
  {
    if events == [] then g else Run(Step(g, events[0]), events[1..])
  }

  /** An empty current group scans the queue for an entry with an lba, and does not look at
      the count: it runs off the array unless trimming leaves such an entry. */
  predicate Readable(g: Groups, ev: Event) {
    ev.Batch? && g.current == [] ==> Kept(TrimGroups(g.earlier, ev.entries).1) != []
  }

  /** Every batch of the run can be read. */
  predicate AllReadable(g: Groups, events: seq<Event>)
    decreases |events|
  {
    events == [] || (Readable(g, events[0]) && AllReadable(Step(g, events[0]), events[1..]))
  }

  ghost predicate WellFormed(g: Groups) {
    Sorted(g.current) && Positive(g.current) && forall e :: e in g.earlier ==> Positive(e)
  }

  ghost predicate Prefetched(g: Groups, p: Spot) {
    SomeCovers(g.earlier, p) || Covers(g.current, p)
  }

  ghost predicate Queued(events: seq<Event>, p: Spot) {
    exists i :: 0 <= i < |events| && events[i].Batch? && Covers(Kept(events[i].entries), p)
  }

  lemma StepKeeps(g: Groups, ev: Event, p: Spot)
    requires WellFormed(g) && p.Byte? && (ev.Batch? ==> Positive(ev.entries))
    ensures WellFormed(Step(g, ev))
    ensures Prefetched(g, p) || (ev.Batch? && Covers(Kept(ev.entries), p)) ==> Prefetched(Step(g, ev), p)
  {
    if ev.Batch? {
      AppendAcrossKeepsTheBytes(g.earlier, g.current, ev.entries, p);
    } else {
      assert forall e :: e in g.earlier + [g.current] <==> e in g.earlier || e == g.current;
    }
  }

  /** In every run, each byte that was ever queued is in some group at the end. */
  lemma {:induction false} RunKeepsTheBytes(g: Groups, events: seq<Event>, p: Spot)
    requires WellFormed(g) && p.Byte?
    requires forall i :: 0 <= i < |events| && events[i].Batch? ==> Positive(events[i].entries)
    ensures WellFormed(Run(g, events))
    ensures Prefetched(g, p) || Queued(events, p) ==> Prefetched(Run(g, events), p)
    decreases |events|
  {
    if events != [] {
      StepKeeps(g, events[0], p);
      RunKeepsTheBytes(Step(g, events[0]), events[1..], p);
      if Queued(events, p) {
        var i :| 0 <= i < |events| && events[i].Batch? && Covers(Kept(events[i].entries), p);
        assert i > 0 ==> events[1..][i - 1] == events[i];
      }
    }
  }
}
