/** Assigning triggers to the lists of the chain, in place. */
module Triggers {
  import opened Sequences
  import opened Chains
  import opened ReadLists
  import opened Grouping
  import opened SideLists
  import opened TriggerPlan
  import opened Plans

  /** The first k groups are finished. */
  ghost function AssignedFrom(mm: seq<Mapping>, ts: seq<Trigger>, s: seq<Group>, k: nat): seq<Group>
    requires k <= |s|
  {
    s[..k] + Assigned(mm, ts, s[k..])
  }

  lemma AssignFold(mm: seq<Mapping>, ts: seq<Trigger>, s: seq<Group>, k: nat, b: Group)
    requires k + 1 < |s| && b == ScanBetween(mm, ts, s[k], s[k + 1])
    ensures b.bpOffset == 0 ==>
              AssignedFrom(mm, ts, s[..k] + ([Absorb(s[k], b)] + s[k + 2..]), k) == AssignedFrom(mm, ts, s, k)
    ensures b.bpOffset != 0 ==> AssignedFrom(mm, ts, s[k + 1 := b], k + 1) == AssignedFrom(mm, ts, s, k)
  {
    hide ScanBetween;
    var t := s[k..];
    assert t[0] == s[k] && t[1] == s[k + 1] && t[2..] == s[k + 2..];
    if b.bpOffset == 0 {
      var r := s[..k] + ([Absorb(s[k], b)] + s[k + 2..]);
      assert r[..k] == s[..k] && r[k..] == [Absorb(s[k], b)] + s[k + 2..];
    } else {
      var r := s[k + 1 := b];
      assert r[..k + 1] == s[..k] + [s[k]] && r[k + 1..] == [b] + s[k + 2..];
      Regroup(s[..k], s[k], Assigned(mm, ts, [b] + s[k + 2..]));
    }
  }

  lemma AssignEnds(mm: seq<Mapping>, ts: seq<Trigger>, s: seq<Group>, k: nat)
    requires k <= |s|
    ensures k == 0 ==> AssignedFrom(mm, ts, s, k) == Assigned(mm, ts, s)
    ensures |s| <= k + 1 ==> AssignedFrom(mm, ts, s, k) == s
  {
    assert s[..k] + s[k..] == s && s[0..] == s;
  }

  /** Look for the mapping that a trigger lies in. */
  method FindMapping(ml: List<Mapping>, t: Trigger, idleEnd: int) returns (r: Target)
    requires ml.Valid()
    ensures r == Resolve(ml.contents, t, idleEnd)
    ensures var mm := ml.contents;
            && (r.Target? ==>
                  exists k ::
                    && 0 <= k < |mm| && mm[k].startAddr <= t.retAddr <= mm[k].endAddr
                    && r == Target(mm[k].md, t.retAddr - mm[k].startAddr)
                    && (forall j :: 0 <= j < k ==> t.retAddr < mm[j].startAddr || mm[j].endAddr < t.retAddr)
                    && (forall j :: 0 <= j <= k ==> mm[j].ts <= t.ts && mm[j].ts <= idleEnd))
            && (r.NoTarget? ==>
                  forall k :: 0 <= k < |mm| && (forall j :: 0 <= j <= k ==> mm[j].ts <= t.ts && mm[j].ts <= idleEnd) ==>
                    t.retAddr < mm[k].startAddr || mm[k].endAddr < t.retAddr)
  {
    ResolveExactly(ml.contents, t, idleEnd);
    ghost var mm := ml.contents;
    var m := ml.head;
    ml.At(0);
    ghost var k := 0;
    assert mm[0..] == mm;
    while m != null
      invariant k <= |mm| == |ml.spine| && m == NodeAt(ml.spine, k)
      invariant Resolve(mm, t, idleEnd) == Resolve(mm[k..], t, idleEnd)
      decreases |mm| - k
    {
      ml.At(k);
      assert mm[k..][1..] == mm[k + 1..];
      if m.item.ts > t.ts {
        return NoTarget;
      }
      if m.item.ts > idleEnd {
        return NoTarget;
      }
      if m.item.startAddr <= t.retAddr && m.item.endAddr >= t.retAddr {
        return Target(m.item.md, t.retAddr - m.item.startAddr);
      }
      m, k := m.next, k + 1;
    }
    return NoTarget;
  }

  /** The triggers of one idle period: the first with a usable target gives it to `next`, the
      k-th list. */
  method ScanTriggers(plan: Plan, next: ReadList, tl: List<Trigger>, ml: List<Mapping>,
                      idleBegin: int, idleEnd: int, ghost k: nat)
    requires plan.Chained() && k < |plan.lists| && next == plan.lists[k] && tl.Valid() && ml.Valid()
    modifies plan`groups, next`isBurst, next`md, next`bpOffset
    ensures plan.Chained() && k < |plan.lists| == |plan.groups|
    ensures var s := old(plan.groups);
            plan.groups == s[k := Scan(ml.contents, tl.contents, idleBegin, idleEnd, s[k])]
  {
    hide Holds, Chains.Linked, Separate, Filled, InChain, Represent, Plan.Chained;
    ghost var mm, ts, gs := ml.contents, tl.contents, plan.groups;
    plan.At(k);
    ghost var g := gs[k];
    var tn := tl.head;
    ghost var j := 0;
    tl.At(0);
    assert ts[0..] == ts;
    while tn != null
      invariant plan.Chained() && tl.Valid() && ml.Valid()
      invariant tl.contents == ts && ml.contents == mm
      invariant j <= |ts| == |tl.spine| && tn == NodeAt(tl.spine, j)
      invariant plan.lists == old(plan.lists) && plan.groups == gs[k := g]
      invariant Scan(mm, ts[j..], idleBegin, idleEnd, g) == Scan(mm, ts, idleBegin, idleEnd, gs[k])
      decreases |ts| - j
    {
      tl.At(j);
      plan.At(k);
      assert ts[j..][1..] == ts[j + 1..];
      if tn.item.ts < idleBegin {
        tn, j := tn.next, j + 1;
        continue;
      }
      if tn.item.ts > idleEnd {
        break;
      }
      if next.bpOffset != 0 {
        break;
      }
      var r := FindMapping(ml, tn.item, idleEnd);
      if r.Target? {
        plan.SetTarget(next, r.md, r.bpOffset, k);
        g := g.(md := r.md, bpOffset := r.bpOffset);
      }
      tn, j := tn.next, j + 1;
    }
    plan.At(k);
  }

  /** One round: the boundary behind the k-th list is kept, or the list behind it absorbed. */
  method AssignOne(plan: Plan, rlist: ReadList, ml: List<Mapping>, tl: List<Trigger>, ghost k: nat)
      returns (r: ReadList, ghost k': nat)
    requires plan.Chained() && k + 1 < |plan.lists| && rlist == plan.lists[k] && tl.Valid() && ml.Valid()
    modifies plan`lists, plan`groups, plan.all
    ensures plan.Chained() && k' < |plan.lists| == |plan.groups| && r == plan.lists[k']
    ensures |plan.lists| - k' < |old(plan.lists)| - k
    ensures tl.Valid() && ml.Valid() && unchanged(tl, ml) && plan.all == old(plan.all)
    ensures k + 1 < |old(plan.groups)|
    ensures AssignedFrom(ml.contents, tl.contents, plan.groups, k')
            == AssignedFrom(ml.contents, tl.contents, old(plan.groups), k)
  {
    hide Holds, Chains.Linked, Separate, Filled, InChain, Represent, Plan.Chained, List.Valid,
         AssignedFrom, Assigned, Scan;
    ghost var mm, ts := ml.contents, tl.contents;
    plan.At(k);
    plan.At(k + 1);
    ghost var s := plan.groups;
    ghost var b := ScanBetween(mm, ts, s[k], s[k + 1]);
    ScanTriggers(plan, rlist.next, tl, ml, rlist.endTs, rlist.next.startTs, k + 1);
    assert plan.groups == s[k + 1 := b];
    plan.At(k);
    plan.At(k + 1);
    AssignFold(mm, ts, s, k, b);
    r, k' := rlist, k;
    if rlist.next.bpOffset == 0 {
      plan.AbsorbNext(rlist, k);
      assert plan.groups == s[..k] + ([Absorb(s[k], b)] + s[k + 2..]);
    } else {
      r, k' := rlist.next, k + 1;
    }
    plan.CountLists();
  }

  /** Assign triggers along the whole chain. */
  method SetTriggers(plan: Plan, ml: List<Mapping>, tl: List<Trigger>)
    requires plan.Chained() && plan.lists != [] && tl.Valid() && ml.Valid()
    modifies plan`lists, plan`groups, plan.all
    ensures plan.Chained() && unchanged(tl, ml)
    ensures var s := old(plan.groups);
            plan.groups == Assigned(ml.contents, tl.contents, s[0 := s[0].(md := 0, bpOffset := 0)])
  {
    hide Holds, Chains.Linked, Separate, Filled, InChain, Represent, Plan.Chained, List.Valid,
         AssignedFrom, Assigned, Scan;
    ghost var mm, ts := ml.contents, tl.contents;
    plan.At(0);
    plan.HeadIsFirst();
    var rlist := plan.head;
    plan.SetTarget(rlist, 0, 0, 0);
    ghost var gs := plan.groups;
    ghost var k: nat := 0;
    AssignEnds(mm, ts, gs, 0);
    plan.HeadIsFirst();
    plan.At(0);
    while rlist.next != null
      invariant plan.Chained() && tl.Valid() && ml.Valid() && unchanged(tl, ml) && plan.all == old(plan.all)
      invariant k < |plan.lists| == |plan.groups| && rlist == plan.lists[k] && rlist.next == ListAt(plan.lists, k + 1)
      invariant AssignedFrom(mm, ts, plan.groups, k) == Assigned(mm, ts, gs)
      decreases |plan.lists| - k
    {
      rlist, k := AssignOne(plan, rlist, ml, tl, k);
      plan.At(k);
    }
    AssignEnds(mm, ts, plan.groups, k);
  }
}
