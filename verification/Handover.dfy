/** From the log to the regrouped chain: the lists that batching has built are marked and put
    together. */
module Handover {
  import opened Chains
  import opened Merging
  import opened ReadQueues
  import opened ReadLists
  import opened Grouping
  import opened Batching
  import opened Plans

  /** All batches of a log that does not end with a full one. */
  ghost function Batches(accepted: seq<Read>): seq<Group>
    requires |accepted| % QUEUE_MAX != 0
  {
    var n := |accepted| / QUEUE_MAX;
    FullBatches(accepted, n) + [BatchOf(accepted, n)]
  }

  lemma BatchesAreTheReads(accepted: seq<Read>)
    requires |accepted| % QUEUE_MAX != 0
    ensures Items(Batches(accepted)) == accepted && Filled(Batches(accepted))
  {
    var n := |accepted| / QUEUE_MAX;
    var b := BatchOf(accepted, n);
    BatchesHoldTheReads(accepted, n);
    ItemsConcat(FullBatches(accepted, n), [b]);
    assert [b][1..] == [] && b.items + [] == b.items;
    assert accepted[..QUEUE_MAX * n] + accepted[QUEUE_MAX * n..] == accepted;
    assert forall i :: 0 <= i < n ==> |FullBatches(accepted, n)[i].items| == QUEUE_MAX;
  }

  /** The chain that the log has left is one that can be regrouped. */
  method TakePlan(a: Analyzer) returns (plan: Plan)
    requires a.Finished() && |a.q.accepted| % QUEUE_MAX != 0
    ensures fresh(plan) && plan.Valid() && plan.all == a.all && plan.groups == Batches(a.q.accepted)
  {
    hide Holds, Separate, Represent, Prepared, Chains.Linked, FullBatches, BatchOf, Filled;
    ghost var n := |a.lists| - 1;
    assert n == |a.q.accepted| / QUEUE_MAX;
    PreparedRepresents(a.lists, FullBatches(a.q.accepted, n), a.all, BatchOf(a.q.accepted, n));
    BatchesAreTheReads(a.q.accepted);
    plan := new Plan(a.head, a.tail, a.lists, Batches(a.q.accepted), a.all);
  }

  /** A list is a burst if its queueing time does not exceed the threshold. */
  ghost function Detected(s: seq<Group>, threshold: int): (r: seq<Group>)
    ensures |r| == |s|
  {
    seq(|s|, i requires 0 <= i < |s| => s[i].(isBurst := s[i].queueingTime <= threshold))
  }

  method DetectBursts(plan: Plan, threshold: int)
    requires plan.Valid()
    modifies plan`groups, plan.all
    ensures plan.Valid() && plan.all == old(plan.all) && plan.groups == Detected(old(plan.groups), threshold)
    ensures plan.lists == old(plan.lists) && |plan.groups| == |old(plan.groups)|
    ensures forall i :: 0 <= i < |plan.groups| ==>
              && (plan.groups[i].isBurst <==> old(plan.groups)[i].queueingTime <= threshold)
              && plan.groups[i] == old(plan.groups)[i].(isBurst := plan.groups[i].isBurst)
  {
    hide Holds, Separate, Represent, Chains.Linked, Filled, InChain, Plan.Chained;
    plan.HeadIsFirst();
    var tmp := plan.head;
    ghost var gs, k := plan.groups, 0;
    while tmp != null
      invariant plan.Chained() && plan.lists == old(plan.lists) && plan.all == old(plan.all)
      invariant plan.tail == old(plan.tail)
      invariant 0 <= k <= |plan.lists| == |plan.groups| == |gs| && tmp == ListAt(plan.lists, k)
      invariant forall i :: 0 <= i < k ==> plan.groups[i] == Detected(gs, threshold)[i]
      invariant forall i :: k <= i < |gs| ==> plan.groups[i] == gs[i]
      decreases |plan.lists| - k
    {
      plan.At(k);
      if tmp.queueingTime > threshold {
        plan.SetBurst(tmp, false, k);
      } else {
        plan.SetBurst(tmp, true, k);
      }
      plan.At(k);
      tmp, k := tmp.next, k + 1;
    }
  }

  /** The reads of the batches within the threshold. */
  ghost function BurstReads(accepted: seq<Read>, threshold: int): seq<Read>
    requires |accepted| % QUEUE_MAX != 0
  {
    Items(Bursts(Detected(Batches(accepted), threshold)))
  }

  lemma {:induction false} BurstItems(s: seq<Group>, r: Read)
    ensures r in Items(Bursts(s)) <==> exists i :: 0 <= i < |s| && s[i].isBurst && r in s[i].items
  {
    if s != [] {
      var rest := s[1..];
      BurstItems(rest, r);
      assert ([s[0]] + Bursts(rest))[1..] == Bursts(rest) && [] + Bursts(rest) == Bursts(rest);
      assert r in Items(Bursts(s)) <==> (s[0].isBurst && r in s[0].items) || r in Items(Bursts(rest));
      hide Items, Bursts;
      if i :| 0 <= i < |s| && s[i].isBurst && r in s[i].items {
        assert i > 0 ==> rest[i - 1] == s[i];
      }
      if i :| 0 <= i < |rest| && rest[i].isBurst && r in rest[i].items {
        assert s[i + 1] == rest[i];
      }
    }
  }

  /** These are the reads of the batches whose queueing time is within the threshold. */
  lemma BurstReadsAre(accepted: seq<Read>, threshold: int, r: Read)
    requires |accepted| % QUEUE_MAX != 0
    ensures r in BurstReads(accepted, threshold) <==>
            exists i :: 0 <= i < |Batches(accepted)| && Batches(accepted)[i].queueingTime <= threshold
                        && r in Batches(accepted)[i].items
  {
    hide Batches, Items, Bursts;
    var b, d := Batches(accepted), Detected(Batches(accepted), threshold);
    BurstItems(d, r);
    if i :| 0 <= i < |d| && d[i].isBurst && r in d[i].items {
      assert b[i].queueingTime <= threshold && r in b[i].items;
    }
    if i :| 0 <= i < |b| && b[i].queueingTime <= threshold && r in b[i].items {
      assert d[i].isBurst && r in d[i].items;
    }
  }

  /** From the end of the log to the regrouped chain: what is left are exactly the reads of the
      batches that came in fast enough, in the order of the log. */
  method RegroupLog(a: Analyzer, threshold: int) returns (plan: Plan, ok: bool)
    requires a.Finished() && |a.q.accepted| % QUEUE_MAX != 0
    modifies a.all
    ensures fresh(plan) && plan.Valid() && plan.all == old(a.all) && (ok <==> QUEUE_MAX < |old(a.q.accepted)|)
    ensures var marked := Detected(Batches(old(a.q.accepted)), threshold);
            && (ok && Bursts(marked) != [] ==>
                  && plan.groups == FuseAll(BurstRuns(marked))
                  && Items(plan.groups) == BurstReads(old(a.q.accepted), threshold))
            && (ok && Bursts(marked) == [] ==> plan.groups == [marked[|marked| - 1]])
            && (!ok ==> plan.groups == marked)
  {
    hide Plan.Valid, Analyzer.Finished, FullBatches, BatchOf, Bursts, Items, Regrouped, FuseAll, BurstRuns;
    ghost var accepted := a.q.accepted;
    plan := TakePlan(a);
    DetectBursts(plan, threshold);
    CanReorder(plan);
    ok := plan.ReorderPfList();
    ghost var marked := Detected(Batches(accepted), threshold);
    RegroupedIsRuns(marked);
    if Bursts(marked) != [] {
      RegroupedKeepsBursts(marked);
    }
  }

  lemma CanReorder(plan: Plan)
    requires plan.Valid()
    ensures plan.Chained() && plan.lists != [] && |plan.lists| == |plan.groups|
  {
  }

  // ----- a log that ends with a full batch -----

  /** All batches, if the log ends with a full one: an empty list is left behind them, whose times
      and mark nobody has set. */
  lemma FullBatchesAreTheReads(accepted: seq<Read>)
    requires |accepted| % QUEUE_MAX == 0
    ensures Items(FullBatches(accepted, |accepted| / QUEUE_MAX)) == accepted
    ensures Filled(FullBatches(accepted, |accepted| / QUEUE_MAX))
  {
    var n := |accepted| / QUEUE_MAX;
    BatchesHoldTheReads(accepted, n);
    assert accepted[..QUEUE_MAX * n] == accepted;
    assert forall i :: 0 <= i < n ==> |FullBatches(accepted, n)[i].items| == QUEUE_MAX;
  }

  lemma {:induction false} BurstsConcat(s: seq<Group>, e: Group)
    ensures Bursts(s + [e]) == if e.isBurst then Bursts(s) + [e] else Bursts(s)
  {
    if s == [] {
      assert s + [e] == [e] && [e][1..] == [];
    } else {
      assert (s + [e])[1..] == s[1..] + [e];
      BurstsConcat(s[1..], e);
    }
  }

  lemma {:induction false} LeadingConcat(s: seq<Group>, e: Group)
    ensures After(s) != [] ==> Leading(s + [e]) == Leading(s) && After(s + [e]) == After(s) + [e]
    ensures After(s) == [] ==> Leading(s + [e]) == s + Leading([e]) && After(s + [e]) == After([e])
  {
    if s == [] {
      assert s + [e] == [e];
    } else if s[0].isBurst {
      assert (s + [e])[1..] == s[1..] + [e];
      LeadingConcat(s[1..], e);
    }
  }

  ghost predicate RunsFilled(runs: seq<seq<Group>>) {
    forall i :: 0 <= i < |runs| ==> Items(runs[i]) != []
  }

  lemma LoneRuns(e: Group)
    ensures BurstRuns([]) == [] && BurstRuns([e]) == if e.isBurst then [[e]] else []
    ensures Leading([e]) == (if e.isBurst then [e] else []) && After([e]) == if e.isBurst then [] else [e]
  {
    assert [e][1..] == [] && [e] + [] == [e];
    assert Leading([]) == [] && After([]) == [] && BurstRuns([]) == [];
  }

  lemma {:induction false} NothingAfter(s: seq<Group>)
    requires s != [] && After(s) == []
    ensures s[|s| - 1].isBurst
  {
    if |s| > 1 {
      NothingAfter(s[1..]);
    }
  }

  lemma {:induction false} LeftoverRuns(s: seq<Group>, e: Group)
    requires Filled(s) && e.items == []
    ensures RunsFilled(BurstRuns(s + [e])) <==> (e.isBurst ==> s != [] && s[|s| - 1].isBurst)
    decreases |s|
  {
    LoneRuns(e);
    if s == [] {
      assert s + [e] == [e] && Items([e]) == [];
    } else if !s[0].isBurst {
      assert (s + [e])[1..] == s[1..] + [e] && (s + [e])[0] == s[0];
      LeftoverRuns(s[1..], e);
    } else {
      hide Leading, After, BurstRuns, Items;
      assert (s + [e])[0] == s[0];
      FirstRun(s + [e]);
      LeadingConcat(s, e);
      if After(s) != [] {
        LastOfAfter(s);
        LeftoverRuns(After(s), e);
      } else {
        NothingAfter(s);
      }
    }
  }

  lemma LastOfRest(l: seq<Group>, r: seq<Group>)
    requires r != []
    ensures (l + r)[|l + r| - 1] == r[|r| - 1] && (Filled(l + r) ==> Filled(r))
  {
    assert forall i :: 0 <= i < |r| ==> r[i] == (l + r)[|l| + i];
  }

  lemma LastOfAfter(s: seq<Group>)
    requires After(s) != []
    ensures s != [] && After(s)[|After(s)| - 1] == s[|s| - 1] && (Filled(s) ==> Filled(After(s)))
  {
    hide Leading, After, Filled;
    LeadingAndAfter(s);
    LastOfRest(Leading(s), After(s));
  }

  lemma LeadingFilled(s: seq<Group>)
    requires s != [] && s[0].isBurst && s[0].items != []
    ensures Items(Leading(s)) != []
  {
  }

  /** The first run of a chain that starts with a burst is filled. */
  lemma FirstRun(s: seq<Group>)
    requires s != [] && s[0].isBurst && s[0].items != []
    ensures RunsFilled(BurstRuns(s)) <==> RunsFilled(BurstRuns(After(s)))
  {
    LeadingFilled(s);
    hide Items, Leading, After;
    var rest, runs := BurstRuns(After(s)), BurstRuns(s);
    assert runs == [Leading(s)] + rest;
    hide BurstRuns;
    assert forall i :: 0 <= i < |rest| ==> rest[i] == runs[i + 1];
  }

  lemma {:induction false} FusedFilled(runs: seq<seq<Group>>)
    requires forall i :: 0 <= i < |runs| ==> runs[i] != []
    ensures Filled(FuseAll(runs)) <==> RunsFilled(runs)
  {
    if runs != [] {
      FuseIs(runs[0]);
      FusedFilled(runs[1..]);
      var r := FuseAll(runs);
      assert r[1..] == FuseAll(runs[1..]);
      assert Filled(r) <==> r[0].items != [] && Filled(r[1..]);
      assert RunsFilled(runs) <==> Items(runs[0]) != [] && RunsFilled(runs[1..]);
    }
  }

  /** With an empty list left at the end, regrouping still keeps the reads of the bursts. The chain
      is free of empty lists if and only if the leftover counts as a burst and follows one, or counts
      as idle and there is a burst; otherwise the passes behind follow its null head. */
  lemma LeftoverExactly(s: seq<Group>, e: Group)
    requires s != [] && Filled(s) && e.items == []
    ensures Items(Regrouped(s + [e])) == Items(Bursts(s))
    ensures Filled(Regrouped(s + [e])) <==> if e.isBurst then s[|s| - 1].isBurst else Bursts(s) != []
  {
    hide Regrouped, BurstRuns, FuseAll;
    BurstsConcat(s, e);
    RegroupedIsRuns(s + [e]);
    ItemsConcat(Bursts(s), [e]);
    assert [e][1..] == [] && Items([e]) == [];
    if Bursts(s + [e]) != [] {
      RegroupedKeepsBursts(s + [e]);
      LeftoverRuns(s, e);
      FusedFilled(BurstRuns(s + [e]));
    } else {
      assert Regrouped(s + [e]) == [e] && Bursts(s) == [];
    }
  }
}
