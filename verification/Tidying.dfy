/** Sorting and merging every list of the chain, as is done before triggers are assigned. */
module Tidying {
  import opened Sequences
  import opened Chains
  import opened Extents
  import opened Merging
  import opened Sorting
  import opened ReadLists
  import opened Plans

  /** Sorting moves reads, so the same bytes are covered. */
  lemma SortingKeepsBytes(s: seq<Read>, r: seq<Read>, p: Spot)
    requires multiset(s) == multiset(r)
    ensures Covers(Bytes(s), p) <==> Covers(Bytes(r), p)
    ensures Sane(s) <==> Sane(r)
  {
    assert forall x :: x in s <==> x in multiset(s);
    assert forall x :: x in r <==> x in multiset(r);
    BytesHave(s, p);
    BytesHave(r, p);
  }

  lemma {:induction false} BytesHave(s: seq<Read>, p: Spot)
    ensures Covers(Bytes(s), p) <==> exists x :: x in s && Has(x.Bytes(), p)
  {
    if s != [] {
      BytesSplit(s, p);
      BytesHave(s[1..], p);
      assert forall x :: x in s <==> x == s[0] || x in s[1..];
    }
  }

  /** What sorting and then merging makes of a list: disk order, gaps between any two reads of
      a file, no byte lost, and no other files. */
  ghost predicate Tidy(s: seq<Read>, r: seq<Read>) {
    InOrder(r) && AllClear(r) && Carried(s, r)
  }

  lemma SortingKeepsFiles(s: seq<Read>, r: seq<Read>, m: Read)
    requires multiset(s) == multiset(r) && FileIn(m, r)
    ensures FileIn(m, s)
  {
    var x :| x in r && x.lba == m.lba && x.path == m.path;
    assert x in multiset(s);
  }

  lemma SortedAndMergedIsTidy(s: seq<Read>, t: seq<Read>)
    requires Sane(s) && InOrder(t) && StableReordering(s, t)
    ensures Tidy(s, MergeAll(t))
  {
    hide MergeAll, InOrder, Sane, AllClear, Covers, FileIn;
    SortingKeepsBytes(s, t, Byte(0, 0));
    MergeAllKeeps(t, Byte(0, 0));
    forall m | m in MergeAll(t)
      ensures FileIn(m, s)
    {
      MergeAllFiles(t, m);
      SortingKeepsFiles(s, t, m);
    }
    forall p: Spot | p.Byte? && Covers(Bytes(s), p)
      ensures Covers(Bytes(MergeAll(t)), p)
    {
      SortingKeepsBytes(s, t, p);
      MergeAllKeeps(t, p);
    }
  }

  lemma StaysFilled(s: seq<Read>, r: seq<Read>)
    requires StableReordering(s, r) && s != []
    ensures r != []
  {
    MultisetLength(s, r);
  }

  /** Sort or merge the nodes of the k-th list; the others do not change. */
  method Rework(plan: Plan, l: ReadList, sorting: bool, ghost k: nat) returns (ghost r: seq<Read>)
    requires Represent(plan.lists, plan.groups, plan.all) && k < |plan.lists| == |plan.groups| && l == plan.lists[k]
    requires plan.groups[k].items != []
    modifies l.nodes, l.nodes.repr
    ensures Represent(plan.lists, plan.groups[k := plan.groups[k].(items := r)], plan.all) && r != []
    ensures var s := plan.groups[k].items;
            if sorting then InOrder(r) && StableReordering(s, r) else r == MergeAll(s)
  {
    hide Chains.Linked, Holds, InOrder, StableReordering, MergeAll;
    HoldsIs(l, plan.groups[k], plan.all);
    if sorting {
      SortReadList(l.nodes);
      StaysFilled(plan.groups[k].items, l.nodes.contents);
    } else {
      MergeReadList(l.nodes);
      MergeAllIsNotEmpty(plan.groups[k].items);
    }
    r := l.nodes.contents;
    HoldsIs(l, plan.groups[k].(items := r), plan.all);
    forall i | 0 <= i < |plan.lists| && i != k
      ensures Holds(plan.lists[i], plan.groups[i], plan.all)
    {
      assert old(Holds(plan.lists[i], plan.groups[i], plan.all));
      assert old(if i < k then Separate(plan.lists[i], l) else Separate(l, plan.lists[i]));
    }
    forall i, j | 0 <= i < j < |plan.lists|
      ensures Separate(plan.lists[i], plan.lists[j])
    {
      assert old(Separate(plan.lists[i], plan.lists[j]));
    }
  }

  /** The k-th list of the chain is sorted or merged. */
  method ReworkAt(plan: Plan, l: ReadList, sorting: bool, ghost k: nat) returns (ghost r: seq<Read>)
    requires plan.Chained() && k < |plan.lists| == |plan.groups| && l == plan.lists[k]
    modifies plan`groups, l.nodes, l.nodes.repr
    ensures plan.Chained() && plan.groups == old(plan.groups)[k := old(plan.groups)[k].(items := r)]
    ensures var s := old(plan.groups)[k].items;
            if sorting then InOrder(r) && StableReordering(s, r) else r == MergeAll(s)
  {
    hide Chains.Linked, Holds, InOrder, StableReordering, MergeAll, Represent, Separate;
    plan.At(k);
    ghost var g := plan.groups[k];
    r := Rework(plan, l, sorting, k);
    plan.groups := plan.groups[k := g.(items := r)];
  }

  /** Group by group, only the reads may differ. */
  ghost predicate SameButItems(s: seq<Group>, r: seq<Group>) {
    |s| == |r| && forall i :: 0 <= i < |s| ==> r[i] == s[i].(items := r[i].items)
  }

  /** Merge all lists. */
  method MergingReadList(plan: Plan)
    requires plan.Chained()
    modifies plan`groups, plan.all
    ensures plan.Chained() && plan.all == old(plan.all) && SameButItems(old(plan.groups), plan.groups)
    ensures forall i :: 0 <= i < |plan.groups| ==> plan.groups[i].items == MergeAll(old(plan.groups)[i].items)
  {
    hide Chains.Linked, Holds, MergeAll, Represent, Separate, Filled, InChain, Plan.Chained;
    plan.HeadIsFirst();
    var rlist := plan.head;
    ghost var gs, k := plan.groups, 0;
    while rlist != null
      invariant plan.Chained() && plan.lists == old(plan.lists) && plan.all == old(plan.all)
      invariant 0 <= k <= |plan.lists| == |plan.groups| && rlist == ListAt(plan.lists, k)
      invariant SameButItems(gs, plan.groups)
      invariant forall i :: 0 <= i < k ==> plan.groups[i].items == MergeAll(gs[i].items)
      invariant forall i :: k <= i < |gs| ==> plan.groups[i] == gs[i]
      decreases |plan.lists| - k
    {
      plan.At(k);
      ghost var r := ReworkAt(plan, rlist, false, k);
      plan.At(k);
      rlist, k := rlist.next, k + 1;
    }
  }

  /** Sort all lists. */
  method ReorderingReadList(plan: Plan)
    requires plan.Chained()
    modifies plan`groups, plan.all
    ensures plan.Chained() && plan.all == old(plan.all) && SameButItems(old(plan.groups), plan.groups)
    ensures forall i :: 0 <= i < |plan.groups| ==>
              InOrder(plan.groups[i].items) && StableReordering(old(plan.groups)[i].items, plan.groups[i].items)
  {
    hide Chains.Linked, Holds, InOrder, StableReordering, Represent, Separate, Filled, InChain, Plan.Chained;
    plan.HeadIsFirst();
    var rlist := plan.head;
    ghost var gs, k := plan.groups, 0;
    while rlist != null
      invariant plan.Chained() && plan.lists == old(plan.lists) && plan.all == old(plan.all)
      invariant 0 <= k <= |plan.lists| == |plan.groups| && rlist == ListAt(plan.lists, k)
      invariant SameButItems(gs, plan.groups)
      invariant forall i :: 0 <= i < k ==>
                  InOrder(plan.groups[i].items) && StableReordering(gs[i].items, plan.groups[i].items)
      invariant forall i :: k <= i < |gs| ==> plan.groups[i] == gs[i]
      decreases |plan.lists| - k
    {
      plan.At(k);
      ghost var r := ReworkAt(plan, rlist, true, k);
      plan.At(k);
      rlist, k := rlist.next, k + 1;
    }
  }

  /** What is done for rotating disks: sort, then merge. Every list becomes tidy, as long as its
      offsets and lengths are not negative. */
  method SortAndMerge(plan: Plan)
    requires plan.Chained()
    modifies plan`groups, plan.all
    ensures plan.Chained() && plan.all == old(plan.all) && SameButItems(old(plan.groups), plan.groups)
    ensures forall i :: 0 <= i < |plan.groups| && Sane(old(plan.groups)[i].items) ==>
              Tidy(old(plan.groups)[i].items, plan.groups[i].items)
  {
    hide Plan.Chained, Tidy, InOrder, StableReordering, MergeAll, Sane;
    ghost var gs := plan.groups;
    ReorderingReadList(plan);
    ghost var sorted := plan.groups;
    MergingReadList(plan);
    forall i | 0 <= i < |gs| && Sane(gs[i].items)
      ensures Tidy(gs[i].items, plan.groups[i].items)
    {
      SortedAndMergedIsTidy(gs[i].items, sorted[i].items);
    }
  }
}
