/** The chain of lists as the analyzer edits it: lists are absorbed by the one before them,
    dropped, and given a trigger. */
module Plans {
  import opened Sequences
  import opened Chains
  import opened ReadLists
  import opened Grouping

  lemma NotTheSame(lists: seq<ReadList>, i: nat, k: nat)
    requires i < |lists| && k < |lists| && i != k
    requires forall i, j :: 0 <= i < j < |lists| ==> Separate(lists[i], lists[j])
    ensures lists[i] != lists[k]
  {
    assert if i < k then Separate(lists[i], lists[k]) else Separate(lists[k], lists[i]);
  }

  /** `lists` stand for `groups`, list `k` set aside. */
  ghost predicate RepresentBut(lists: seq<ReadList>, groups: seq<Group>, all: set<object>, k: nat)
    reads lists, all
  {
    && |lists| == |groups|
    && (forall i {:trigger lists[i]} :: 0 <= i < |lists| && i != k ==>
          lists[i] in all && lists[i].nodes in all && lists[i].nodes.repr <= all && Holds(lists[i], groups[i], all))
    && forall i, j :: 0 <= i < j < |lists| && i != k && j != k ==> Separate(lists[i], lists[j])
  }

  lemma RepresentRemoved(lists: seq<ReadList>, groups: seq<Group>, all: set<object>, k: nat,
                         lists': seq<ReadList>, groups': seq<Group>)
    requires RepresentBut(lists, groups, all, k) && Removed(lists, k, lists') && Removed(groups, k, groups')
    ensures Represent(lists', groups', all)
  {
    hide Holds, Separate;
    forall i | 0 <= i < |lists'|
      ensures lists'[i] in all && lists'[i].nodes in all && lists'[i].nodes.repr <= all
      ensures Holds(lists'[i], groups'[i], all)
    {
      var j := if i < k then i else i + 1;
      assert lists'[i] == lists[j] && groups'[i] == groups[j];
    }
    forall i, j | 0 <= i < j < |lists'|
      ensures Separate(lists'[i], lists'[j])
    {
      assert Separate(lists[if i < k then i else i + 1], lists[if j < k then j else j + 1]);
    }
  }

  /** The list behind the k-th has been skipped. */
  lemma ChainRemoved(lists: seq<ReadList>, k: nat, lists': seq<ReadList>)
    requires k + 1 < |lists| && Removed(lists, k + 1, lists')
    requires forall i {:trigger lists[i].next} :: 0 <= i < |lists| ==>
               lists[i].next == if i == k then ListAt(lists, k + 2) else ListAt(lists, i + 1)
    ensures InChain(lists') && ListAt(lists', 0) == ListAt(lists, 0)
  {
    forall i | 0 <= i < |lists'|
      ensures lists'[i].next == ListAt(lists', i + 1)
    {
      assert lists'[i] == lists[if i <= k then i else i + 1];
    }
  }

  ghost predicate Filled(groups: seq<Group>) {
    forall i {:trigger groups[i]} :: 0 <= i < |groups| ==> groups[i].items != []
  }

  lemma FilledRemoved(groups: seq<Group>, k: nat, g: Group, groups': seq<Group>)
    requires Filled(groups) && k + 1 < |groups| && g.items != [] && Removed(groups[k := g], k + 1, groups')
    ensures Filled(groups')
  {
  }

  lemma FilledDropped(groups: seq<Group>, k: nat, groups': seq<Group>)
    requires Filled(groups) && Removed(groups, k, groups')
    ensures Filled(groups')
  {
  }

  lemma FilledStays(groups: seq<Group>, k: nat, g: Group)
    requires Filled(groups) && k < |groups| && g.items == groups[k].items
    ensures Filled(groups[k := g])
  {
  }

  class Plan {
    var head: ReadList?
    var tail: ReadList?
    ghost var lists: seq<ReadList>
    ghost var groups: seq<Group>
    ghost var all: set<object>

    /** A chain of nonempty lists. */
    ghost predicate Chained()
      reads this, lists, all
    {
      && this !in all && Represent(lists, groups, all) && InChain(lists) && head == ListAt(lists, 0)
      && Filled(groups)
    }

    ghost predicate Valid()
      reads this, lists, all
    {
      Chained() && lists != [] && tail == lists[|lists| - 1]
    }

    /** Take over a chain as it has been built. */
    constructor (head: ReadList, tail: ReadList,
                 ghost lists: seq<ReadList>, ghost groups: seq<Group>, ghost all: set<object>)
      requires Represent(lists, groups, all) && InChain(lists) && Filled(groups) && lists != []
      requires head == lists[0] && tail == lists[|lists| - 1]
      ensures Valid() && this.lists == lists && this.groups == groups && this.all == all
    {
      this.head, this.tail, this.lists, this.groups, this.all := head, tail, lists, groups, all;
    }

    lemma At(k: nat)
      requires Chained() && k < |lists|
      ensures |groups| == |lists| && lists[k].next == ListAt(lists, k + 1) && Holds(lists[k], groups[k], all)
      ensures lists[k] in all && lists[k].nodes in all && lists[k].nodes.repr <= all
      ensures lists[k].Value() == groups[k] && lists[k].nodes.Valid() && groups[k].items != []
    {
    }

    /** The list `pf`, the k-th, takes over the one behind it. */
    method AbsorbNext(pf: ReadList, ghost k: nat)
      requires Chained() && k + 1 < |lists| && pf == lists[k]
      modifies this`lists, this`groups, pf, pf.nodes, pf.nodes.repr
      ensures Chained() && k < |lists| == |old(lists)| - 1 && pf == lists[k] && Removed(old(lists), k + 1, lists)
      ensures groups == old(groups)[..k] + ([Absorb(old(groups)[k], old(groups)[k + 1])] + old(groups)[k + 2..])
    {
      hide Holds, Chains.Linked, Separate, RepresentBut, Filled, InChain, Represent;
      At(k);
      At(k + 1);
      ghost var ls, gs := lists, groups;
      var read := pf.next;
      ghost var g := Absorb(gs[k], gs[k + 1]);
      Combine(pf, read, k);
      lists := Remove(ls, k + 1);
      groups := Remove(gs[k := g], k + 1);
      RemovedIs(gs[k := g], k + 1, groups);
      RepresentRemoved(ls, gs[k := g], all, k + 1, lists, groups);
      ChainRemoved(ls, k, lists);
      FilledRemoved(gs, k, g, groups);
    }

    /** The nodes of `read` are linked behind those of `pf`, which then leads to what follows. */
    method Combine(pf: ReadList, read: ReadList, ghost k: nat)
      requires Chained() && k + 1 < |lists| && pf == lists[k] && read == lists[k + 1]
      modifies pf, pf.nodes, pf.nodes.repr
      ensures RepresentBut(lists, groups[k := Absorb(groups[k], groups[k + 1])], all, k + 1)
      ensures forall i {:trigger lists[i].next} :: 0 <= i < |lists| ==>
                lists[i].next == if i == k then ListAt(lists, k + 2) else ListAt(lists, i + 1)
    {
      hide Chains.Linked, Holds, Filled, InChain;
      LinkNodes(pf, read, k);
      forall i, j | 0 <= i < j < |lists| && i != k + 1 && j != k + 1
        ensures Separate(lists[i], lists[j])
      {
        assert old(Separate(lists[i], lists[j]));
        assert j == k ==> old(Separate(lists[i], read));
        assert i == k ==> old(Separate(read, lists[j]));
      }
    }

    method LinkNodes(pf: ReadList, read: ReadList, ghost k: nat)
      requires Chained() && k + 1 < |lists| && pf == lists[k] && read == lists[k + 1]
      modifies pf, pf.nodes, pf.nodes.repr
      ensures pf.nodes.repr == old(pf.nodes.repr + read.nodes.repr)
      ensures Holds(pf, Absorb(groups[k], groups[k + 1]), all)
      ensures forall j {:trigger lists[j]} :: 0 <= j < |lists| && j != k && j != k + 1 ==>
                Holds(lists[j], groups[j], all) && lists[j].nodes.repr == old(lists[j].nodes.repr)
      ensures forall i {:trigger lists[i].next} :: 0 <= i < |lists| ==>
                lists[i].next == if i == k then ListAt(lists, k + 2) else ListAt(lists, i + 1)
    {
      hide Chains.Linked, Holds, Filled;
      ghost var g := Absorb(groups[k], groups[k + 1]);
      At(k);
      At(k + 1);
      HoldsIs(pf, groups[k], all);
      HoldsIs(read, groups[k + 1], all);
      assert Separate(pf, read);
      pf.nodes.TakeOver(read.nodes);
      pf.endTs := read.endTs;
      pf.next := read.next;
      HoldsIs(pf, g, all);
      forall j | 0 <= j < |lists| && j != k && j != k + 1
        ensures Holds(lists[j], groups[j], all) && lists[j].nodes.repr == old(lists[j].nodes.repr)
      {
        assert old(Holds(lists[j], groups[j], all));
        assert old(if j < k then Separate(lists[j], pf) else Separate(pf, lists[j]));
      }
    }

    /** Skip the list behind the k-th. */
    method DropNext(pf: ReadList, ghost k: nat)
      requires Chained() && k + 1 < |lists| && pf == lists[k]
      modifies this`lists, this`groups, pf`next
      ensures Chained() && k < |lists| == |old(lists)| - 1 && pf == lists[k] && Removed(old(lists), k + 1, lists)
      ensures Removed(old(groups), k + 1, groups)
    {
      hide Holds, Chains.Linked, Separate, Filled, InChain, Represent, RepresentBut;
      At(k);
      At(k + 1);
      ghost var ls, gs := lists, groups;
      SkipNext(pf, k);
      lists := Remove(ls, k + 1);
      groups := Remove(gs, k + 1);
      StillRepresents(ls, gs, all, k + 1);
      RepresentRemoved(ls, gs, all, k + 1, lists, groups);
      ChainRemoved(ls, k, lists);
      FilledDropped(gs, k + 1, groups);
    }

    method SkipNext(pf: ReadList, ghost k: nat)
      requires Chained() && k + 1 < |lists| && pf == lists[k]
      modifies pf`next
      ensures Represent(lists, groups, all)
      ensures forall i {:trigger lists[i].next} :: 0 <= i < |lists| ==>
                lists[i].next == if i == k then ListAt(lists, k + 2) else ListAt(lists, i + 1)
    {
      hide Holds, Chains.Linked;
      forall i | 0 <= i < |lists| && i != k
        ensures lists[i] != pf
      {
        assert if i < k then Separate(lists[i], pf) else Separate(pf, lists[i]);
      }
      pf.next := pf.next.next;
      forall i | 0 <= i < |lists|
        ensures Holds(lists[i], groups[i], all)
      {
        assert old(Holds(lists[i], groups[i], all));
      }
    }

    lemma StillRepresents(ls: seq<ReadList>, gs: seq<Group>, all: set<object>, k: nat)
      requires Represent(ls, gs, all)
      ensures RepresentBut(ls, gs, all, k)
    {
    }

    /** Drop the first list. */
    method DropFirst()
      requires Chained() && 2 <= |lists|
      modifies this`head, this`lists, this`groups
      ensures Chained() && lists == old(lists)[1..] && groups == old(groups)[1..] && head == lists[0]
    {
      hide Holds, Separate, Chains.Linked;
      At(0);
      head := head.next;
      lists, groups := lists[1..], groups[1..];
    }

    /** Change the mark and the trigger of the k-th list; nothing else changes. */
    method Relabel(l: ReadList, isBurst: bool, md: int, bpOffset: int, ghost k: nat)
      requires Chained() && k < |lists| && l == lists[k]
      modifies this`groups, l`isBurst, l`md, l`bpOffset
      ensures Chained()
      ensures groups == old(groups)[k := old(groups)[k].(isBurst := isBurst, md := md, bpOffset := bpOffset)]
    {
      hide Chains.Linked, Holds, Filled, InChain, Represent;
      At(k);
      ghost var g := groups[k].(isBurst := isBurst, md := md, bpOffset := bpOffset);
      SetLabel(l, isBurst, md, bpOffset, k);
      FilledStays(groups, k, g);
      groups := groups[k := g];
    }

    method SetLabel(l: ReadList, isBurst: bool, md: int, bpOffset: int, ghost k: nat)
      requires Chained() && k < |lists| == |groups| && l == lists[k]
      modifies l`isBurst, l`md, l`bpOffset
      ensures Represent(lists, groups[k := groups[k].(isBurst := isBurst, md := md, bpOffset := bpOffset)], all)
      ensures InChain(lists)
    {
      hide Chains.Linked, Holds, Filled, Separate;
      ghost var g := groups[k].(isBurst := isBurst, md := md, bpOffset := bpOffset);
      HoldsIs(l, groups[k], all);
      forall i | 0 <= i < |lists| && i != k
        ensures lists[i] != l
      {
        NotTheSame(lists, i, k);
      }
      l.isBurst, l.md, l.bpOffset := isBurst, md, bpOffset;
      HoldsIs(l, g, all);
      forall i | 0 <= i < |lists| && i != k
        ensures Holds(lists[i], groups[i], all)
      {
        assert old(Holds(lists[i], groups[i], all));
      }
      forall i, j | 0 <= i < j < |lists|
        ensures Separate(lists[i], lists[j])
      {
        assert old(Separate(lists[i], lists[j]));
      }
    }

    /** Give the k-th list a trigger. */
    method SetTarget(l: ReadList, md: int, bpOffset: int, ghost k: nat)
      requires Chained() && k < |lists| && l == lists[k]
      modifies this`groups, l`isBurst, l`md, l`bpOffset
      ensures Chained() && groups == old(groups)[k := old(groups)[k].(md := md, bpOffset := bpOffset)]
    {
      hide Chains.Linked, Holds, Filled, InChain, Represent, Chained;
      At(k);
      Relabel(l, l.isBurst, md, bpOffset, k);
    }

    /** Mark the k-th list. */
    method SetBurst(l: ReadList, isBurst: bool, ghost k: nat)
      requires Chained() && k < |lists| && l == lists[k]
      modifies this`groups, l`isBurst, l`md, l`bpOffset
      ensures Chained() && groups == old(groups)[k := old(groups)[k].(isBurst := isBurst)]
    {
      hide Chains.Linked, Holds, Filled, InChain, Represent, Chained;
      At(k);
      Relabel(l, isBurst, l.md, l.bpOffset, k);
    }

    // ----- regrouping bursts -----

    /** While a burst list follows, it is absorbed. */
    method AbsorbBursts(pf: ReadList, first: ReadList?, ghost k: nat) returns (read: ReadList?)
      requires Chained() && k < |lists| && pf == lists[k] && first == ListAt(lists, k + 1) && groups[k].isBurst
      modifies this`lists, this`groups, all
      ensures Chained() && k < |lists| <= |old(lists)| && pf == lists[k] && read == ListAt(lists, k + 1)
      ensures groups[k].isBurst && (k + 1 < |lists| ==> !groups[k + 1].isBurst)
      ensures RegroupedFrom(groups, k) == RegroupedFrom(old(groups), k)
      ensures read != null ==> lists[|lists| - 1] == old(lists)[|old(lists)| - 1]
    {
      hide Holds, Chains.Linked, Separate, Filled, InChain, Represent, RegroupedFrom;
      read := first;
      CountLists();
      while read != null && read.isBurst
        invariant Chained() && k < |lists| == |groups| <= |old(lists)| && pf == lists[k] && read == ListAt(lists, k + 1)
        invariant groups[k].isBurst && RegroupedFrom(groups, k) == RegroupedFrom(old(groups), k)
        invariant read != null ==> lists[|lists| - 1] == old(lists)[|old(lists)| - 1]
        decreases |lists|
      {
        At(k);
        At(k + 1);
        RegroupAbsorb(groups, k);
        AbsorbNext(pf, k);
        At(k);
        read := pf.next;
      }
      if read != null { At(k + 1); }
    }

    lemma CountLists()
      requires Chained()
      ensures |lists| == |groups|
    {
    }

    /** While an idle list follows, it is dropped. */
    method SkipIdle(pf: ReadList, first: ReadList?, ghost k: nat) returns (read: ReadList?)
      requires Chained() && k < |lists| && pf == lists[k] && first == ListAt(lists, k + 1)
      modifies this`lists, this`groups, all
      ensures Chained() && k < |lists| <= |old(lists)| && pf == lists[k] && read == ListAt(lists, k + 1)
      ensures groups[k] == old(groups)[k] && (k + 1 < |lists| ==> groups[k + 1].isBurst)
      ensures ClosedFrom(groups, k) == ClosedFrom(old(groups), k)
      ensures read != null ==> lists[|lists| - 1] == old(lists)[|old(lists)| - 1]
    {
      hide Holds, Chains.Linked, Separate, Filled, InChain, Represent, ClosedFrom;
      read := first;
      CountLists();
      while read != null && !read.isBurst
        invariant Chained() && k < |lists| == |groups| <= |old(lists)| && pf == lists[k] && read == ListAt(lists, k + 1)
        invariant groups[k] == old(groups)[k] && ClosedFrom(groups, k) == ClosedFrom(old(groups), k)
        invariant read != null ==> lists[|lists| - 1] == old(lists)[|old(lists)| - 1]
        decreases |lists|
      {
        At(k);
        At(k + 1);
        ghost var gs := groups;
        DropNext(pf, k);
        CloseSkip(gs, k, groups);
        At(k);
        read := pf.next;
      }
      if read != null { At(k + 1); }
    }

    /** One round of the regrouping loop on a burst list. */
    method RegroupOne(pf: ReadList, first: ReadList?, ghost k: nat) returns (read: ReadList?)
      requires Chained() && k < |lists| && pf == lists[k] && first == ListAt(lists, k + 1) && groups[k].isBurst
      modifies this`lists, this`groups, all
      ensures Chained() && k < |lists| <= |old(lists)| && pf == lists[k] && read == ListAt(lists, k + 1)
      ensures (k + 1 < |lists| ==> groups[k + 1].isBurst)
      ensures RegroupedFrom(groups, k + 1) == RegroupedFrom(old(groups), k)
      ensures read != null ==> lists[|lists| - 1] == old(lists)[|old(lists)| - 1]
    {
      hide Holds, Chains.Linked, Separate, Filled, InChain, Represent, RegroupedFrom, ClosedFrom;
      read := AbsorbBursts(pf, first, k);
      CountLists();
      RegroupClose(groups, k);
      read := SkipIdle(pf, read, k);
      CountLists();
      CloseNext(groups, k);
    }

    /** Regroup the chain: the head moves past idle lists, each burst list takes in the burst
        lists behind it. The source gives up on a chain of less than two lists. */
    method ReorderPfList() returns (ok: bool)
      requires Chained() && (lists != [] ==> Valid())
      modifies this, all
      ensures (ok <==> 2 <= |old(lists)|) && all == old(all)
      ensures if ok then Valid() && groups == Regrouped(old(groups)) else unchanged(this) && unchanged(all)
    {
      hide Holds, Chains.Linked, Separate, Filled, InChain, Represent, RegroupedFrom, Regrouped;
      HeadIsFirst();
      if head == null {
        return false;
      }
      At(0);
      if head.next == null {
        return false;
      }
      ok := true;
      var pf := head;
      var read := head.next;
      ghost var k := 0;
      RegroupEnds(groups, 0);
      while read != null
        invariant Chained() && k < |lists| == |groups| && pf == lists[k] && read == ListAt(lists, k + 1)
        invariant tail == lists[|lists| - 1] && all == old(all)
        invariant k > 0 ==> groups[k].isBurst
        invariant RegroupedFrom(groups, k) == Regrouped(old(groups))
        decreases |lists| - k
      {
        At(k);
        if !pf.isBurst {
          At(1);
          SkipFirst(groups);
          pf := pf.next;
          read := read.next;
          DropFirst();
          CountLists();
          continue;
        }
        read := RegroupOne(pf, read, k);
        CountLists();
        if read == null {
          tail := pf;
          RegroupEnds(groups, k + 1);
          return;
        }
        At(k);
        At(k + 1);
        pf := pf.next;
        read := read.next;
        k := k + 1;
      }
      RegroupEnds(groups, k);
    }

    lemma HeadIsFirst()
      requires Chained()
      ensures head == ListAt(lists, 0) && |lists| == |groups|
    {
    }

    lemma SkipFirst(s: seq<Group>)
      requires 2 <= |s| && !s[0].isBurst
      ensures RegroupedFrom(s[1..], 0) == RegroupedFrom(s, 0)
    {
      assert s[1..][0..] == s[1..] && s[0..] == s;
    }
  }
}
