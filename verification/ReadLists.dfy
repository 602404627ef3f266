/** The chain of read lists that the analyzer builds and then regroups. */
module ReadLists {
  import opened Chains
  import opened Merging

  /** What one list of the chain stands for. */
  datatype Group = Group(items: seq<Read>, startTs: int, endTs: int, queueingTime: int, isBurst: bool,
                         md: int, bpOffset: int)

  class ReadList {
    const nodes: List<Read>
    var startTs: int
    var endTs: int
    var queueingTime: int
    var isBurst: bool
    var md: int
    var bpOffset: int
    var next: ReadList?

    constructor ()
      ensures fresh(nodes) && nodes.repr == {} && nodes.Valid() && next == null
      ensures Value() == Group([], 0, 0, 0, false, 0, 0)
    {
      nodes := new List();
      startTs, endTs, queueingTime, isBurst, md, bpOffset, next := 0, 0, 0, false, 0, 0, null;
    }

    ghost function Value(): Group
      reads this`startTs, this`endTs, this`queueingTime, this`isBurst, this`md, this`bpOffset, nodes
    {
      Group(nodes.contents, startTs, endTs, queueingTime, isBurst, md, bpOffset)
    }
  }

  ghost function ListAt(lists: seq<ReadList>, i: nat): ReadList? {
    if i < |lists| then lists[i] else null
  }

  /** The list is well formed, stands for `g`, and is made of objects in `all`. */
  ghost predicate Holds(l: ReadList, g: Group, all: set<object>)
    reads l`startTs, l`endTs, l`queueingTime, l`isBurst, l`md, l`bpOffset, l.nodes, l.nodes.repr
  {
    l in all && l.nodes in all && l.nodes.repr <= all && l.nodes.Valid() && l.Value() == g
  }

  /** Two lists share nothing. */
  ghost predicate Separate(a: ReadList, b: ReadList)
    reads a.nodes, b.nodes
  {
    a != b && a.nodes != b.nodes && a.nodes.repr !! b.nodes.repr
  }

  /** `lists` are linked in this order. */
  ghost predicate InChain(lists: seq<ReadList>)
    reads lists
  {
    forall i {:trigger lists[i].next} :: 0 <= i < |lists| ==> lists[i].next == ListAt(lists, i + 1)
  }

  /** `lists` stand for `groups`, and share nothing. */
  ghost predicate Represent(lists: seq<ReadList>, groups: seq<Group>, all: set<object>)
    reads lists, all
  {
    && |lists| == |groups|
    && (forall i {:trigger lists[i]} :: 0 <= i < |lists| ==>
          lists[i] in all && lists[i].nodes in all && lists[i].nodes.repr <= all && Holds(lists[i], groups[i], all))
    && forall i, j :: 0 <= i < j < |lists| ==> Separate(lists[i], lists[j])
  }

  lemma RepresentAppend(lists: seq<ReadList>, groups: seq<Group>, all: set<object>, l: ReadList, g: Group)
    requires Represent(lists, groups, all) && Holds(l, g, {l, l.nodes})
    requires l !in all && l.nodes !in all && l.nodes.repr == {}
    ensures Represent(lists + [l], groups + [g], all + {l, l.nodes})
  {
    forall i | 0 <= i < |lists|
      ensures Holds(lists[i], groups[i], all + {l, l.nodes}) && Separate(lists[i], l)
    {
      assert Holds(lists[i], groups[i], all);
    }
  }

  /** All lists but the last as they were, and the last one standing for `g`. */
  ghost predicate Prepared(lists: seq<ReadList>, groups: seq<Group>, all: set<object>, g: Group)
    reads lists, all
  {
    && |lists| == |groups| + 1
    && (forall i {:trigger lists[i]} :: 0 <= i < |lists| ==>
          lists[i] in all && lists[i].nodes in all && lists[i].nodes.repr <= all)
    && (forall i {:trigger lists[i]} :: 0 <= i < |groups| ==> Holds(lists[i], groups[i], all))
    && Holds(lists[|groups|], g, all)
    && forall i, j :: 0 <= i < j < |lists| ==> Separate(lists[i], lists[j])
  }

  lemma PreparedRepresents(lists: seq<ReadList>, groups: seq<Group>, all: set<object>, g: Group)
    ensures Prepared(lists, groups, all, g) <==> Represent(lists, groups + [g], all)
  {
    if Represent(lists, groups + [g], all) {
      assert forall i :: 0 <= i < |groups| ==> (groups + [g])[i] == groups[i];
      assert (groups + [g])[|groups|] == g;
    }
  }

  lemma HoldsIs(l: ReadList, g: Group, all: set<object>)
    ensures Holds(l, g, all) <==>
            l in all && l.nodes in all && l.nodes.repr <= all && l.nodes.Valid() && l.Value() == g
    ensures Holds(l, g, all) ==> l.nodes.contents == g.items
  {
  }

  lemma HoldsMore(l: ReadList, g: Group, all: set<object>, all': set<object>)
    requires Holds(l, g, all) && all <= all'
    ensures Holds(l, g, all')
  {
  }
}
