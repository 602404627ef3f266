/** The 64-bit analyzer's append, in place: trimming overwrites entries of the queue and
    nodes of earlier groups, then the rest of the queue is walked into the current group. */
module CrossGroups {
  import opened Extents
  import opened BurstPlan
  import opened CrossGroupPlan
  import opened BurstGroups
  import opened Chains
  import opened Sequences

  /** The walk has passed the first k nodes of `c`. */
  ghost function WalkFrom(c: seq<Extent>, k: nat, t: Extent, e: Extent): (seq<Extent>, Extent)
    requires k <= |c|
  {
    var (rest, e') := TrimWalk(c[k..], t, e);
    (c[..k] + rest, e')
  }

  lemma WalkStep(c: seq<Extent>, k: nat, t: Extent, e: Extent)
    requires k < |c| && t.lba != 0
    ensures var (n, e1) := TrimNode(c[k], t, e);
            WalkFrom(c[k := n], k + 1, t, e1) == WalkFrom(c, k, t, e)
  {
    var (n, e1) := TrimNode(c[k], t, e);
    assert c[k..][1..] == c[k + 1..] && c[k := n][k + 1..] == c[k + 1..];
    var rest := TrimWalk(c[k + 1..], t, e1).0;
    assert c[k := n][..k + 1] + rest == c[..k] + ([n] + rest);
  }

  /** Entry `i` of the queue against the k-th node. */
  method TrimNext(g: List<Extent>, q: CircQueue, i: nat, t: Extent, node: Node<Extent>, ghost k: nat)
    requires g.Valid() && q.Valid() && i < q.count && k < |g.spine| && node == g.spine[k] && node.item == g.contents[k]
    modifies q.ele, g`contents, node`item
    ensures g.Valid() && q.Valid()
    ensures var (n, e) := TrimNode(old(g.contents)[k], t, old(q.ele[i]));
            g.contents == old(g.contents)[k := n] && q.Batch() == old(q.Batch())[i := e]
  {
    hide Linked;
    var n := node.item;
    if n.lba == t.lba {
      if t.off < n.off && t.off + t.len >= n.off && t.off + t.len <= n.off + n.len {
        q.ele[i] := q.ele[i].(len := n.off - t.off);
      } else if n.off >= t.off && n.off + n.len <= t.off + t.len {
        n := n.(off := t.off);
        n := n.(len := t.len);
        q.ele[i] := q.ele[i].(lba := 0);
      } else if n.off <= t.off && t.off <= n.off + n.len && n.off + n.len < t.off + t.len {
        q.ele[i] := q.ele[i].(len := t.off + t.len - (n.off + n.len));
        q.ele[i] := q.ele[i].(off := n.off + n.len);
      } else if t.off >= n.off && t.off + t.len <= n.off + n.len {
        q.ele[i] := q.ele[i].(lba := 0);
      }
    }
    g.SetItem(node, n, k);
  }

  /** Walk entry `i` of the queue along the nodes of one earlier group. */
  method TrimEntry(g: List<Extent>, q: CircQueue, i: nat)
    requires g.Valid() && q.Valid() && i < q.count
    modifies q.ele, g`contents, g.repr
    ensures g.Valid() && q.Valid()
    ensures var (nodes, e) := TrimWalk(old(g.contents), old(q.ele[i]), old(q.ele[i]));
            g.contents == nodes && q.Batch() == old(q.Batch())[i := e]
  {
    hide WalkFrom, TrimWalk, TrimNode, Linked, Distinct;
    var t := q.ele[i];
    var node := g.head;
    g.At(0);
    ghost var k := 0;
    ghost var total := TrimWalk(g.contents, t, t);
    WalkEnds(g.contents, 0, t, t);
    while node != null && t.lba != 0
      invariant g.Valid() && q.Valid() && k <= |g.contents| == |g.spine| && node == NodeAt(g.spine, k)
      invariant q.Batch() == old(q.Batch())[i := q.ele[i]]
      invariant WalkFrom(g.contents, k, t, q.ele[i]) == total
      decreases |g.contents| - k
    {
      WalkStep(g.contents, k, t, q.ele[i]);
      g.At(k);
      TrimNext(g, q, i, t, node, k);
      assert q.ele[i] == q.Batch()[i];
      node, k := node.next, k + 1;
    }
    WalkEnds(g.contents, k, t, q.ele[i]);
  }

  lemma WalkEnds(c: seq<Extent>, k: nat, t: Extent, e: Extent)
    requires k <= |c|
    ensures k == 0 ==> WalkFrom(c, k, t, e) == TrimWalk(c, t, e)
    ensures k == |c| || t.lba == 0 ==> WalkFrom(c, k, t, e) == (c, e)
  {
    assert c[..k] + c[k..] == c;
    if k == 0 { assert c[0..] == c && c[..0] + TrimWalk(c, t, e).0 == TrimWalk(c, t, e).0; }
  }

  /** The first `i` entries have been trimmed. */
  ghost function BatchFrom(nodes: seq<Extent>, batch: seq<Extent>, i: nat): (seq<Extent>, seq<Extent>)
    requires i <= |batch|
  {
    var (nodes', rest) := TrimBatch(nodes, batch[i..]);
    (nodes', batch[..i] + rest)
  }

  lemma BatchStep(nodes: seq<Extent>, batch: seq<Extent>, i: nat)
    requires i < |batch|
    ensures var (nodes', e) := TrimWalk(nodes, batch[i], batch[i]);
            BatchFrom(nodes', batch[i := e], i + 1) == BatchFrom(nodes, batch, i)
  {
    var (nodes', e) := TrimWalk(nodes, batch[i], batch[i]);
    assert batch[i..][1..] == batch[i + 1..] == batch[i := e][i + 1..];
    var rest := TrimBatch(nodes', batch[i + 1..]).1;
    assert batch[i := e][..i + 1] + rest == batch[..i] + ([e] + rest);
  }

  /** Trim the whole queue against one earlier group. */
  method TrimAgainst(g: List<Extent>, q: CircQueue)
    requires g.Valid() && q.Valid()
    modifies q.ele, g`contents, g.repr
    ensures g.Valid() && q.Valid()
    ensures (g.contents, q.Batch()) == TrimBatch(old(g.contents), old(q.Batch()))
  {
    var i := q.front;
    ghost var total := TrimBatch(g.contents, q.Batch());
    assert q.Batch()[0..] == q.Batch() && q.Batch()[..0] + total.1 == total.1;
    while i <= q.rear
      invariant g.Valid() && q.Valid() && 0 <= i <= q.count
      invariant BatchFrom(g.contents, q.Batch(), i) == total
    {
      BatchStep(g.contents, q.Batch(), i);
      assert q.ele[i] == q.Batch()[i];
      TrimEntry(g, q, i);
      i := i + 1;
    }
    assert q.Batch()[i..] == [] && q.Batch()[..i] + [] == q.Batch();
  }

  /** Skip the entries that trimming has used up. */
  lemma KeptStep(batch: seq<Extent>, i: nat)
    requires i < |batch|
    ensures Kept(batch[i..]) == (if batch[i].lba == 0 then [] else [batch[i]]) + Kept(batch[i + 1..])
  {
    assert batch[i..][1..] == batch[i + 1..];
  }

  /** The list once the entries from `i` on are inserted. */
  ghost function KeptTodo(s: seq<Extent>, batch: seq<Extent>, i: nat): seq<Extent>
    requires i <= |batch|
  {
    InsertAll(s, Kept(batch[i..]))
  }

  lemma KeptTodoStep(s: seq<Extent>, batch: seq<Extent>, i: nat)
    requires i < |batch|
    ensures KeptTodo(if batch[i].lba == 0 then s else Insert(s, batch[i]), batch, i + 1) == KeptTodo(s, batch, i)
  {
    hide Insert;
    KeptStep(batch, i);
    var rest := Kept(batch[i + 1..]);
    if batch[i].lba == 0 {
      assert [] + rest == rest;
    } else {
      assert ([batch[i]] + rest)[1..] == rest;
    }
  }

  lemma KeptTodoEnds(s: seq<Extent>, batch: seq<Extent>)
    ensures KeptTodo(s, batch, 0) == InsertAll(s, Kept(batch)) && KeptTodo(s, batch, |batch|) == s
  {
    assert batch[0..] == batch && batch[|batch|..] == [];
  }

  /** Insert what is left of the queue. The scan for a first entry does not look at the count;
      here it must find one. */
  method InsertKept(g: List<Extent>, q: CircQueue)
    requires g.Valid() && q.Valid()
    requires g.head == null ==> Kept(q.Batch()) != []
    modifies g, g.repr
    ensures g.Valid() && g.contents == InsertAll(old(g.contents), Kept(q.Batch()))
    ensures fresh(g.repr - old(g.repr))
  {
    hide Insert, InsertAll, Kept, KeptTodo, Linked;
    ghost var batch := q.Batch();
    g.At(0);
    var i := q.front;
    KeptTodoEnds(g.contents, batch);
    if g.head == null {
      i := TakeFirstKept(g, q);
    }
    while i <= q.rear
      invariant g.Valid() && g.contents != [] && fresh(g.repr - old(g.repr))
      invariant 0 <= i <= |batch| && q.Valid() && q.Batch() == batch
      invariant KeptTodo(g.contents, batch, i) == InsertAll(old(g.contents), Kept(batch))
    {
      KeptTodoStep(g.contents, batch, i);
      assert q.ele[i] == batch[i];
      if q.ele[i].lba != 0 {
        var temp := new Node(q.ele[i]);
        Walk(g, temp);
      }
      i := i + 1;
    }
    KeptTodoEnds(g.contents, batch);
  }

  method TakeFirstKept(g: List<Extent>, q: CircQueue) returns (i: nat)
    requires g.Valid() && q.Valid() && g.contents == [] && Kept(q.Batch()) != []
    modifies g, g.repr
    ensures g.Valid() && g.contents != [] && fresh(g.repr - old(g.repr)) && i <= q.count
    ensures KeptTodo(g.contents, q.Batch(), i) == KeptTodo([], q.Batch(), 0)
  {
    hide InsertAll, KeptTodo, Linked;
    ghost var batch := q.Batch();
    i := q.front;
    assert batch[0..] == batch;
    while q.ele[i].lba == 0
      invariant unchanged(g) && unchanged(g.repr)
      invariant 0 <= i < |batch| && Kept(batch[i..]) != []
      invariant KeptTodo([], batch, i) == KeptTodo([], batch, 0)
      decreases |batch| - i
    {
      KeptStep(batch, i);
      KeptTodoStep([], batch, i);
      i := i + 1;
    }
    KeptTodoStep([], batch, i);
    var temp := new Node(q.ele[i]);
    g.Append(temp);
    assert g.contents == [batch[i]] == Insert([], batch[i]);
    i := i + 1;
  }

  // ----- all groups -----

  /** `gs` are lists of their own, made of nodes in `all` with none in common, and `groups` is
      what they hold. */
  ghost predicate Represent(gs: seq<List<Extent>>, groups: seq<seq<Extent>>, all: set<Node<Extent>>)
    reads gs, all
  {
    && Distinct(gs) && |gs| == |groups|
    && (forall i {:trigger gs[i]} :: 0 <= i < |gs| ==>
          gs[i].repr <= all && gs[i].Valid() && gs[i].contents == groups[i])
    && forall i, j :: 0 <= i < j < |gs| ==> gs[i].repr !! gs[j].repr
  }

  /** The first `i` groups have been passed. */
  ghost function GroupsFrom(groups: seq<seq<Extent>>, i: nat, batch: seq<Extent>): (seq<seq<Extent>>, seq<Extent>)
    requires i <= |groups|
  {
    var (rest, batch') := TrimGroups(groups[i..], batch);
    (groups[..i] + rest, batch')
  }

  lemma GroupsStep(groups: seq<seq<Extent>>, i: nat, batch: seq<Extent>)
    requires i < |groups|
    ensures var (g, b) := TrimBatch(groups[i], batch);
            GroupsFrom(groups[i := g], i + 1, b) == GroupsFrom(groups, i, batch)
  {
    var (g, b) := TrimBatch(groups[i], batch);
    assert groups[i..][1..] == groups[i + 1..] == groups[i := g][i + 1..];
    var rest := TrimGroups(groups[i + 1..], b).0;
    assert groups[i := g][..i + 1] + rest == groups[..i] + ([g] + rest);
  }

  /** Trim the queue against the groups before the current one, in order. */
  method TrimAll(gs: seq<List<Extent>>, q: CircQueue, ghost groups: seq<seq<Extent>>, ghost all: set<Node<Extent>>)
    requires Represent(gs, groups, all) && q.Valid()
    modifies q.ele, gs, all
    ensures q.Valid() && q.Batch() == TrimGroups(groups, old(q.Batch())).1
    ensures Represent(gs, TrimGroups(groups, old(q.Batch())).0, all)
  {
    ghost var now := groups;
    ghost var total := TrimGroups(groups, q.Batch());
    var i := 0;
    assert groups[0..] == groups && groups[..0] + total.0 == total.0;
    while i < |gs|
      invariant Represent(gs, now, all) && q.Valid() && 0 <= i <= |gs|
      invariant GroupsFrom(now, i, q.Batch()) == total
    {
      GroupsStep(now, i, q.Batch());
      ghost var g := TrimBatch(now[i], q.Batch()).0;
      TrimOne(gs, i, gs[i], q, now, all);
      now := now[i := g];
      i := i + 1;
    }
    assert now[i..] == [] && now[..i] + [] == now;
  }

  method TrimOne(gs: seq<List<Extent>>, ghost i: nat, g: List<Extent>, q: CircQueue,
                 ghost groups: seq<seq<Extent>>, ghost all: set<Node<Extent>>)
    requires Represent(gs, groups, all) && q.Valid() && i < |gs| && g == gs[i]
    modifies q.ele, g`contents, g.repr
    ensures q.Valid() && q.Batch() == TrimBatch(groups[i], old(q.Batch())).1
    ensures Represent(gs, groups[i := TrimBatch(groups[i], old(q.Batch())).0], all)
  {
    TrimAgainst(g, q);
    assert g.repr == old(g.repr);
    forall j | 0 <= j < |gs| && j != i
      ensures gs[j].repr == old(gs[j].repr) && gs[j].Valid() && gs[j].contents == groups[j]
    {
      assert gs[j] != g && old(gs[j].repr) !! old(g.repr);
      assert old(gs[j].Valid());
    }
  }

  /** The append of the 64-bit analyzer. */
  method AppendBurstList(q: CircQueue, current: List<Extent>, earlier: seq<List<Extent>>,
                         ghost groups: seq<seq<Extent>>, ghost all: set<Node<Extent>>)
    requires Represent(earlier, groups, all) && current.Valid() && q.Valid()
    requires current !in earlier && current.repr !! all
    requires current.head == null ==> Kept(TrimGroups(groups, q.Batch()).1) != []
    modifies q.ele, earlier, all, current, current.repr
    ensures current.Valid() && q.Valid()
    ensures var (groups', contents') := AppendAcross(groups, old(current.contents), old(q.Batch()));
            Represent(earlier, groups', all) && current.contents == contents'
    ensures current.repr !! all && fresh(current.repr - old(current.repr))
  {
    TrimAll(earlier, q, groups, all);
    InsertKept(current, q);
  }
}
