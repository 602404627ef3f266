/** The 32-bit analyzer's queue and burst group, updated in place. Every method is proved
    against the functions of module BurstPlan. */
module BurstGroups {
  import opened Extents
  import opened BurstPlan
  import opened Sequences
  import opened Chains

  /** The queue of reads waiting to be put into a group: 128 slots in the 32-bit analyzer, 32
      in the other. It is filled from slot 0 and emptied only as a whole, so it never wraps
      around. */
  class CircQueue {
    const capacity: nat
    const ele: array<Extent>
    var front: int
    var rear: int
    var count: int

    ghost predicate Valid()
      reads this, ele
    {
      && 0 < capacity && ele.Length == capacity && 0 <= count <= capacity
      && front == 0 && rear == count - 1
      && forall i :: count <= i < capacity ==> ele[i] == BLANK
    }

    ghost function Batch(): seq<Extent>
      requires Valid()
      reads this, ele
    {
      ele[..count]
    }

    constructor (capacity: nat)
      requires 0 < capacity
      ensures Valid() && fresh(ele) && Batch() == [] && this.capacity == capacity
    {
      this.capacity := capacity;
      ele := new Extent[capacity](_ => BLANK);
      front, rear, count := 0, -1, 0;
    }

    /** A full queue drops the entry. */
    method Insert(item: Extent)
      requires Valid()
      modifies this, ele
      ensures Valid()
      ensures Batch() == if |old(Batch())| == capacity then old(Batch()) else old(Batch()) + [item]
    {
      if count == capacity {
        return;
      }
      rear := (rear + 1) % capacity;
      ele[rear] := item;
      count := count + 1;
    }

    method Reset()
      requires Valid()
      modifies this, ele
      ensures Valid() && Batch() == []
    {
      front, rear, count := 0, -1, 0;
      var i := 0;
      while i < capacity
        invariant 0 <= i <= capacity
        invariant front == 0 && rear == -1 && count == 0
        invariant forall k :: 0 <= k < i ==> ele[k] == BLANK
      {
        ele[i] := BLANK;
        i := i + 1;
      }
    }
  }

  /** The list once entries `i` and up of the batch are inserted. */
  ghost function Todo(s: seq<Extent>, batch: seq<Extent>, i: nat): seq<Extent> {
    if i <= |batch| then InsertAll(s, batch[i..]) else s
  }

  lemma TodoStep(s: seq<Extent>, batch: seq<Extent>, i: nat)
    requires i < |batch|
    ensures Todo(Insert(s, batch[i]), batch, i + 1) == Todo(s, batch, i)
  {
    assert batch[i..][1..] == batch[i + 1..];
  }

  lemma TodoStart(s: seq<Extent>, batch: seq<Extent>)
    ensures s != [] ==> Todo(s, batch, 0) == AppendBatch(s, batch)
    ensures Todo([if batch == [] then BLANK else batch[0]], batch, 1) == AppendBatch([], batch)
    ensures forall i: nat :: i >= |batch| ==> Todo(s, batch, i) == s
  {
    assert batch[0..] == batch;
  }

  /** Put the whole queue into a group. An empty group first takes the queue's front slot as it
      is, whatever the count says. */
  method AppendBurstList(q: CircQueue, g: List<Extent>)
    requires g.Valid() && q.Valid()
    modifies g, g.repr
    ensures g.Valid() && g.contents != [] && g.contents == AppendBatch(old(g.contents), q.Batch())
    ensures fresh(g.repr - old(g.repr))
  {
    hide Insert, InsertAll, AppendBatch, Todo, Linked;
    ghost var batch := q.Batch();
    TodoStart(g.contents, batch);
    g.At(0);
    var i := q.front;
    if g.head == null {
      var first := new Node(q.ele[q.front]);
      g.Append(first);
      assert g.contents == [q.ele[0]];
      i := q.front + 1;
    }
    while i <= q.rear
      invariant g.Valid() && g.contents != [] && fresh(g.repr - old(g.repr))
      invariant 0 <= i && q.Valid() && q.Batch() == batch
      invariant Todo(g.contents, batch, i) == AppendBatch(old(g.contents), batch)
    {
      TodoStep(g.contents, batch, i);
      assert q.ele[i] == batch[i];
      var temp := new Node(q.ele[i]);
      Walk(g, temp);
      i := i + 1;
    }
    TodoStart(g.contents, batch);
  }

  /** One round of the insertion loop: walk `temp` into the list and fuse it or link it. */
  method Walk(g: List<Extent>, temp: Node<Extent>)
    requires g.Valid() && g.contents != [] && temp.next == null && temp !in g.repr
    modifies g, g.repr, temp
    ensures g.Valid() && g.contents != [] && g.contents == Insert(old(g.contents), old(temp.item))
    ensures g.repr <= old(g.repr) + {temp}
  {
    hide Linked, Distinct;
    ghost var s, t := g.contents, temp.item;
    ghost var k := 0;
    var prev: Node?<Extent> := null;
    var node := g.head;
    g.At(0);
    while node != null
      invariant unchanged(g) && unchanged(temp) && unchanged(g.repr)
      invariant 0 <= k <= |s| == |g.spine| && node == NodeAt(g.spine, k)
      invariant prev == if k == 0 then null else g.spine[k - 1]
      invariant Insert(s, t) == s[..k] + Insert(s[k..], t)
      invariant k > 0 ==> s[k - 1].lba < t.lba || (s[k - 1].lba == t.lba && s[k - 1].End() < t.off)
      decreases |s| - k
    {
      g.At(k);
      if k > 0 { g.TailIsLast(k - 1); }
      assert s[k..][1..] == s[k + 1..];
      if temp.item.lba < node.item.lba {
        g.LinkBefore(temp, node, prev, k);
        SplicedIs(s, k, t, g.contents);
        break;
      } else if temp.item.lba == node.item.lba {
        var passed := Meet(g, temp, node, prev, k);
        if !passed {
          break;
        }
      }
      Regroup(s[..k], s[k], Insert(s[k + 1..], t));
      assert s[..k + 1] == s[..k] + [s[k]];
      prev, node, k := node, node.next, k + 1;
    }
    if prev == g.tail {
      g.At(k);
      assert s[..k] == s && s[k..] == [];
      AddAfter(g, temp, prev);
    }
  }

  /** `temp` meets a node of its own lba, the k-th: it is fused with it, linked in front of it,
      dropped, or passes it. */
  method Meet(g: List<Extent>, temp: Node<Extent>, node: Node<Extent>, prev: Node?<Extent>, ghost k: nat)
      returns (passed: bool)
    requires g.Valid() && k < |g.spine| && node == g.spine[k] && prev == if k == 0 then null else g.spine[k - 1]
    requires temp !in g.repr && temp.item.lba == node.item.lba
    modifies g, g.repr, temp
    ensures passed ==> node.item.End() < temp.item.off && unchanged(g) && unchanged(temp) && unchanged(old(g.repr))
    ensures passed ==> Insert(g.contents[k..], temp.item) == [g.contents[k]] + Insert(g.contents[k + 1..], temp.item)
    ensures g.Valid() && g.contents != [] && g.tail == old(g.tail) && g.repr <= old(g.repr) + {temp}
    ensures !passed ==> g.contents == old(g.contents)[..k] + Insert(old(g.contents)[k..], old(temp.item))
  {
    hide Linked, Distinct;
    g.At(k);
    ghost var s := g.contents;
    assert s[k..][1..] == s[k + 1..];
    var t, n := temp.item, node.item;
    passed := false;
    if t.off < n.off && t.off + t.len >= n.off && t.off + t.len <= n.off + n.len {
      n := n.(len := n.off - t.off + n.len);
      n := n.(off := t.off);
      g.SetItem(node, n, k);
      assert s[k := n] == s[..k] + ([n] + s[k + 1..]);
    } else if n.off >= t.off && n.off + n.len <= t.off + t.len {
      n := n.(off := t.off);
      n := n.(len := t.len);
      g.SetItem(node, n, k);
      assert s[k := n] == s[..k] + ([n] + s[k + 1..]);
    } else if n.off <= t.off && t.off <= n.off + n.len && n.off + n.len < t.off + t.len {
      n := n.(len := t.off - n.off + t.len);
      g.SetItem(node, n, k);
      assert s[k := n] == s[..k] + ([n] + s[k + 1..]);
    } else if t.off < n.off && t.off + t.len < n.off {
      g.LinkBefore(temp, node, prev, k);
      SplicedIs(s, k, t, g.contents);
    } else if n.off + n.len < t.off {
      passed := true;
    } else {
      assert s[..k] + s[k..] == s;
    }
  }

  /** The walk has passed the last node: `temp` becomes the new one. */
  method AddAfter(g: List<Extent>, temp: Node<Extent>, last: Node<Extent>)
    requires g.Valid() && g.contents != [] && last == g.tail && temp !in g.repr && temp.next == null
    requires last.item.lba < temp.item.lba || (last.item.lba == temp.item.lba && last.item.End() < temp.item.off)
    modifies g, g.repr, temp
    ensures g.Valid() && g.contents == old(g.contents) + [old(temp.item)] && g.repr == old(g.repr) + {temp}
  {
    if temp.item.lba > last.item.lba {
      g.Append(temp);
    } else if temp.item.lba == last.item.lba {
      if temp.item.off > last.item.off + last.item.len {
        g.Append(temp);
      }
    }
  }

  // ----- the fusing pass -----

  /** The pass has left the first k extents behind. */
  ghost function CoalescedFrom(s: seq<Extent>, k: nat): seq<Extent>
    requires k <= |s|
  {
    s[..k] + Coalesce(s[k..])
  }

  lemma CoalesceStep(s: seq<Extent>, k: nat)
    requires k + 1 < |s|
    ensures match Fused(s[k], s[k + 1])
            case None => CoalescedFrom(s, k + 1) == CoalescedFrom(s, k)
            case Some(e) => CoalescedFrom(s[..k] + ([e] + s[k + 2..]), k) == CoalescedFrom(s, k)
  {
    hide Fused;
    assert s[k..][2..] == s[k + 2..] && s[k..][1..] == s[k + 1..];
    match Fused(s[k], s[k + 1])
    case None =>
      assert s[..k + 1] == s[..k] + [s[k]];
      Regroup(s[..k], s[k], Coalesce(s[k + 1..]));
    case Some(e) =>
      var r := s[..k] + ([e] + s[k + 2..]);
      assert r[..k] == s[..k] && r[k..] == [e] + s[k + 2..];
  }

  lemma CoalesceEnds(s: seq<Extent>, k: nat)
    requires k <= |s|
    ensures k == 0 ==> CoalescedFrom(s, k) == Coalesce(s)
    ensures |s| <= k + 1 ==> CoalescedFrom(s, k) == s
  {
    assert s[..k] + s[k..] == s && s[0..] == s;
  }

  /** The fusing pass that runs before the group is printed. It does not maintain the tail. */
  method CoalesceInPlace(g: List<Extent>)
    requires g.Valid() && g.contents != []
    modifies g, g.repr
    ensures Linked(g.repr, g.spine, g.head, g.contents) && g.contents == Coalesce(old(g.contents))
    ensures g.head == old(g.head) && g.repr == old(g.repr)
  {
    hide Linked, Coalesce, CoalescedFrom;
    ghost var k := 0;
    CoalesceEnds(g.contents, 0);
    g.At(0);
    var node := g.head;
    while node.next != null
      invariant Linked(g.repr, g.spine, g.head, g.contents) && g.head == old(g.head) && g.repr == old(g.repr)
      invariant k < |g.spine| == |g.contents| && node == g.spine[k]
      invariant CoalescedFrom(g.contents, k) == Coalesce(old(g.contents))
      decreases |g.spine| - k
    {
      g.At(k);
      var temp := node.next;
      var fused := FuseNext(g, node, temp, k);
      if !fused {
        node, k := node.next, k + 1;
      }
    }
    g.At(k);
    CoalesceEnds(g.contents, k);
  }

  /** The k-th node swallows its successor if they meet. */
  method FuseNext(g: List<Extent>, node: Node<Extent>, temp: Node<Extent>, ghost k: nat) returns (fused: bool)
    requires Linked(g.repr, g.spine, g.head, g.contents)
    requires k + 1 < |g.spine| && node == g.spine[k] && temp == g.spine[k + 1]
    modifies g`spine, g`contents, node
    ensures Linked(g.repr, g.spine, g.head, g.contents) && k < |g.spine| == |g.contents| && g.spine[k] == node
    ensures |g.spine| == |old(g.spine)| - if fused then 1 else 0
    ensures !fused ==> unchanged(g) && unchanged(node)
    ensures CoalescedFrom(g.contents, if fused then k else k + 1) == CoalescedFrom(old(g.contents), k)
  {
    hide Linked, Coalesce, CoalescedFrom, Distinct;
    g.At(k);
    g.At(k + 1);
    CoalesceStep(g.contents, k);
    var n, t := node.item, temp.item;
    fused := true;
    if n.lba == t.lba {
      if n.off < t.off && n.off + n.len >= t.off && n.off + n.len <= t.off + t.len {
        Unlink(g, node, n.(len := t.off - n.off + t.len), k);
      } else if t.off >= n.off && t.off + t.len <= n.off + n.len {
        Unlink(g, node, n, k);
      } else if t.off <= n.off && n.off <= t.off + t.len && t.off + t.len < n.off + n.len {
        n := n.(off := t.off);
        n := n.(len := n.off - t.off + n.len);
        Unlink(g, node, n, k);
      } else {
        fused := false;
      }
    } else {
      fused := false;
    }
  }

  /** Give the k-th node its new range and unlink the next one. */
  method Unlink(g: List<Extent>, node: Node<Extent>, n: Extent, ghost k: nat)
    requires Linked(g.repr, g.spine, g.head, g.contents) && k + 1 < |g.spine| && node == g.spine[k]
    modifies g`spine, g`contents, node
    ensures Linked(g.repr, g.spine, g.head, g.contents)
    ensures k < |g.spine| == |old(g.spine)| - 1 && g.spine[k] == node
    ensures g.contents == old(g.contents)[..k] + ([n] + old(g.contents)[k + 2..])
  {
    ghost var held := g.contents[k := n];
    node.item := n;
    g.contents := held;
    g.UnlinkNext(node, k);
    RemovedIs(held, k + 1, g.contents);
  }
}
