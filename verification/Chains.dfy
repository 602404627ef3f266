/** Singly linked lists with a head and a tail, as most of the program keeps them. */
module Chains {
  import opened Sequences

  class Node<T> {
    var item: T
    var next: Node?<T>

    constructor (item: T)
      ensures this.item == item && next == null
    {
      this.item, next := item, null;
    }
  }

  ghost function NodeAt<T>(spine: seq<Node<T>>, i: nat): Node?<T> {
    if i < |spine| then spine[i] else null
  }

  /** `spine` lists the nodes from `head` on, and `contents` what they hold. */
  ghost predicate Linked<T>(repr: set<Node<T>>, spine: seq<Node<T>>, head: Node?<T>, contents: seq<T>)
    reads repr
  {
    && |spine| == |contents|
    && head == NodeAt(spine, 0)
    && (forall i {:trigger spine[i]} :: 0 <= i < |spine| ==> spine[i] in repr)
    && (forall i {:trigger spine[i].next} :: 0 <= i < |spine| ==> spine[i].next == NodeAt(spine, i + 1))
    && (forall i {:trigger contents[i]} :: 0 <= i < |spine| ==> spine[i].item == contents[i])
    && Distinct(spine)
  }

  lemma Join<T>(s: seq<Node<T>>, t: seq<Node<T>>, a: set<Node<T>>, b: set<Node<T>>) returns (r: seq<Node<T>>)
    requires a !! b && (forall i :: 0 <= i < |s| ==> s[i] in a) && (forall i :: 0 <= i < |t| ==> t[i] in b)
    requires Distinct(s) && Distinct(t)
    ensures r == s + t && Distinct(r)
  {
    r := s + t;
    forall i, j | 0 <= i < j < |r|
      ensures r[i] != r[j]
    {
      if i < |s| <= j { assert r[i] in a && r[j] in b; }
    }
  }

  class List<T> {
    var head: Node?<T>
    var tail: Node?<T>
    ghost var repr: set<Node<T>>
    ghost var spine: seq<Node<T>>
    ghost var contents: seq<T>

    ghost predicate Valid()
      reads this, repr
    {
      Linked(repr, spine, head, contents) && tail == if spine == [] then null else spine[|spine| - 1]
    }

    constructor ()
      ensures Valid() && contents == [] && repr == {}
    {
      head, tail, repr, spine, contents := null, null, {}, [], [];
    }

    lemma Ends()
      requires Valid() && contents != []
      ensures head != null && head in repr && head.item == contents[0]
      ensures tail != null && tail in repr && tail.item == contents[|contents| - 1] && tail.next == null
    {
    }

    /** Add at the end, through the tail pointer. */
    method Append(node: Node<T>)
      requires Valid() && node !in repr && node.next == null
      modifies this, repr, node
      ensures Valid() && contents == old(contents) + [node.item] && repr == old(repr) + {node}
      ensures spine == old(spine) + [node] && node.item == old(node.item)
    {
      if head == null {
        head := node;
        tail := node;
      } else {
        tail.next := node;
        tail := node;
      }
      repr, spine, contents := repr + {node}, spine + [node], contents + [node.item];
    }

    /** Put `item` in front of the k-th node by copying: the node takes the new item, and a new
        node behind it takes the old one. */
    method InsertBefore(n: Node<T>, item: T, ghost k: nat)
      requires Valid() && k < |spine| && n == spine[k]
      modifies this, n
      ensures Valid() && Spliced(old(contents), k, item, contents) && fresh(repr - old(repr))
    {
      var tmp := new Node(n.item);
      tmp.next := n.next;
      n.item := item;
      contents := contents[k := item];
      LinkAfter(n, tmp, k);
    }

    /** Link `tmp`, which already points to what follows it, behind the k-th node. */
    method LinkAfter(n: Node<T>, tmp: Node<T>, ghost k: nat)
      requires Valid() && k < |spine| && n == spine[k] && tmp !in repr && tmp.next == n.next
      modifies this, n`next
      ensures Valid() && Spliced(old(contents), k + 1, tmp.item, contents) && repr == old(repr) + {tmp}
    {
      hide Distinct;
      OthersDiffer(spine, k);
      n.next := tmp;
      if tmp.next == null {
        tail := tmp;
      }
      ghost var was, held := spine, contents;
      assert forall i {:trigger was[i].next} :: 0 <= i < |was| && i != k ==> was[i].next == NodeAt(was, i + 1);
      repr := repr + {tmp};
      spine := Splice(was, k + 1, tmp);
      contents := Splice(held, k + 1, tmp.item);
      forall i | 0 <= i < |spine|
        ensures spine[i].next == NodeAt(spine, i + 1) && spine[i].item == contents[i]
      {
        if i <= k {
          assert spine[i] == was[i] && contents[i] == held[i];
        } else if i > k + 1 {
          assert spine[i] == was[i - 1] && contents[i] == held[i - 1];
        }
      }
    }

    /** Unlink the node behind the k-th, keeping the tail pointer right. */
    method DropNext(n: Node<T>, ghost k: nat)
      requires Valid() && k + 1 < |spine| && n == spine[k]
      modifies this, n`next
      ensures Valid() && Removed(old(contents), k + 1, contents) && repr == old(repr)
      ensures k < |spine| && n == spine[k] && head == old(head)
    {
      var b := n.next;
      if b.next == null {
        tail := n;
      }
      UnlinkNext(n, k);
    }

    /** Unlink the node behind the k-th; the tail pointer is not looked at. */
    method UnlinkNext(n: Node<T>, ghost k: nat)
      requires Linked(repr, spine, head, contents) && k + 1 < |spine| && n == spine[k]
      modifies this`spine, this`contents, n`next
      ensures Linked(repr, spine, head, contents) && Removed(old(contents), k + 1, contents)
      ensures k < |spine| && Removed(old(spine), k + 1, spine) && spine[k] == n
    {
      hide Distinct;
      OthersDiffer(spine, k);
      n.next := n.next.next;
      ghost var was, held := spine, contents;
      assert forall i {:trigger was[i].next} :: 0 <= i < |was| && i != k ==> was[i].next == NodeAt(was, i + 1);
      spine := Remove(was, k + 1);
      contents := Remove(held, k + 1);
      forall i | 0 <= i < |spine|
        ensures spine[i].next == NodeAt(spine, i + 1) && spine[i].item == contents[i]
      {
        if i <= k {
          assert spine[i] == was[i] && contents[i] == held[i];
        } else {
          assert spine[i] == was[i + 1] && contents[i] == held[i + 1];
        }
      }
    }

    /** Link `temp` in front of the k-th node, behind `prev` or as the new head. */
    method LinkBefore(temp: Node<T>, node: Node<T>, prev: Node?<T>, ghost k: nat)
      requires Valid() && k < |spine| && node == spine[k] && prev == if k == 0 then null else spine[k - 1]
      requires temp !in repr
      modifies this, repr, temp
      ensures Valid() && repr == old(repr) + {temp} && tail == old(tail) && temp.item == old(temp.item)
      ensures Spliced(old(contents), k, temp.item, contents)
    {
      hide Distinct;
      OthersDiffer(spine, k);
      if k > 0 { OthersDiffer(spine, k - 1); }
      temp.next := node;
      if node == head {
        head := temp;
      } else {
        prev.next := temp;
      }
      ghost var was, held := spine, contents;
      assert forall i {:trigger was[i].next} :: 0 <= i < |was| && i + 1 != k ==> was[i].next == NodeAt(was, i + 1);
      repr := repr + {temp};
      spine := Splice(was, k, temp);
      contents := Splice(held, k, temp.item);
      forall i | 0 <= i < |spine|
        ensures spine[i].next == NodeAt(spine, i + 1) && spine[i].item == contents[i]
      {
        if i < k {
          assert spine[i] == was[i] && contents[i] == held[i];
        } else if i > k {
          assert spine[i] == was[i - 1] && contents[i] == held[i - 1];
        }
      }
    }

    /** The nodes by position. */
    lemma At(k: nat)
      requires Linked(repr, spine, head, contents) && k <= |spine|
      ensures |spine| == |contents| && head == NodeAt(spine, 0)
      ensures k < |spine| ==> spine[k] in repr && spine[k].item == contents[k] && spine[k].next == NodeAt(spine, k + 1)
      ensures 0 < k ==> spine[k - 1] in repr && spine[k - 1].item == contents[k - 1]
    {
    }

    /** Only the last node is the tail. */
    lemma TailIsLast(k: nat)
      requires Valid() && k < |spine|
      ensures spine[k] == tail <==> k == |spine| - 1
    {
    }

    /** Put the nodes of another list behind these. */
    method TakeOver(b: List<T>)
      requires Valid() && b.Valid() && contents != [] && b.contents != [] && b != this && repr !! b.repr
      modifies this, repr
      ensures Valid() && contents == old(contents) + b.contents && repr == old(repr) + b.repr
    {
      tail.next := b.head;
      tail := b.tail;
      ghost var n, was := |spine|, spine;
      assert forall i {:trigger was[i].next} :: 0 <= i < n - 1 ==> was[i].next == NodeAt(was, i + 1);
      repr, contents := repr + b.repr, contents + b.contents;
      spine := Join(was, b.spine, old(repr), b.repr);
    }

    /** Change what the k-th node holds. */
    method SetItem(n: Node<T>, item: T, ghost k: nat)
      requires Valid() && k < |spine| && n == spine[k]
      modifies this`contents, n`item
      ensures Valid() && contents == old(contents)[k := item]
    {
      n.item := item;
      contents := contents[k := item];
    }
  }
}
