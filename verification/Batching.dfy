/** Reading the log: reads collect in the queue, and whenever it is full they become the next
    list of the chain. */
module Batching {
  import opened Sequences
  import opened Chains
  import opened Merging
  import opened ReadQueues
  import opened ReadLists
  import opened Grouping

  datatype Line = Eof | Log(read: Read, statFails: bool)

  /** The group made of the reads number 32 i and on. */
  ghost function BatchOf(accepted: seq<Read>, i: nat): Group
    requires QUEUE_MAX * i < |accepted|
  {
    var end := if QUEUE_MAX * (i + 1) <= |accepted| then QUEUE_MAX * (i + 1) else |accepted|;
    Group(accepted[QUEUE_MAX * i..end], accepted[QUEUE_MAX * i].ts, accepted[end - 1].ts,
          QueueingTime(accepted[..end]), false, 0, 0)
  }

  /** A batch has the times of its first and last read. The queueing time of a full one is the time
      between these two; that of a smaller one reaches back 32 reads, or to 0. */
  lemma BatchTimes(accepted: seq<Read>, i: nat)
    requires QUEUE_MAX * i < |accepted|
    ensures var b, n := BatchOf(accepted, i), |BatchOf(accepted, i).items|;
            && 0 < n <= 32 && (|accepted| >= 32 * i + 32 ==> n == 32)
            && b.startTs == b.items[0].ts && b.endTs == b.items[n - 1].ts
            && (forall j :: 0 <= j < n ==> b.items[j] == accepted[32 * i + j])
            && b.queueingTime == if n == 32 then b.endTs - b.startTs
                                 else if i == 0 then b.endTs
                                 else b.endTs - accepted[32 * i + n - 32].ts
  {
  }

  const EMPTY := Group([], 0, 0, 0, false, 0, 0)

  ghost function FullBatches(accepted: seq<Read>, n: nat): (g: seq<Group>)
    requires QUEUE_MAX * n <= |accepted|
    ensures |g| == n
  {
    seq(n, i requires 0 <= i < n => BatchOf(accepted, i))
  }

  lemma BatchesStay(accepted: seq<Read>, r: Read, n: nat)
    requires QUEUE_MAX * n <= |accepted|
    ensures FullBatches(accepted + [r], n) == FullBatches(accepted, n)
  {
    forall i | 0 <= i < n
      ensures BatchOf(accepted + [r], i) == BatchOf(accepted, i)
    {
      var end := QUEUE_MAX * (i + 1);
      assert (accepted + [r])[QUEUE_MAX * i..end] == accepted[QUEUE_MAX * i..end];
      assert (accepted + [r])[..end] == accepted[..end];
    }
  }

  lemma BatchesGrow(accepted: seq<Read>, n: nat)
    requires QUEUE_MAX * (n + 1) <= |accepted|
    ensures FullBatches(accepted, n + 1) == FullBatches(accepted, n) + [BatchOf(accepted, n)]
  {
  }

  /** What the current list becomes when the last reads of a batch are in. */
  lemma BatchIsWaiting(accepted: seq<Read>, n: nat, w: seq<Read>)
    requires w != [] && |w| <= QUEUE_MAX && |accepted| == QUEUE_MAX * n + |w|
    requires w == accepted[|accepted| - |w|..]
    ensures BatchOf(accepted, n) == Group(w, w[0].ts, w[|w| - 1].ts, QueueingTime(accepted), false, 0, 0)
  {
    assert accepted[..|accepted|] == accepted;
  }

  /** No read is lost, moved or doubled: the batches, put behind each other, are the reads. */
  lemma {:induction false} BatchesHoldTheReads(accepted: seq<Read>, n: nat)
    requires QUEUE_MAX * n <= |accepted|
    ensures Items(FullBatches(accepted, n)) == accepted[..QUEUE_MAX * n]
    ensures forall i :: 0 <= i < n ==> |FullBatches(accepted, n)[i].items| == QUEUE_MAX
  {
    if n > 0 {
      var b := BatchOf(accepted, n - 1);
      BatchesHoldTheReads(accepted, n - 1);
      BatchesGrow(accepted, n - 1);
      ItemsConcat(FullBatches(accepted, n - 1), [b]);
      assert [b][1..] == [] && b.items + [] == b.items;
    }
  }

  class Analyzer {
    const q: ReadQueue
    var rl: ReadList
    var head: ReadList?
    var tail: ReadList?
    ghost var lists: seq<ReadList>
    ghost var all: set<object>

    /** Between two lines of the log the queue is not full. */
    ghost predicate Valid()
      reads this, q, q.ele, lists, all
    {
      Filling() && q.count < QUEUE_MAX
    }

    ghost predicate Filling()
      reads this, q, q.ele, lists, all
    {
      var n := |lists| - 1;
      && q.Valid() && n >= 0
      && q !in all && q.ele !in all && this !in all
      && |q.accepted| == QUEUE_MAX * n + q.count
      && InChain(lists) && rl == lists[n]
      && head == (if n == 0 then null else lists[0])
      && tail == (if n == 0 then null else lists[n - 1])
      && Prepared(lists, FullBatches(q.accepted, n), all, EMPTY)
    }

    /** All lists but the last hold 32 reads each; these and what waits are the reads in order. */
    lemma NothingIsLost()
      requires Valid()
      ensures var full := FullBatches(q.accepted, |lists| - 1);
              && (forall i :: 0 <= i < |full| ==> |lists[i].nodes.contents| == QUEUE_MAX && lists[i].Value() == full[i])
              && rl.nodes.contents == [] && Items(full) + q.Waiting() == q.accepted
    {
      hide Holds, Separate, Chains.Linked, BatchOf, QueueingTime;
      var n := |lists| - 1;
      var full := FullBatches(q.accepted, n);
      BatchesHoldTheReads(q.accepted, n);
      forall i | 0 <= i < n
        ensures lists[i].Value() == full[i] && lists[i].nodes.contents == full[i].items
      {
        HoldsIs(lists[i], full[i], all);
      }
      HoldsIs(rl, EMPTY, all);
    }

    constructor ()
      ensures Valid() && q.accepted == [] && fresh(q) && fresh(q.ele) && fresh(all)
    {
      q := new ReadQueue();
      var l := new ReadList();
      rl, head, tail := l, null, null;
      lists, all := [l], {l, l.nodes};
    }

    /** Drain the queue into the current list. The source looks for the end of the list from
        its head each time. */
    method Drain()
      requires q.Valid() && rl.nodes.Valid()
      modifies q`front, q`count, rl.nodes, rl.nodes.repr
      ensures q.Valid() && q.count == 0 && rl.nodes.Valid() && fresh(rl.nodes.repr - old(rl.nodes.repr))
      ensures rl.nodes.contents == old(rl.nodes.contents) + old(q.Waiting())
    {
      hide Chains.Linked, List.Valid, ReadQueue.Valid, ReadQueue.Waiting;
      q.WaitingLength();
      while q.count > 0
        invariant q.Valid() && q.count == |q.Waiting()| && rl.nodes.Valid() && fresh(rl.nodes.repr - old(rl.nodes.repr))
        invariant rl.nodes.contents + q.Waiting() == old(rl.nodes.contents) + old(q.Waiting())
        decreases q.count
      {
        ghost var w := q.Waiting();
        var item := q.Dequeue();
        var r := new Node(item);
        ghost var c := rl.nodes.contents;
        InsertNodeIntoReadList(rl.nodes, r);
        Regroup(c, item, q.Waiting());
        q.WaitingLength();
      }
    }

    /** Make the waiting reads the contents of the current list, and set its times. */
    method FillCurrent()
      requires q.Valid() && q.count > 0 && rl.nodes.Valid() && rl.Value() == EMPTY
      modifies q`front, q`count, rl, rl.nodes, rl.nodes.repr
      ensures q.Valid() && q.count == 0 && rl.next == old(rl.next) && rl.nodes.Valid()
      ensures fresh(rl.nodes.repr - old(rl.nodes.repr))
      ensures var w := old(q.Waiting());
              rl.Value() == Group(w, w[0].ts, w[|w| - 1].ts, QueueingTime(q.accepted), false, 0, 0)
    {
      hide QueueingTime, Chains.Linked, List.Valid, ReadQueue.Valid, ReadQueue.Waiting;
      ghost var w := q.Waiting();
      q.WaitingLength();
      Drain();
      assert rl.nodes.contents == w;
      rl.nodes.Ends();
      rl.startTs := rl.nodes.head.item.ts;
      rl.endTs := rl.nodes.tail.item.ts;
      rl.queueingTime := q.GetQueueingTime();
    }

    /** Put the current list into the chain. It is already linked there, except for the first
        one, so the walk ends at it and links it to itself. */
    method InsertReadListIntoPfList(ghost groups: seq<Group>, ghost g: Group)
      requires Prepared(lists, groups, all, g) && this !in all
      requires InChain(lists) && lists != [] && rl == lists[|lists| - 1]
      requires head == if |lists| == 1 then null else lists[0]
      modifies this`head, this`tail, rl`next
      ensures head == lists[0] && tail == rl && rl.next == if |lists| == 1 then null else rl
      ensures Prepared(lists, groups, all, g)
      ensures forall i {:trigger lists[i].next} :: 0 <= i < |lists| - 1 ==> lists[i].next == lists[i + 1]
    {
      hide Holds, Chains.Linked;
      var tmp := head;
      if tmp == null {
        head := rl;
        tail := rl;
        return;
      }
      ghost var k := 0;
      while tmp.next != null
        invariant k < |lists| && tmp == lists[k]
        decreases |lists| - k
      {
        tmp, k := tmp.next, k + 1;
      }
      tmp.next := rl;
      tail := rl;
    }

    /** Link a new empty list behind the current one and make it the current one. */
    method StartNewList(ghost groups: seq<Group>)
      requires Represent(lists, groups, all) && lists != [] && rl == lists[|lists| - 1] && this !in all
      requires forall i {:trigger lists[i].next} :: 0 <= i < |lists| - 1 ==> lists[i].next == lists[i + 1]
      modifies rl`next, this`rl, this`lists, this`all
      ensures InChain(lists) && Prepared(lists, groups, all, EMPTY) && old(lists) + [rl] == lists
      ensures all == old(all) + {rl, rl.nodes} && fresh(rl) && fresh(rl.nodes)
    {
      hide Holds, Separate, Represent, Prepared;
      var l := LinkNewList(groups);
      RepresentAppend(lists, groups, all, l, EMPTY);
      PreparedRepresents(lists + [l], groups, all + {l, l.nodes}, EMPTY);
      rl := l;
      lists := lists + [l];
      all := all + {l, l.nodes};
    }

    method LinkNewList(ghost groups: seq<Group>) returns (l: ReadList)
      requires Represent(lists, groups, all) && lists != [] && rl == lists[|lists| - 1]
      requires forall i {:trigger lists[i].next} :: 0 <= i < |lists| - 1 ==> lists[i].next == lists[i + 1]
      modifies rl`next
      ensures fresh(l) && fresh(l.nodes) && Holds(l, EMPTY, {l, l.nodes}) && l.nodes.repr == {} && l.next == null
      ensures Represent(lists, groups, all)
      ensures forall i {:trigger lists[i].next} :: 0 <= i < |lists| ==>
                lists[i].next == if i < |lists| - 1 then lists[i + 1] else l
    {
      hide Holds;
      ghost var last := |lists| - 1;
      forall i | 0 <= i < last
        ensures lists[i] != rl
      {
        assert Separate(lists[i], lists[last]);
      }
      l := new ReadList();
      rl.next := l;
      forall i | 0 <= i < |lists|
        ensures Holds(lists[i], groups[i], all)
      {
        assert old(Holds(lists[i], groups[i], all));
      }
      IsEmpty(l);
    }

    lemma IsEmpty(l: ReadList)
      requires l.nodes.Valid() && l.nodes.repr == {} && l.Value() == EMPTY
      ensures Holds(l, EMPTY, {l, l.nodes})
    {
    }

    /** Drain the queue into the current list; all other lists stay as they are. */
    method CloseBatch(ghost groups: seq<Group>)
      requires q.Valid() && q.count > 0 && Prepared(lists, groups, all, EMPTY) && rl == lists[|groups|]
      modifies q`front, q`count, rl, rl.nodes, rl.nodes.repr, this`all
      ensures q.Valid() && q.count == 0 && rl.next == old(rl.next)
      ensures fresh(all - old(all)) && old(all) <= all
      ensures var w := old(q.Waiting());
              Prepared(lists, groups, all, Group(w, w[0].ts, w[|w| - 1].ts, QueueingTime(q.accepted), false, 0, 0))
    {
      hide Chains.Linked, QueueingTime, Holds, ReadList.Value, List.Valid;
      ghost var last := |groups|;
      ghost var w := q.Waiting();
      HoldsIs(rl, EMPTY, all);
      FillCurrent();
      all := all + rl.nodes.repr;
      HoldsIs(rl, Group(w, w[0].ts, w[|w| - 1].ts, QueueingTime(q.accepted), false, 0, 0), all);
      forall j | 0 <= j < last
        ensures Holds(lists[j], groups[j], all) && Separate(lists[j], rl)
      {
        assert old(Separate(lists[j], lists[last])) && old(Holds(lists[j], groups[j], all));
        HoldsMore(lists[j], groups[j], old(all), all);
      }
      forall j, k | 0 <= j < k < last
        ensures Separate(lists[j], lists[k])
      {
        assert old(Separate(lists[j], lists[k]));
      }
    }

    /** The log has been read to its end: the reads are in groups of 32, the last one having
        what was left. If nothing was left, an empty list stays at the end of the chain, behind
        the tail. */
    ghost predicate Finished()
      reads this, q, q.ele, lists, all
    {
      var n := |lists| - 1;
      && q.Valid() && n >= 0 && q.count == 0 && InChain(lists)
      && QUEUE_MAX * n <= |q.accepted| <= QUEUE_MAX * (n + 1)
      && head == (if q.accepted == [] then null else lists[0])
      && if |q.accepted| == QUEUE_MAX * n
         then tail == (if n == 0 then null else lists[n - 1]) && Prepared(lists, FullBatches(q.accepted, n), all, EMPTY)
         else tail == lists[n] && Prepared(lists, FullBatches(q.accepted, n), all, BatchOf(q.accepted, n))
    }

    /** The waiting reads become the current list, which is put into the chain. Its next link
        is then to be set right. */
    method Flush()
      requires Filling() && q.count > 0
      modifies this, q, rl, rl.nodes, rl.nodes.repr
      ensures q.Valid() && q.count == 0 && q.accepted == old(q.accepted)
      ensures rl == old(rl) && lists == old(lists) && head == lists[0] && tail == rl
      ensures old(all) <= all && fresh(all - old(all))
      ensures var n := |lists| - 1;
              && Prepared(lists, FullBatches(q.accepted, n), all, BatchOf(q.accepted, n))
              && forall i {:trigger lists[i].next} :: 0 <= i < n ==> lists[i].next == lists[i + 1]
    {
      hide Chains.Linked, Prepared, BatchOf, FullBatches, QueueingTime;
      ghost var n := |lists| - 1;
      ghost var w := q.Waiting();
      BatchIsWaiting(q.accepted, n, w);
      CloseBatch(FullBatches(q.accepted, n));
      InsertReadListIntoPfList(FullBatches(q.accepted, n), BatchOf(q.accepted, n));
    }

    /** A full queue becomes the next list, and a new one is started. */
    method TurnOver()
      requires Filling() && q.count == QUEUE_MAX
      modifies this, q, rl, rl.nodes, rl.nodes.repr
      ensures Valid() && q.accepted == old(q.accepted)
    {
      hide Chains.Linked, Holds, Separate, Prepared, Represent, BatchOf, FullBatches, QueueingTime;
      ghost var n := |lists| - 1;
      Flush();
      BatchesGrow(q.accepted, n);
      PreparedRepresents(lists, FullBatches(q.accepted, n), all, BatchOf(q.accepted, n));
      StartNewList(FullBatches(q.accepted, n + 1));
    }

    /** What is left at the end becomes the last list. */
    method CloseLog()
      requires Valid() && q.count > 0
      modifies this, q, rl, rl.nodes, rl.nodes.repr
      ensures Finished() && q.accepted == old(q.accepted)
    {
      hide Chains.Linked, Holds, Separate, Prepared, BatchOf, FullBatches, QueueingTime;
      ghost var n := |lists| - 1;
      Flush();
      Terminate(FullBatches(q.accepted, n), BatchOf(q.accepted, n));
    }

    method Terminate(ghost groups: seq<Group>, ghost g: Group)
      requires Prepared(lists, groups, all, g) && this !in all && rl == lists[|groups|]
      requires forall i {:trigger lists[i].next} :: 0 <= i < |groups| ==> lists[i].next == lists[i + 1]
      modifies this`tail, rl`next
      ensures Prepared(lists, groups, all, g) && InChain(lists) && tail == rl
    {
      hide Holds, Chains.Linked;
      tail := rl;
      rl.next := null;
    }

    lemma CurrentIsInside()
      requires Filling()
      ensures rl in all && rl.nodes in all && rl.nodes.repr <= all
    {
    }

    /** Take one line of the log. Reads without a block address, or of a file that is gone, are
        skipped. */
    method Analyze(line: Line) returns (more: bool)
      requires Valid()
      modifies this, q, q.ele, all
      ensures more <==> line.Log?
      ensures if line.Log? then Valid() else Finished()
      ensures q.accepted == old(q.accepted) +
                if line.Log? && line.read.lba != 0 && !line.statFails then [line.read] else []
    {
      hide Chains.Linked, Holds, Separate, Prepared, BatchOf, FullBatches, QueueingTime;
      CurrentIsInside();
      if line.Log? {
        if line.read.lba == 0 {
          return true;
        }
        if line.statFails {
          return true;
        }
        BatchesStay(q.accepted, line.read, |lists| - 1);
        q.Enqueue(line.read);
        if q.count != QUEUE_MAX {
          return true;
        }
        TurnOver();
        return true;
      }
      if q.count > 0 {
        CloseLog();
      }
      return false;
    }
  }

  /** Walk to the last node and link the new one behind it. */
  method InsertNodeIntoReadList(l: List<Read>, n: Node<Read>)
    requires l.Valid() && n !in l.repr && n.next == null
    modifies l, l.repr, n
    ensures l.Valid() && l.contents == old(l.contents) + [old(n.item)] && l.repr == old(l.repr) + {n}
  {
    var tmp := l.head;
    if tmp != null {
      ghost var k := 0;
      while tmp.next != null
        invariant k < |l.spine| && tmp == l.spine[k]
        decreases |l.spine| - k
      {
        tmp, k := tmp.next, k + 1;
      }
      assert tmp == l.tail;
    }
    l.Append(n);
  }
}
