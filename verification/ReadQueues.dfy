/** The ring buffer that collects reads until a batch is full. */
module ReadQueues {
  import opened Merging

  const QUEUE_MAX: nat := 32

  const BLANK := Read("", 0, 0, 0, 0, 0)

  class ReadQueue {
    const ele: array<Read>
    var front: int
    var rear: int
    var count: int
    ghost var accepted: seq<Read>  // everything that was ever put in

    ghost predicate Valid()
      reads this, ele
    {
      var n := |accepted|;
      && ele.Length == QUEUE_MAX
      && 0 <= count <= QUEUE_MAX && count <= n
      && rear == (if n == 0 then -1 else (n - 1) % QUEUE_MAX)
      && front == (n - count) % QUEUE_MAX
      && (forall j :: 0 <= j < n && n - QUEUE_MAX <= j ==> ele[j % QUEUE_MAX] == accepted[j])
      && (forall i :: n <= i < QUEUE_MAX ==> ele[i] == BLANK)
    }

    /** What is waiting. */
    ghost function Waiting(): seq<Read>
      requires Valid()
      reads this, ele
    {
      accepted[|accepted| - count..]
    }

    lemma WaitingLength()
      requires Valid()
      ensures 0 <= count == |Waiting()| <= |accepted|
    {
    }

    constructor ()
      ensures Valid() && fresh(ele) && accepted == [] && count == 0
    {
      ele := new Read[QUEUE_MAX](_ => BLANK);
      front, rear, count, accepted := 0, -1, 0, [];
    }

    method Enqueue(r: Read)
      requires Valid() && count < QUEUE_MAX
      modifies this, ele
      ensures Valid() && accepted == old(accepted) + [r] && count == old(count) + 1
    {
      ghost var n := |accepted|;
      if n > 0 { NextSlot(n - 1); }
      forall j | 0 <= j < n && n - QUEUE_MAX < j
        ensures j % QUEUE_MAX != n % QUEUE_MAX
      {
        SlotOf(j, n);
      }
      rear := (rear + 1) % QUEUE_MAX;
      ele[rear] := r;
      count := count + 1;
      accepted := accepted + [r];
    }

    lemma NextSlot(j: nat)
      ensures (j % QUEUE_MAX + 1) % QUEUE_MAX == (j + 1) % QUEUE_MAX
    {
    }

    /** The next 31 reads go into other slots, the one after them into the same. */
    lemma SlotOf(j: nat, n: nat)
      requires j <= n <= j + QUEUE_MAX
      ensures j % QUEUE_MAX == n % QUEUE_MAX <==> n == j || n == j + QUEUE_MAX
    {
    }

    method Dequeue() returns (r: Read)
      requires Valid() && count > 0
      modifies this`front, this`count
      ensures Valid() && count == old(count) - 1
      ensures [r] + Waiting() == old(Waiting())
    {
      NextSlot(|accepted| - count);
      r := ele[front];
      count := count - 1;
      front := (front + 1) % QUEUE_MAX;
    }

    /** After the queue has been emptied, the front slot is the oldest one of the ring: the 32nd
        most recent read, or one that was never filled. */
    method GetQueueingTime() returns (t: int)
      requires Valid() && count == 0 && accepted != []
      ensures t == QueueingTime(accepted)
      ensures var n := |accepted|; t == accepted[n - 1].ts - if n < 32 then 0 else accepted[n - 32].ts
    {
      ghost var n := |accepted|;
      if n >= QUEUE_MAX { SlotOf(n - QUEUE_MAX, n); }
      t := ele[rear].ts - ele[front].ts;
    }
  }

  /** Newest time minus that of the 32nd most recent read, 0 standing in for a missing one. */
  ghost function QueueingTime(accepted: seq<Read>): int
    requires accepted != []
  {
    var n := |accepted|;
    accepted[n - 1].ts - if n < QUEUE_MAX then 0 else accepted[n - QUEUE_MAX].ts
  }
}
