/** The list of burst groups of the 64-bit analyzer over a whole run: batches are appended, and idle
    periods start new groups. */
module GroupLists {
  import opened Chains
  import opened Extents
  import opened CrossGroupPlan
  import opened BurstGroups
  import CrossGroups

  class GroupList {
    var earlier: seq<List<Extent>>
    var current: List<Extent>
    ghost var groups: Groups
    ghost var all: set<Node<Extent>>

    ghost predicate Valid()
      reads this, earlier, all, current, current.repr
    {
      && CrossGroups.Represent(earlier, groups.earlier, all) && current.Valid() && current.contents == groups.current
      && current !in earlier && current.repr !! all
    }

    constructor ()
      ensures Valid() && groups == Groups([], []) && earlier == [] && all == {}
      ensures fresh(current) && fresh(current.repr)
    {
      earlier, groups, all := [], Groups([], []), {};
      current := new List();
    }

    /** The queue is full: its batch goes into the current group. */
    method Append(q: CircQueue)
      requires Valid() && q.Valid() && Readable(groups, Batch(q.Batch()))
      modifies this`groups, q.ele, earlier, all, current, current.repr
      ensures Valid() && q.Valid() && groups == Step(old(groups), Batch(old(q.Batch())))
      ensures earlier == old(earlier) && current == old(current) && all == old(all)
      ensures fresh(current.repr - old(current.repr))
    {
      hide CrossGroups.Represent, Linked, TrimGroups, Kept;
      current.At(0);
      CrossGroups.AppendBurstList(q, current, earlier, groups.earlier, all);
      groups := Step(groups, Batch(old(q.Batch())));
    }

    /** An idle period: a new group is started. */
    method StartGroup()
      requires Valid()
      modifies this
      ensures Valid() && groups == Step(old(groups), NewGroup) && fresh(current) && current.repr == {}
      ensures earlier == old(earlier) + [old(current)] && all == old(all) + old(current.repr)
    {
      hide Linked;
      earlier, all := earlier + [current], all + current.repr;
      groups := Groups(groups.earlier + [groups.current], []);
      current := new List();
    }

    /** Fill the queue with a batch. */
    static method Fill(q: CircQueue, entries: seq<Extent>)
      requires q.Valid() && |entries| <= q.capacity
      modifies q, q.ele
      ensures q.Valid() && q.Batch() == entries
    {
      q.Reset();
      for i := 0 to |entries|
        invariant q.Valid() && q.Batch() == entries[..i]
      {
        q.Insert(entries[i]);
      }
    }

    /** A whole run, as long as every batch can be read: the groups end as the run on values says. */
    method RunAll(q: CircQueue, events: seq<Event>)
      requires Valid() && q.Valid() && AllReadable(groups, events)
      requires forall i :: 0 <= i < |events| && events[i].Batch? ==> |events[i].entries| <= q.capacity
      modifies this, q, q.ele, earlier, all, current, current.repr
      ensures Valid() && groups == Run(old(groups), events)
    {
      hide CrossGroups.Represent, Linked, TrimGroups, Kept, Step, Readable;
      var i := 0;
      assert events[0..] == events;
      while i < |events|
        invariant 0 <= i <= |events| && Valid() && q.Valid() && AllReadable(groups, events[i..])
        invariant Run(groups, events[i..]) == Run(old(groups), events)
        invariant old(earlier) <= earlier
        invariant forall k :: |old(earlier)| <= k < |earlier| ==> earlier[k] == old(current) || fresh(earlier[k])
        invariant current == old(current) || fresh(current)
        invariant forall n :: n in all ==> n in old(all) || n in old(current.repr) || fresh(n)
        invariant forall n :: n in current.repr ==> n in old(current.repr) || fresh(n)
      {
        assert events[i..][1..] == events[i + 1..] && events[i..][0] == events[i];
        match events[i] {
          case Batch(entries) =>
            Fill(q, entries);
            Append(q);
          case NewGroup =>
            StartGroup();
        }
        i := i + 1;
      }
    }
  }
}
