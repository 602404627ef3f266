/** The whole way from the end of the log to the prefetcher's memory, in the order in which the main
    program takes its steps. */
module Pipeline {
  import opened Sequences
  import opened Extents
  import opened Chains
  import opened Merging
  import opened ReadQueues
  import opened ReadLists
  import opened Grouping
  import opened SideLists
  import opened Batching
  import opened TriggerPlan
  import opened Plans
  import opened Handover
  import opened Tidying
  import opened PrefetchPlan
  import opened Delivery

  /** The chain after regrouping. */
  ghost function Kept(accepted: seq<Read>, threshold: int): (s: seq<Group>)
    requires |accepted| % QUEUE_MAX != 0
  {
    Regrouped(Detected(Batches(accepted), threshold))
  }

  /** No read that came in with a burst is dropped. */
  lemma BurstsAreKept(accepted: seq<Read>, threshold: int)
    requires |accepted| % QUEUE_MAX != 0 && BurstReads(accepted, threshold) != []
    ensures Items(Kept(accepted, threshold)) == BurstReads(accepted, threshold)
  {
    hide Batches, Detected, Regrouped, Bursts;
    assert Items([]) == [];
    RegroupedKeepsBursts(Detected(Batches(accepted), threshold));
  }

  // ----- the passes -----

  /** What is needed of the chain before its lists are merged for the first time: no negative offsets
      or lengths, one path for each lba, and reads of one lba that stand next to each other start in
      order. */
  ghost predicate ReadyToMerge(s: seq<Group>) {
    && (forall i :: 0 <= i < |s| ==> Sane(s[i].items) && Onward(s[i].items))
    && forall a, b :: a in Items(s) && b in Items(s) && a.lba == b.lba ==> a.path == b.path
  }

  /** List by list, `r` covers what `s` covers, with reads of the same files. */
  ghost predicate CarriedAll(s: seq<Group>, r: seq<Group>) {
    |s| == |r| && forall i :: 0 <= i < |s| ==> Carried(s[i].items, r[i].items)
  }

  lemma FirstMergeCarries(s: seq<Group>, r: seq<Group>)
    requires ReadyToMerge(s) && |s| == |r| && forall i :: 0 <= i < |s| ==> r[i].items == MergeAll(s[i].items)
    ensures CarriedAll(s, r)
  {
    hide MergeAll, Onward, Sane, Carried;
    forall i | 0 <= i < |s|
      ensures Carried(s[i].items, r[i].items)
    {
      OnwardIsCarried(s[i].items);
    }
  }

  lemma TidyingCarries(s: seq<Group>, r: seq<Group>, t: seq<Group>)
    requires CarriedAll(s, r) && |r| == |t|
    requires forall i :: 0 <= i < |r| && Sane(r[i].items) ==> Tidy(r[i].items, t[i].items)
    ensures CarriedAll(s, t)
  {
    hide Sane, InOrder, AllClear;
    forall i | 0 <= i < |s|
      ensures Carried(s[i].items, t[i].items)
    {
      assert Sane(r[i].items) && Carried(r[i].items, t[i].items);
      hide Carried;
      CarriedOn(s[i].items, r[i].items, t[i].items);
    }
  }

  // ----- what is asked for -----

  /** The requests made for a group, behind the metadata that is only looked up. */
  function Requests(hdd: bool, g: FetchGroup): seq<Advice> {
    AllChunks(g.entries[if hdd then PrefetchPlan.Leading(g.entries) else 0..])
  }

  /** The fetch of some group asks for this byte. */
  ghost predicate Asked(hdd: bool, groups: seq<FetchGroup>, path: string, x: int) {
    exists k, a :: 0 <= k < |groups| && a in Requests(hdd, groups[k]) && Asks(a, path, x)
  }

  lemma {:induction false} EntryIsWritten(gs: seq<FetchGroup>, k: nat, j: nat)
    requires k < |gs| && j < |gs[k].entries|
    ensures Row(gs[k].key, gs[k].entries[j]) in Written(gs)
  {
    var last := |gs| - 1;
    if k == last {
      assert RowsOf(gs[k])[j] == Row(gs[k].key, gs[k].entries[j]);
    } else {
      EntryIsWritten(gs[..last], k, j);
    }
  }

  lemma {:induction false} EntryIsOfKey(rows: seq<Row>, row: Row)
    requires row in rows
    ensures row.entry in EntriesFor(rows, row.key)
  {
    var last := |rows| - 1;
    if rows[last] != row {
      assert row in rows[..last];
      EntryIsOfKey(rows[..last], row);
    }
  }

  /** Every row of the file is in some group. */
  lemma RowIsLoaded(rows: seq<Row>, row: Row) returns (g: nat)
    requires row in rows
    ensures g < |Loaded(rows)| && row.entry in Loaded(rows)[g].entries
  {
    hide Loaded, EntriesFor, FindGroup;
    LoadedIsByKey(rows);
    EntryIsOfKey(rows, row);
    var i :| 0 <= i < |rows| && rows[i] == row;
    g := FindGroup(Loaded(rows), row.key);
    FindIsBounded(Loaded(rows), row.key);
    FindHasKey(Loaded(rows), row.key);
  }

  lemma FindHasKey(gs: seq<FetchGroup>, key: Key)
    requires FindGroup(gs, key) < |gs|
    ensures gs[FindGroup(gs, key)].key == key
  {
  }

  /** A data entry is asked for with its group, wherever it stands. */
  lemma DataIsAsked(hdd: bool, groups: seq<FetchGroup>, g: nat, e: Entry, x: int)
    requires g < |groups| && e in groups[g].entries && e.flag != 0
    requires Asks(Advice(e.path, e.offset, e.length), e.path, x)
    ensures Asked(hdd, groups, e.path, x)
  {
    hide AllChunks, Asks;
    var es := groups[g].entries;
    var m := if hdd then PrefetchPlan.Leading(es) else 0;
    var j :| 0 <= j < |es| && es[j] == e;
    assert es[m..][j - m] == e;
    AllChunksAsk(es[m..], e.path, x);
    assert Requests(hdd, groups[g]) == AllChunks(es[m..]);
  }

  lemma ReadIsEntry(hdd: bool, g: Group, j: nat) returns (i: nat)
    requires j < |g.items|
    ensures var es, r := Entries(hdd, SectionOf(g)), g.items[j];
            i < |es| && es[i] == Entry(r.path, r.off, r.len, 1)
  {
    i := j + if hdd then |SectionOf(g).metas| else 0;
  }

  /** The reads of any list of the chain are asked for. */
  lemma ListIsAsked(hdd: bool, s: seq<Group>, k: nat, r: Read, x: int)
    requires k < |s| && r in s[k].items && r.off <= x < r.off + r.len
    ensures Asked(hdd, Loaded(Written(Outgoing(hdd, s))), r.path, x)
  {
    hide Loaded, Written, Asked, Entries, SectionOf;
    var sent := Outgoing(hdd, s);
    var j :| 0 <= j < |s[k].items| && s[k].items[j] == r;
    var i := ReadIsEntry(hdd, s[k], j);
    assert sent[k].entries == Entries(hdd, SectionsOf(s)[k]) && SectionsOf(s)[k] == SectionOf(s[k]);
    var e := sent[k].entries[i];
    EntryIsWritten(sent, k, i);
    var g := RowIsLoaded(Written(sent), Row(sent[k].key, e));
    DataIsAsked(hdd, Loaded(Written(sent)), g, e, x);
  }

  /** A byte of a read is in a read of the same path after the passes. */
  lemma ByteIsCarried(s: seq<Group>, c: seq<Group>, r: Read, x: int) returns (m: Read)
    requires ReadyToMerge(s) && CarriedAll(s, c) && r in Items(s) && r.off <= x < r.off + r.len
    ensures m in Items(c) && m.path == r.path && m.off <= x < m.off + m.len
  {
    hide Sane, Onward, Bytes, Items;
    ItemsHave(s, r);
    var i :| 0 <= i < |s| && r in s[i].items;
    var p := Byte(r.lba, x);
    assert Has(r.Bytes(), p);
    BytesHave(s[i].items, p);
    assert Carried(s[i].items, c[i].items);
    BytesHave(c[i].items, p);
    m :| m in c[i].items && Has(m.Bytes(), p);
    ItemsHave(c, m);
    assert FileIn(m, s[i].items);
    var y :| y in s[i].items && y.lba == m.lba && y.path == m.path;
    ItemsHave(s, y);
  }

  lemma SameItems(s: seq<Group>)
    requires s != []
    ensures Items(s[0 := s[0].(md := 0, bpOffset := 0)]) == Items(s)
  {
    assert s[0 := s[0].(md := 0, bpOffset := 0)][1..] == s[1..];
  }

  /** Whatever triggers are assigned, every byte of the chain before the passes is asked for with
      some group, also where lists have got the same key. */
  lemma EveryByteIsAsked(hdd: bool, mm: seq<Mapping>, ts: seq<Trigger>, s: seq<Group>, c: seq<Group>, r: Read, x: int)
    requires ReadyToMerge(s) && CarriedAll(s, c) && c != [] && r in Items(s) && r.off <= x < r.off + r.len
    ensures Asked(hdd, Loaded(Written(Outgoing(hdd, Final(mm, ts, c)))), r.path, x)
  {
    hide ReadyToMerge, CarriedAll, Assigned, Items, Asked, Loaded, Written, Outgoing;
    var m := ByteIsCarried(s, c, r, x);
    SameItems(c);
    AssignedKeepsReads(mm, ts, c[0 := c[0].(md := 0, bpOffset := 0)]);
    var f := Final(mm, ts, c);
    ItemsHave(f, m);
    var k: nat :| k < |f| && m in f[k].items;
    ListIsAsked(hdd, f, k, m, x);
  }

  // ----- the main program -----

  /** The list is not among these objects. */
  ghost predicate Outside<T>(l: List<T>, all: set<object>)
    reads l
  {
    l !in all && forall n :: n in l.repr ==> n !in all
  }

  method TakeKept(a: Analyzer, threshold: int) returns (plan: Plan, ok: bool)
    requires a.Finished() && |a.q.accepted| % QUEUE_MAX != 0
    modifies a.all
    ensures fresh(plan) && plan.Valid() && plan.all == old(a.all) && (ok <==> QUEUE_MAX < |old(a.q.accepted)|)
    ensures ok ==> plan.groups == Kept(old(a.q.accepted), threshold)
  {
    hide Plan.Valid, Analyzer.Finished, Batches, Detected, Regrouped;
    ghost var marked := Detected(Batches(a.q.accepted), threshold);
    MarkedIsNotEmpty(a.q.accepted, threshold);
    RegroupedIsRuns(marked);
    plan, ok := RegroupLog(a, threshold);
  }

  lemma MarkedIsNotEmpty(accepted: seq<Read>, threshold: int)
    requires |accepted| % QUEUE_MAX != 0
    ensures Detected(Batches(accepted), threshold) != []
  {
  }

  /** What the passes leave: merged lists, for a rotating disk sorted ones with gaps between any two reads
      of an lba; the lists themselves, their times and marks stay. */
  ghost predicate Passed(hdd: bool, s: seq<Group>, c: seq<Group>) {
    && SameButItems(s, c)
    && if hdd
       then forall i :: 0 <= i < |s| && Sane(MergeAll(s[i].items)) ==> InOrder(c[i].items) && AllClear(c[i].items)
       else forall i :: 0 <= i < |s| ==> c[i].items == MergeAll(s[i].items)
  }

  /** The passes over the chain: merge, and for a rotating disk sort and merge twice more. */
  method RunPasses(plan: Plan, hdd: bool)
    requires plan.Chained()
    modifies plan`groups, plan.all
    ensures plan.Chained() && plan.all == old(plan.all) && Passed(hdd, old(plan.groups), plan.groups)
    ensures ReadyToMerge(old(plan.groups)) ==> CarriedAll(old(plan.groups), plan.groups)
  {
    hide Plan.Chained, ReadyToMerge, CarriedAll, Tidy, MergeAll, Sane, InOrder, AllClear, Carried;
    ghost var s := plan.groups;
    MergingReadList(plan);
    if ReadyToMerge(s) { FirstMergeCarries(s, plan.groups); }
    if hdd {
      ghost var c := plan.groups;
      SortAndMerge(plan);
      ghost var d := plan.groups;
      SortAndMerge(plan);
      AllTidy(c, d, plan.groups);
      if ReadyToMerge(s) {
        TidyingCarries(s, c, d);
        TidyingCarries(s, d, plan.groups);
      }
    }
  }

  lemma AllTidy(c: seq<Group>, d: seq<Group>, e: seq<Group>)
    requires |c| == |d| == |e|
    requires forall i :: 0 <= i < |c| && Sane(c[i].items) ==> Tidy(c[i].items, d[i].items)
    requires forall i :: 0 <= i < |c| && Sane(d[i].items) ==> Tidy(d[i].items, e[i].items)
    ensures forall i :: 0 <= i < |c| && Sane(c[i].items) ==> InOrder(e[i].items) && AllClear(e[i].items)
  {
    hide Sane, InOrder, AllClear;
  }

  /** What the main program does once the log is read. It gives up on a log of a single list; otherwise
      the chain is regrouped, its lists go through the passes, and the plan is written and read back.
      Every byte of every read that was kept, and so of every read that came in with a burst, is asked
      for with some group. */
  method Analyse(a: Analyzer, threshold: int, ml: List<Mapping>, tl: List<Trigger>, hdd: bool)
    returns (table: PlanTable?, ghost c: seq<Group>)
    requires a.Finished() && |a.q.accepted| % QUEUE_MAX != 0
    requires ml.Valid() && tl.Valid() && Outside(ml, a.all) && Outside(tl, a.all)
    modifies a.all
    ensures (table != null <==> QUEUE_MAX < |old(a.q.accepted)|) && (table != null ==> fresh(table))
    ensures table != null ==>
              && c != [] && Passed(hdd, Kept(old(a.q.accepted), threshold), c)
              && table.groups == Loaded(Written(Outgoing(hdd, Final(old(ml.contents), old(tl.contents), c))))
    ensures var s, b := Kept(old(a.q.accepted), threshold), BurstReads(old(a.q.accepted), threshold);
            table != null && ReadyToMerge(s) ==>
              forall r, x :: (r in Items(s) || r in b) && r.off <= x < r.off + r.len ==>
                Asked(hdd, table.groups, r.path, x)
    ensures var batches := Batches(old(a.q.accepted));
            table != null && ReadyToMerge(Kept(old(a.q.accepted), threshold)) ==>
              forall i, r, x :: 0 <= i < |batches| && batches[i].queueingTime <= threshold && r in batches[i].items
                                && r.off <= x < r.off + r.len ==>
                Asked(hdd, table.groups, r.path, x)
  {
    hide Plan.Chained, Plan.Valid, Analyzer.Finished, Chains.Linked, Kept, ReadyToMerge, CarriedAll, Asked, Items,
         BurstReads, Loaded, Written, Outgoing, Final, LoadedOffsets, Distinct, MergeAll, InOrder, AllClear, Sane,
         Batches;
    ghost var accepted, batches := a.q.accepted, Batches(a.q.accepted);
    ghost var s, b := Kept(accepted, threshold), BurstReads(accepted, threshold);
    if b != [] { BurstsAreKept(a.q.accepted, threshold); }
    var plan, ok := TakeKept(a, threshold);
    if !ok {
      return null, [];
    }
    CanReorder(plan);
    RunPasses(plan, hdd);
    c := plan.groups;
    ghost var mm, ts := ml.contents, tl.contents;
    plan.HeadIsFirst();
    table := Deliver(plan, ml, tl, hdd);
    if ReadyToMerge(s) {
      forall r, x | (r in Items(s) || r in b) && r.off <= x < r.off + r.len
        ensures Asked(hdd, table.groups, r.path, x)
      {
        EveryByteIsAsked(hdd, mm, ts, s, c, r, x);
      }
      forall i, r, x | 0 <= i < |batches| && batches[i].queueingTime <= threshold && r in batches[i].items
                       && r.off <= x < r.off + r.len
        ensures Asked(hdd, table.groups, r.path, x)
      {
        BurstReadsAre(accepted, threshold, r);
      }
    }
  }
}
