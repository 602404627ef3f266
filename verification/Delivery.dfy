/** From the regrouped chain to what the prefetcher has in memory: triggers are assigned, the lists
    are written out with the files of their reads, and both files are read back. */
module Delivery {
  import opened Sequences
  import opened Chains
  import opened Merging
  import opened ReadLists
  import opened Grouping
  import opened SideLists
  import opened TriggerPlan
  import opened Plans
  import opened Triggers
  import opened PrefetchPlan
  import opened Breakpoints
  import opened Fetching

  /** The file of each read. */
  function FilesOf(items: seq<Read>): (r: seq<Meta>)
    ensures |r| == |items|
  {
    seq(|items|, i requires 0 <= i < |items| => Meta(items[i].ino, items[i].path))
  }

  function PathsOf(ms: seq<Meta>): (r: seq<string>)
    ensures |r| == |ms|
  {
    seq(|ms|, i requires 0 <= i < |ms| => ms[i].path)
  }

  function DataOf(items: seq<Read>): (r: seq<Data>)
    ensures |r| == |items|
  {
    seq(|items|, i requires 0 <= i < |items| => Data(items[i].path, items[i].off, items[i].len))
  }

  /** `paths` are those of the files of these reads, each once, by increasing inode and as its first read
      has it. */
  ghost predicate FilesListed(items: seq<Read>, paths: seq<string>, inos: seq<int>) {
    && |inos| == |paths| && (forall k, l :: 0 <= k < l < |inos| ==> inos[k] < inos[l])
    && (forall k :: 0 <= k < |paths| ==> FirstOfFile(items, inos[k], paths[k]))
    && forall j :: 0 <= j < |items| ==> items[j].ino in inos
  }

  ghost predicate FirstOfFile(items: seq<Read>, ino: int, path: string) {
    exists j :: 0 <= j < |items| && items[j].ino == ino && items[j].path == path
                && forall l :: 0 <= l < j ==> items[l].ino != ino
  }

  lemma FilesAreListed(items: seq<Read>) returns (inos: seq<int>)
    ensures FilesListed(items, PathsOf(InsertMetas([], FilesOf(items))), inos)
  {
    hide InsertMetas;
    var ms := FilesOf(items);
    var r := InsertMetas([], ms);
    inos := seq(|r|, k requires 0 <= k < |r| => r[k].ino);
    NoInodes();
    MetasAreFirsts([], ms, 0);
    forall k | 0 <= k < |r|
      ensures FirstOfFile(items, inos[k], PathsOf(r)[k])
    {
      var j := MetaIsFirst(ms, k);
      assert forall l :: 0 <= l < j ==> ms[l].ino == items[l].ino;
      assert items[j].ino == inos[k] && items[j].path == PathsOf(r)[k];
    }
    forall j | 0 <= j < |items|
      ensures items[j].ino in inos
    {
      var k := MetaIsThere(ms, j);
      assert inos[k] == items[j].ino;
    }
  }

  /** What is written of a list: its files in the order of their inodes, and its reads. */
  function SectionOf(g: Group): Section {
    Section(g.md, g.bpOffset, PathsOf(InsertMetas([], FilesOf(g.items))), DataOf(g.items))
  }

  function SectionsOf(s: seq<Group>): (r: seq<Section>)
    ensures |r| == |s|
  {
    seq(|s|, i requires 0 <= i < |s| => SectionOf(s[i]))
  }

  /** The walk along one list: its files are entered into a sorted list, its reads listed. */
  method WriteOut(l: ReadList) returns (sec: Section)
    requires l.nodes.Valid()
    ensures sec == SectionOf(l.Value())
    ensures sec.md == l.md && sec.bpOffset == l.bpOffset
    ensures exists inos :: FilesListed(l.nodes.contents, sec.metas, inos)
    ensures var items := l.nodes.contents;
            && |sec.data| == |items|
            && forall j :: 0 <= j < |items| ==> sec.data[j] == Data(items[j].path, items[j].off, items[j].len)
  {
    hide Chains.Linked, InsertMetas, IncreasingInodes, FilesListed;
    ghost var items := l.nodes.contents;
    var files, data := [], [];
    var n := l.nodes.head;
    ghost var k := 0;
    l.nodes.At(0);
    while n != null
      invariant 0 <= k <= |items| && n == NodeAt(l.nodes.spine, k)
      invariant files == FilesOf(items)[..k] && data == DataOf(items)[..k]
      decreases |items| - k
    {
      l.nodes.At(k);
      files := files + [Meta(n.item.ino, n.item.path)];
      data := data + [Data(n.item.path, n.item.off, n.item.len)];
      n, k := n.next, k + 1;
    }
    l.nodes.At(k);
    assert files == FilesOf(items) && data == DataOf(items);
    var metas: List<Meta> := new List();
    GenerateMetaList(metas, files);
    var paths := ListPaths(metas);
    sec := Section(l.md, l.bpOffset, paths, data);
    ghost var inos := FilesAreListed(items);
  }

  method ListPaths(l: List<Meta>) returns (paths: seq<string>)
    requires l.Valid()
    ensures paths == PathsOf(l.contents)
  {
    hide Chains.Linked;
    paths := [];
    var n := l.head;
    ghost var k := 0;
    l.At(0);
    while n != null
      invariant 0 <= k <= |l.contents| && n == NodeAt(l.spine, k) && paths == PathsOf(l.contents)[..k]
      decreases |l.contents| - k
    {
      l.At(k);
      paths := paths + [n.item.path];
      n, k := n.next, k + 1;
    }
    l.At(k);
  }

  /** The walk along the chain. */
  method WriteOutAll(plan: Plan) returns (ss: seq<Section>)
    requires plan.Chained()
    ensures ss == SectionsOf(plan.groups)
  {
    hide Holds, Chains.Linked, Separate, Filled, InChain, Represent, Plan.Chained, SectionOf;
    plan.HeadIsFirst();
    ss := [];
    var rlist := plan.head;
    ghost var k := 0;
    while rlist != null
      invariant 0 <= k <= |plan.lists| == |plan.groups| && rlist == ListAt(plan.lists, k) && plan.Chained()
      invariant ss == SectionsOf(plan.groups)[..k]
      decreases |plan.lists| - k
    {
      plan.At(k);
      var sec := WriteOut(rlist);
      ss := ss + [sec];
      rlist, k := rlist.next, k + 1;
    }
  }

  // ----- what the prefetcher gets -----

  /** The chain with triggers. */
  ghost function Final(mm: seq<Mapping>, ts: seq<Trigger>, s: seq<Group>): seq<Group>
    requires s != []
  {
    Assigned(mm, ts, s[0 := s[0].(md := 0, bpOffset := 0)])
  }

  /** What is written for a chain. */
  ghost function Outgoing(hdd: bool, s: seq<Group>): (r: seq<FetchGroup>)
    ensures |r| == |s|
  {
    Sent(hdd, SectionsOf(s), true)
  }

  /** The key of each list is its file and offset, and offset 0 for the first. */
  lemma KeysOutgoing(hdd: bool, s: seq<Group>, i: nat)
    requires i < |s|
    ensures Keys(Outgoing(hdd, s))[i] == Key(s[i].md, if i == 0 then 0 else s[i].bpOffset)
  {
    hide InsertMetas, Entries;
    assert SectionsOf(s)[i].md == s[i].md && SectionsOf(s)[i].bpOffset == s[i].bpOffset;
  }

  /** The rows of each list: for a rotating disk the paths of its files first, then its reads. */
  lemma RowsOutgoing(hdd: bool, s: seq<Group>, i: nat) returns (paths: seq<string>, inos: seq<int>)
    requires i < |s|
    ensures FilesListed(s[i].items, paths, inos)
    ensures var es, items, n := Outgoing(hdd, s)[i].entries, s[i].items, if hdd then |paths| else 0;
            && |es| == n + |items|
            && (forall k :: 0 <= k < n ==> es[k] == Entry(paths[k], 0, 0, 0))
            && forall j :: 0 <= j < |items| ==> es[n + j] == Entry(items[j].path, items[j].off, items[j].len, 1)
  {
    hide InsertMetas, FilesListed;
    inos := FilesAreListed(s[i].items);
    var sec := SectionsOf(s)[i];
    paths := sec.metas;
    assert Outgoing(hdd, s)[i].entries == Entries(hdd, sec);
  }

  /** Every list but the first has a trigger when triggers have been assigned, and no list is empty. */
  lemma {:induction false} AssignedHaveTriggers(mm: seq<Mapping>, ts: seq<Trigger>, s: seq<Group>)
    requires s != [] && Filled(s)
    ensures var r := Assigned(mm, ts, s);
            && r != [] && Filled(r) && r[0].md == s[0].md && r[0].bpOffset == s[0].bpOffset
            && forall i :: 1 <= i < |r| ==> r[i].bpOffset != 0
    decreases |s|
  {
    if |s| >= 2 {
      var a, rest := s[0], s[2..];
      var b := ScanBetween(mm, ts, a, s[1]);
      ScanKeepsTimes(mm, ts, a.endTs, s[1].startTs, s[1]);
      hide Scan, ScanBetween;
      assert a.items != [] && s[1].items != [] && forall i :: 0 <= i < |rest| ==> rest[i] == s[i + 2];
      if b.bpOffset == 0 {
        AssignedHaveTriggers(mm, ts, [Absorb(a, b)] + rest);
      } else {
        AssignedHaveTriggers(mm, ts, [b] + rest);
        var r := Assigned(mm, ts, [b] + rest);
        assert forall i :: 1 <= i <= |r| ==> ([a] + r)[i] == r[i - 1];
      }
    }
  }

  lemma {:induction false} AllButFirst(keys: seq<Key>)
    requires keys != [] && keys[0].bpOffset == 0 && forall i :: 1 <= i < |keys| ==> keys[i].bpOffset != 0
    ensures LoadedOffsets(keys) == keys[1..]
  {
    var before, k := keys[..|keys| - 1], keys[|keys| - 1];
    if |keys| == 1 {
      assert before == [] && LoadedOffsets(before) == [];
    } else {
      AllButFirst(before);
      assert before[1..] + [k] == keys[1..];
    }
  }

  /** If no two lists got the same key, the prefetcher has exactly the lists of the chain, and a
      breakpoint for every list but the first. */
  lemma ChainArrives(hdd: bool, mm: seq<Mapping>, ts: seq<Trigger>, s: seq<Group>)
    requires s != [] && Filled(s) && Distinct(Keys(Outgoing(hdd, Final(mm, ts, s))))
    ensures var sent := Outgoing(hdd, Final(mm, ts, s));
            sent != [] && Loaded(Written(sent)) == sent && LoadedOffsets(Keys(sent)) == Keys(sent)[1..]
  {
    hide Assigned, Loaded, Written, Distinct;
    var start := s[0 := s[0].(md := 0, bpOffset := 0)];
    FilledStays(s, 0, start[0]);
    AssignedHaveTriggers(mm, ts, start);
    var r := Final(mm, ts, s);
    var sent := Outgoing(hdd, r);
    forall i | 0 <= i < |sent|
      ensures sent[i].entries != []
    {
      EntriesAreMany(hdd, SectionOf(r[i]));
      assert sent[i].entries == Entries(hdd, SectionsOf(r)[i]) && |SectionOf(r[i]).data| > 0;
    }
    LoadWritten(sent);
    AllButFirst(Keys(sent));
  }

  /** Assign triggers, write the plan, and read it back. */
  method Deliver(plan: Plan, ml: List<Mapping>, tl: List<Trigger>, hdd: bool) returns (table: PlanTable)
    requires plan.Chained() && plan.lists != [] && |plan.lists| == |plan.groups| && tl.Valid() && ml.Valid()
    modifies plan`lists, plan`groups, plan.all
    ensures var sent := Outgoing(hdd, Final(old(ml.contents), old(tl.contents), old(plan.groups)));
            && fresh(table) && table.groups == Loaded(Written(sent)) && table.offsets == LoadedOffsets(Keys(sent))
            && table.total == |table.offsets|
            && (Distinct(Keys(sent)) ==> sent != [] && table.groups == sent && table.offsets == Keys(sent)[1..])
  {
    hide Assigned, Loaded, Written, LoadedOffsets, Distinct, Sent, Keys, SectionsOf, Chains.Linked,
         Represent, InChain;
    ghost var gs, mm, ts := plan.groups, ml.contents, tl.contents;
    SetTriggers(plan, ml, tl);
    var ss := WriteOutAll(plan);
    var bp, pf := Generate(hdd, ss);
    table := new PlanTable();
    table.Load(bp, pf);
    if Distinct(Keys(Outgoing(hdd, Final(mm, ts, gs)))) {
      ChainArrives(hdd, mm, ts, gs);
    }
  }

  /** From the chain to the replay: the first list is fetched at launch, and whatever else is fetched
      is a list of the chain, with the files and reads of that list, after a hit at the place of its
      trigger. */
  lemma ChainIsReplayed(c: Config, mem: seq<Byte>, es: seq<Event>, g: nat, hdd: bool,
                        mm: seq<Mapping>, ts: seq<Trigger>, s: seq<Group>)
    requires s != [] && Filled(s) && Distinct(Keys(Outgoing(hdd, Final(mm, ts, s))))
    requires c.groups == Loaded(Written(Outgoing(hdd, Final(mm, ts, s))))
    ensures Run(c, mem, es).started != [] && Run(c, mem, es).started[0] == 0
    ensures g in Run(c, mem, es).started ==>
              && g < |Final(mm, ts, s)| == |c.groups|
              && c.groups[g].entries == Entries(hdd, SectionOf(Final(mm, ts, s)[g]))
              && (g > 0 ==> exists i: nat :: Fires(c, mem, es, i, g) && i < |es| && es[i].Trap?
                                             && Placed(c, es[..i], es[i].addr, g))
              && (g > 0 ==> exists i: nat, e :: Fires(c, mem, es, i, g) && i < |es| && e in es[..i] && !e.Trap?
                                                && e.md == Final(mm, ts, s)[g].md
                                                && es[i] == Trap((if e.Exec? then c.execBase else e.base)
                                                                 + Final(mm, ts, s)[g].bpOffset))
  {
    hide Assigned, Loaded, Written, Distinct, Sent, Run, FiresIn, Placed, Entries, InsertMetas;
    var start := s[0 := s[0].(md := 0, bpOffset := 0)];
    FilledStays(s, 0, start[0]);
    AssignedHaveTriggers(mm, ts, start);
    var ss := SectionsOf(Final(mm, ts, s));
    assert forall i :: 0 <= i < |ss| ==> |ss[i].data| == |Final(mm, ts, s)[i].items|;
    ReplayFetchesThePlan(c, mem, es, g, hdd, ss);
    if g > 0 && g in Run(c, mem, es).started {
      ChainArrives(hdd, mm, ts, s);
      KeysOutgoing(hdd, Final(mm, ts, s), g);
      var i: nat :| Fires(c, mem, es, i, g) && i < |es| && es[i].Trap? && Placed(c, es[..i], es[i].addr, g);
      var e := PlacedBy(c, es[..i], es[i].addr, g);
    }
  }

  lemma PlacedBy(c: Config, es: seq<Event>, a: int, g: nat) returns (e: Event)
    requires Placed(c, es, a, g)
    ensures e in es && !e.Trap? && g < |c.groups| && e.md == c.groups[g].key.md
    ensures a == (if e.Exec? then c.execBase else e.base) + c.groups[g].key.bpOffset
  {
    e :| e in es && Brings(c, e, g) && a == PlaceOf(c, e, g);
  }
}
