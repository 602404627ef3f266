/** What each event of a run does, in terms of the plan and of the restore nodes alone: which
    breakpoints it plants, and what a hit fetches. */
module Planting {
  import opened PrefetchPlan
  import opened Breakpoints

  /** The j-th offset node is looked at when file `md` is planted: it is not before the first node of
      the file, and some group has the file and this offset. */
  ghost predicate LookedAt(c: Config, md: int, j: nat) {
    && j < |c.offsets| && (exists f :: 0 <= f <= j && c.offsets[f].md == md)
    && exists g :: 0 <= g < |c.groups| && c.groups[g].key == Key(md, c.offsets[j].bpOffset)
  }

  /** `ns` are all nodes that are looked at, in order. */
  ghost predicate NodesOf(c: Config, md: int, ns: seq<nat>) {
    && (forall k, l :: 0 <= k < l < |ns| ==> ns[k] < ns[l])
    && forall j: nat :: j in ns <==> LookedAt(c, md, j)
  }

  /** The first `n` nodes are all in front of the first one that stops the planting. */
  ghost predicate UpToBlocked(c: Config, md: int, base: int, s: State, ns: seq<nat>, n: nat)
    requires forall j :: 0 <= j < |ns| ==> ns[j] < |c.offsets|
  {
    && n <= |ns| && (n < |ns| ==> Blocked(c, md, base, Addresses(s.restores), s.fetched, ns, n))
    && forall k: nat :: k < n ==> !Blocked(c, md, base, Addresses(s.restores), s.fetched, ns, k)
  }

  /** A restore node for the breakpoint at an offset of the file that is at `base`. */
  ghost predicate NodeFor(c: Config, md: int, base: int, bpOffset: int, r: Restore) {
    r.addr == base + bpOffset && r.group < |c.groups| && c.groups[r.group].key == Key(md, bpOffset)
  }

  lemma PlannedAre(c: Config, md: int)
    ensures NodesOf(c, md, PlannedNodes(c, FirstOf(c.offsets, md), md))
    ensures forall k :: 0 <= k < |PlannedNodes(c, FirstOf(c.offsets, md), md)| ==>
              PlannedNodes(c, FirstOf(c.offsets, md), md)[k] < |c.offsets|
  {
    hide PlannedNodes, FindGroup, FirstOf;
    var f := FirstOf(c.offsets, md);
    var ns := PlannedNodes(c, f, md);
    PlannedNodesAre(c, f, md, 0);
    forall j: nat
      ensures j in ns <==> LookedAt(c, md, j)
    {
      PlannedNodesAre(c, f, md, j);
      FirstOfIs(c.offsets, md);
      if j < |c.offsets| { FindGroupIs(c.groups, Key(md, c.offsets[j].bpOffset)); }
    }
  }

  lemma FirstOfIs(os: seq<Key>, md: int)
    ensures var f := FirstOf(os, md);
            f <= |os| && (f < |os| ==> os[f].md == md) && forall j :: 0 <= j < f ==> os[j].md != md
  {
  }

  lemma FindGroupIs(gs: seq<FetchGroup>, key: Key)
    ensures var g := FindGroup(gs, key);
            g <= |gs| && (g < |gs| ==> gs[g].key == key) && forall j :: 0 <= j < g ==> gs[j].key != key
  {
  }

  lemma ArmedIsNode(c: Config, j: nat, md: int, base: int, r: Restore)
    requires ArmedFor(c, j, md, base, r) && LookedAt(c, md, j)
    ensures NodeFor(c, md, base, c.offsets[j].bpOffset, r)
  {
    hide FindGroup;
    FindGroupIs(c.groups, Key(md, c.offsets[j].bpOffset));
  }

  /** What is new in `t`: breakpoints for the first `n` of the nodes, and their count. */
  ghost predicate Planted(c: Config, md: int, base: int, s: State, t: State, ns: seq<nat>, n: nat)
    requires forall j :: 0 <= j < |ns| ==> ns[j] < |c.offsets|
  {
    && n <= |ns| && |t.restores| == |s.restores| + n && s.restores <= t.restores
    && (forall k :: 0 <= k < n ==> NodeFor(c, md, base, c.offsets[ns[k]].bpOffset, t.restores[|s.restores| + k]))
    && t == s.(mem := t.mem, restores := t.restores, inserted := s.inserted + n, launched := t.launched)
  }

  lemma PlantFromPlants(c: Config, s: State, md: int, base: int) returns (ns: seq<nat>, n: nat)
    ensures NodesOf(c, md, ns) && (forall k :: 0 <= k < |ns| ==> ns[k] < |c.offsets|)
    ensures UpToBlocked(c, md, base, s, ns, n)
    ensures Planted(c, md, base, s, PlantFrom(c, s, FirstOf(c.offsets, md), md, base).0, ns, n)
  {
    hide PlantFrom, PlannedNodes, ArmedCount, Blocked, FindGroup, FirstOf, ArmedFor, NodeFor, LookedAt, Addresses;
    var f := FirstOf(c.offsets, md);
    var t := PlantFrom(c, s, f, md, base).0;
    ns := PlannedNodes(c, f, md);
    n := ArmedCount(c, md, base, Addresses(s.restores), s.fetched, ns);
    PlannedAre(c, md);
    ArmedCountIs(c, md, base, Addresses(s.restores), s.fetched, ns);
    PlantArms(c, s, f, md, base);
    PlantGrows(c, s, f, md, base);
    forall k | 0 <= k < n
      ensures NodeFor(c, md, base, c.offsets[ns[k]].bpOffset, t.restores[|s.restores| + k])
    {
      assert ns[k] in ns && NewRestores(s, t)[k] == t.restores[|s.restores| + k];
      ArmedIsNode(c, ns[k], md, base, NewRestores(s, t)[k]);
    }
  }

  /** Loading the program, or mapping a file while the count of the plan is not used up, plants all
      nodes that are looked at, up to the first that stops it, and does nothing else. */
  lemma StepPlants(c: Config, s: State, e: Event) returns (ns: seq<nat>, n: nat)
    requires !s.exited && !e.Trap? && if e.Exec? then !s.launched else s.inserted < c.total
    ensures NodesOf(c, e.md, ns) && (forall k :: 0 <= k < |ns| ==> ns[k] < |c.offsets|)
    ensures var base := if e.Exec? then c.execBase else e.base;
            && UpToBlocked(c, e.md, base, s, ns, n) && Planted(c, e.md, base, s, Step(c, s, e), ns, n)
            && (Step(c, s, e).launched <==> s.launched || e.Exec?)
  {
    hide PlantFrom, NodesOf, Blocked, FirstOf, NodeFor;
    var base := if e.Exec? then c.execBase else e.base;
    var from := if e.Exec? then s.(launched := true) else s;
    ns, n := PlantFromPlants(c, from, e.md, base);
    PlantGrows(c, from, FirstOf(c.offsets, e.md), e.md, base);
    NoNodes(c, from, e.md, base);
  }

  lemma NoNodes(c: Config, s: State, md: int, base: int)
    ensures FirstOf(c.offsets, md) == |c.offsets| ==> PlantFrom(c, s, FirstOf(c.offsets, md), md, base).0 == s
  {
  }

  /** A planting returns 0 exactly if there is an offset node of the file and nothing stopped it. */
  lemma PlantReturns(c: Config, s: State, md: int, base: int) returns (ns: seq<nat>)
    ensures NodesOf(c, md, ns) && (forall k :: 0 <= k < |ns| ==> ns[k] < |c.offsets|)
    ensures var (t, code) := Plant(c, s, md, base);
            && (code == 0 || code == -1)
            && (code == 0 <==>
                  && (exists f :: 0 <= f < |c.offsets| && c.offsets[f].md == md)
                  && forall k: nat :: k < |ns| ==> !Blocked(c, md, base, Addresses(s.restores), s.fetched, ns, k))
  {
    hide PlantFrom, PlannedNodes, ArmedCount, Blocked, FindGroup, FirstOf, ArmedFor, NodeFor, LookedAt, Addresses;
    var f := FirstOf(c.offsets, md);
    ns := PlannedNodes(c, f, md);
    FirstOfIs(c.offsets, md);
    PlannedAre(c, md);
    ArmedCountIs(c, md, base, Addresses(s.restores), s.fetched, ns);
    PlantArms(c, s, f, md, base);
  }

  /** Until something ends the run, it is known from the events whether the program has been loaded. */
  lemma {:induction false} LaunchedExactly(c: Config, mem: seq<Byte>, es: seq<Event>)
    requires !Run(c, mem, es).exited
    ensures Run(c, mem, es).launched <==> exists e :: e in es && e.Exec?
  {
    if es != [] {
      var before, e := es[..|es| - 1], es[|es| - 1];
      assert es == before + [e];
      LaunchedExactly(c, mem, before);
      LaunchedStep(c, Run(c, mem, before), e);
      assert forall d :: d in es <==> d in before || d == e;
    }
  }

  lemma LaunchedStep(c: Config, s: State, e: Event)
    requires !s.exited
    ensures Step(c, s, e).launched <==> s.launched || e.Exec?
  {
    hide PlantFrom;
    match e
    case Exec(md) => PlantGrows(c, s.(launched := true), FirstOf(c.offsets, md), md, c.execBase);
    case Mmap(md, base) => PlantGrows(c, s, FirstOf(c.offsets, md), md, base);
    case Trap(a) =>
  }

  /** In a run: the first program that is loaded has its breakpoints planted, later ones nothing; a
      mapped file has them planted as long as fewer have been than the plan has. */
  lemma RunPlants(c: Config, mem: seq<Byte>, es: seq<Event>, e: Event) returns (ns: seq<nat>, n: nat)
    requires !Run(c, mem, es).exited && !e.Trap?
    ensures NodesOf(c, e.md, ns) && (forall k :: 0 <= k < |ns| ==> ns[k] < |c.offsets|)
    ensures var s, t, base := Run(c, mem, es), Run(c, mem, es + [e]), if e.Exec? then c.execBase else e.base;
            if if e.Exec? then forall d :: d in es ==> !d.Exec? else s.inserted < c.total
            then UpToBlocked(c, e.md, base, s, ns, n) && Planted(c, e.md, base, s, t, ns, n)
            else t == s
  {
    hide NodesOf, PlantFrom, Blocked, NodeFor;
    assert (es + [e])[..|es|] == es;
    var s := Run(c, mem, es);
    LaunchedExactly(c, mem, es);
    ns, n := PlantFromPlants(c, s, e.md, if e.Exec? then c.execBase else e.base);
    if if e.Exec? then !s.launched else s.inserted < c.total {
      ns, n := StepPlants(c, s, e);
    }
  }

  // ----- hits -----

  /** A hit at an address without a restore node ends the run, and does nothing else. Any other one
      fetches the group of the first node of the address, unless that has been done, and counts what
      it starts. */
  lemma RunHits(c: Config, mem: seq<Byte>, es: seq<Event>, a: int)
    requires !Run(c, mem, es).exited
    ensures var s, t := Run(c, mem, es), Run(c, mem, es + [Trap(a)]);
            if forall r :: r in s.restores ==> r.addr != a
            then t == s.(exited := true)
            else
              exists i ::
                && 0 <= i < |s.restores| && s.restores[i].addr == a
                && (forall j :: 0 <= j < i ==> s.restores[j].addr != a)
                && var g := s.restores[i].group;
                   t == s.(mem := t.mem, fetched := s.fetched + {g},
                           started := if g in s.fetched then s.started else s.started + [g],
                           fired := if g in s.fetched then s.fired else s.fired + 1)
  {
    hide Step, Poke, FirstAt;
    assert (es + [Trap(a)])[..|es|] == es;
    StepHits(c, Run(c, mem, es), a);
  }

  lemma StepHits(c: Config, s: State, a: int)
    requires !s.exited
    ensures var t := Step(c, s, Trap(a));
            if forall r :: r in s.restores ==> r.addr != a
            then t == s.(exited := true)
            else
              exists i ::
                && 0 <= i < |s.restores| && s.restores[i].addr == a
                && (forall j :: 0 <= j < i ==> s.restores[j].addr != a)
                && var g := s.restores[i].group;
                   t == s.(mem := t.mem, fetched := s.fetched + {g},
                           started := if g in s.fetched then s.started else s.started + [g],
                           fired := if g in s.fetched then s.fired else s.fired + 1)
  {
    hide Poke, FirstAt;
    FirstAtIs(s.restores, a);
    var i := FirstAt(s.restores, a);
    if i < |s.restores| {
      assert s.restores[i] in s.restores;
      var g := s.restores[i].group;
      assert g in s.fetched ==> s.fetched + {g} == s.fetched;
    }
  }

  lemma FirstAtIs(rs: seq<Restore>, a: int)
    ensures var i := FirstAt(rs, a);
            i <= |rs| && (i < |rs| ==> rs[i].addr == a) && forall j :: 0 <= j < i ==> rs[j].addr != a
  {
  }

  /** When the run has ended, nothing happens any more. */
  lemma RunEnded(c: Config, mem: seq<Byte>, es: seq<Event>, e: Event)
    requires Run(c, mem, es).exited
    ensures Run(c, mem, es + [e]) == Run(c, mem, es)
  {
    assert (es + [e])[..|es|] == es;
  }
}
