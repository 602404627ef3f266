/** What is fetched in a run: the launch list before the program starts, then the list of every
    breakpoint that is hit, each once. */
module Fetching {
  import opened Sequences
  import opened PrefetchPlan
  import opened Breakpoints

  /** In state `s` a hit at the event's address names group g. */
  ghost predicate FiresIn(s: State, e: Event, g: nat) {
    && e.Trap? && !s.exited
    && var i := FirstAt(s.restores, e.addr); i < |s.restores| && s.restores[i].group == g
  }

  /** The i-th event is a hit whose restore node names group g. */
  ghost predicate Fires(c: Config, mem: seq<Byte>, es: seq<Event>, i: nat, g: nat) {
    i < |es| && FiresIn(Run(c, mem, es[..i]), es[i], g)
  }

  /** What is true of the groups started by the end of a run. */
  ghost predicate Accounted(c: Config, mem: seq<Byte>, es: seq<Event>, t: State) {
    && Distinct(t.started) && t.started != [] && t.started[0] == 0
    && |t.started| == t.fired + 1 && t.inserted == |t.restores|
    && (forall g :: g in t.started <==> g in t.fetched)
    && (forall g: nat :: g in t.fetched <==> g == 0 || exists i: nat :: Fires(c, mem, es, i, g))
  }

  /** In every run the head group is started first, each group is started at most once, and
      besides the head exactly those are that some hit names; the counters agree. */
  lemma {:induction false} FetchedAtMostOnce(c: Config, mem: seq<Byte>, es: seq<Event>)
    requires c.groups != []
    ensures Accounted(c, mem, es, Run(c, mem, es))
  {
    hide PlantFrom, FiresIn, Step, Accounted;
    if es == [] {
      AccountedAtStart(c, mem);
    } else {
      FetchedAtMostOnce(c, mem, es[..|es| - 1]);
      AccountedStep(c, mem, es);
    }
  }

  lemma AccountedAtStart(c: Config, mem: seq<Byte>)
    requires c.groups != []
    ensures Accounted(c, mem, [], Start(c, mem))
  {
  }

  lemma AccountedStep(c: Config, mem: seq<Byte>, es: seq<Event>)
    requires es != [] && Accounted(c, mem, es[..|es| - 1], Run(c, mem, es[..|es| - 1]))
    ensures Accounted(c, mem, es, Run(c, mem, es))
  {
    hide Step, FiresIn;
    var before, e := es[..|es| - 1], es[|es| - 1];
    var s := Run(c, mem, before);
    StepGrows(c, s, e);
    StepFetches(c, s, e);
    forall i: nat, g: nat
      ensures Fires(c, mem, es, i, g) <==> Fires(c, mem, before, i, g) || (i == |before| && FiresIn(s, e, g))
    {
      if i < |before| { assert before[..i] == es[..i]; }
    }
    assert forall g: nat :: FiresIn(s, e, g) ==> Fires(c, mem, es, |before|, g);
  }

  /** A plan without groups ends before anything is done. */
  lemma {:induction false} NothingWithoutGroups(c: Config, mem: seq<Byte>, es: seq<Event>)
    requires c.groups == []
    ensures Run(c, mem, es) == Blank(mem).(exited := true)
  {
    if es != [] {
      NothingWithoutGroups(c, mem, es[..|es| - 1]);
    }
  }

  lemma StepFetches(c: Config, s: State, e: Event)
    ensures var t := Step(c, s, e);
            || (t.fetched == s.fetched && t.started == s.started && t.fired == s.fired
                && forall g :: FiresIn(s, e, g) ==> g in s.fetched)
            || exists g :: FiresIn(s, e, g) && (forall h :: FiresIn(s, e, h) ==> h == g) && g !in s.fetched
                           && t.started == s.started + [g] && t.fired == s.fired + 1
                           && t.fetched == s.fetched + {g}
  {
    hide PlantFrom, FirstAt;
    match e
    case Exec(md) => PlantGrows(c, s.(launched := true), FirstOf(c.offsets, md), md, c.execBase);
    case Mmap(md, base) => PlantGrows(c, s, FirstOf(c.offsets, md), md, base);
    case Trap(a) =>
      if !s.exited && FirstAt(s.restores, a) < |s.restores| {
        assert FiresIn(s, e, s.restores[FirstAt(s.restores, a)].group);
      }
  }

  // ----- where breakpoints are -----

  /** The event maps or loads the file of group g. */
  predicate Brings(c: Config, e: Event, g: nat) {
    !e.Trap? && g < |c.groups| && e.md == c.groups[g].key.md
  }

  /** Where the group's trigger then is. */
  function PlaceOf(c: Config, e: Event, g: nat): int
    requires Brings(c, e, g)
  {
    (if e.Exec? then c.execBase else e.base) + c.groups[g].key.bpOffset
  }

  /** `a` is where the group's trigger is in something that one of `es` maps or loads. */
  ghost predicate Placed(c: Config, es: seq<Event>, a: int, g: nat) {
    exists e :: e in es && Brings(c, e, g) && a == PlaceOf(c, e, g)
  }

  lemma {:induction false} PlantPlaces(c: Config, s: State, i: nat, md: int, base: int, es: seq<Event>, e: Event)
    requires e in es && !e.Trap? && e.md == md && base == if e.Exec? then c.execBase else e.base
    requires forall r :: r in s.restores ==> Placed(c, es, r.addr, r.group)
    ensures forall r :: r in PlantFrom(c, s, i, md, base).0.restores ==> Placed(c, es, r.addr, r.group)
    decreases |c.offsets| - i
  {
    hide FirstAt, Poke, Peek;
    if i < |c.offsets| {
      var bp := c.offsets[i].bpOffset;
      var g := FindGroup(c.groups, Key(md, bp));
      if g == |c.groups| {
        PlantPlaces(c, s, i + 1, md, base, es, e);
      } else if FirstAt(s.restores, bp) == |s.restores| && g !in s.fetched {
        assert Brings(c, e, g) && PlaceOf(c, e, g) == base + bp;
        PlantPlaces(c, Arm(s, base + bp, g, c.wordSize), i + 1, md, base, es, e);
      }
    }
  }

  /** In every run a breakpoint names a group whose trigger really lies there. */
  lemma {:induction false} RestoresArePlaced(c: Config, mem: seq<Byte>, es: seq<Event>)
    ensures forall r :: r in Run(c, mem, es).restores ==> Placed(c, es, r.addr, r.group)
  {
    hide PlantFrom, FirstAt, Poke, Peek;
    if es != [] {
      var before, e := es[..|es| - 1], es[|es| - 1];
      RestoresArePlaced(c, mem, before);
      var s := Run(c, mem, before);
      forall r | r in s.restores
        ensures Placed(c, es, r.addr, r.group)
      {
        assert Placed(c, before, r.addr, r.group) && es == before + [e];
      }
      match e
      case Exec(md) => PlantPlaces(c, s.(launched := true), FirstOf(c.offsets, md), md, c.execBase, es, e);
      case Mmap(md, base) => PlantPlaces(c, s, FirstOf(c.offsets, md), md, base, es, e);
      case Trap(a) =>
    }
  }

  /** The triggers in all that is mapped or loaded are at equal addresses or a word apart. */
  ghost predicate PlacesSpaced(c: Config, es: seq<Event>) {
    forall e, f, g, h :: e in es && f in es && Brings(c, e, g) && Brings(c, f, h) ==>
      var a, b := PlaceOf(c, e, g), PlaceOf(c, f, h);
      a == b || a + c.wordSize <= b || b + c.wordSize <= a
  }

  /** The memory invariant of every run, from what can be seen of the plan and the events before
      the run. */
  lemma {:induction false} SpacedPlacesKeepMemory(c: Config, mem: seq<Byte>, es: seq<Event>)
    requires c.wordSize > 0 && PlacesSpaced(c, es)
    ensures Sound(mem, Run(c, mem, es), Armed(c, mem, es), c.wordSize)
  {
    hide Run, Sound, Brings, PlaceOf;
    var rs := Run(c, mem, es).restores;
    RestoresArePlaced(c, mem, es);
    forall i, j | 0 <= i < |rs| && 0 <= j < |rs|
      ensures rs[i].addr == rs[j].addr || rs[i].addr + c.wordSize <= rs[j].addr || rs[j].addr + c.wordSize <= rs[i].addr
    {
      assert Placed(c, es, rs[i].addr, rs[i].group) && Placed(c, es, rs[j].addr, rs[j].group);
    }
    RunKeepsMemory(c, mem, es);
  }

  // ----- from the analyzer -----

  /** From the analyzer to the prefetcher: the first list of the chain is fetched at launch, and
      whatever else is fetched is one of its lists after a breakpoint at the place of its trigger
      had been hit. */
  lemma ReplayFetchesThePlan(c: Config, mem: seq<Byte>, es: seq<Event>, g: nat, hdd: bool, ss: seq<Section>)
    requires ss != [] && Distinct(Keys(Sent(hdd, ss, true))) && forall i :: 0 <= i < |ss| ==> ss[i].data != []
    requires c.groups == Loaded(Written(Sent(hdd, ss, true)))
    ensures |c.groups| == |ss| && Run(c, mem, es).started != [] && Run(c, mem, es).started[0] == 0
    ensures g in Run(c, mem, es).started ==>
              && g < |c.groups| && c.groups[g].entries == Entries(hdd, ss[g])
              && (g > 0 ==> exists i: nat :: Fires(c, mem, es, i, g) && i < |es| && es[i].Trap?
                                             && Placed(c, es[..i], es[i].addr, g))
  {
    hide Loaded, Written, Sent, Entries, Keys, Run, FirstAt, Brings;
    var sent := Sent(hdd, ss, true);
    forall i | 0 <= i < |sent|
      ensures sent[i].entries != []
    {
      EntriesAreMany(hdd, ss[i]);
    }
    LoadWritten(sent);
    FetchedAtMostOnce(c, mem, es);
    if g > 0 && g in Run(c, mem, es).started {
      var i: nat :| Fires(c, mem, es, i, g);
      RestoresArePlaced(c, mem, es[..i]);
      assert Placed(c, es[..i], es[i].addr, g);
      PlacedIsGroup(c, es[..i], es[i].addr, g);
    }
  }

  lemma PlacedIsGroup(c: Config, es: seq<Event>, a: int, g: nat)
    requires Placed(c, es, a, g)
    ensures g < |c.groups|
  {
  }
}
