/** When files are still looked at: planting at a mapping goes on while fewer breakpoints have been
    inserted than the plan has. Breakpoints planted twice use this up. */
module Gates {
  import opened Sequences
  import opened PrefetchPlan
  import opened Breakpoints

  function Addrs(rs: seq<Restore>): (r: seq<int>)
    ensures |r| == |rs|
  {
    seq(|rs|, i requires 0 <= i < |rs| => rs[i].addr)
  }

  /** A planting leaves two restore nodes with one address exactly if some address that it arms had
      one already, or two of the nodes that it arms plan the same address. Which nodes it arms is
      known before it. */
  lemma RepeatsExactly(c: Config, s: State, i: nat, md: int, base: int)
    requires Distinct(Addrs(s.restores))
    ensures var ns := PlannedNodes(c, i, md);
            var n := ArmedCount(c, md, base, Addresses(s.restores), s.fetched, ns);
            && n <= |ns| && (forall k :: 0 <= k < n ==> ns[k] < |c.offsets|)
            && (!Distinct(Addrs(PlantFrom(c, s, i, md, base).0.restores)) <==>
                || (exists k :: 0 <= k < n && base + c.offsets[ns[k]].bpOffset in Addrs(s.restores))
                || (exists k, l :: 0 <= k < l < n && c.offsets[ns[k]].bpOffset == c.offsets[ns[l]].bpOffset))
  {
    hide PlantFrom, PlannedNodes, FirstAt, Distinct, Addrs, ArmInOrder, ArmedCount, Addresses;
    var t := PlantFrom(c, s, i, md, base).0;
    var ns, r := PlannedNodes(c, i, md), NewRestores(s, t);
    PlantArms(c, s, i, md, base);
    PlantGrows(c, s, i, md, base);
    AddrsConcat(s.restores, r);
    assert t.restores == s.restores + r;
    DistinctConcat(Addrs(s.restores), Addrs(r));
    ArmedAddrs(c, md, base, r, ns);
  }

  lemma ArmedAddrs(c: Config, md: int, base: int, r: seq<Restore>, ns: seq<nat>)
    requires ArmInOrder(c, md, base, r, ns)
    ensures forall k :: 0 <= k < |r| ==> ns[k] < |c.offsets| && Addrs(r)[k] == base + c.offsets[ns[k]].bpOffset
  {
    forall k | 0 <= k < |r|
      ensures ns[k] < |c.offsets| && r[k].addr == base + c.offsets[ns[k]].bpOffset
    {
      assert ArmedFor(c, ns[k], md, base, r[k]);
    }
  }

  lemma AddrsConcat(r: seq<Restore>, q: seq<Restore>)
    ensures Addrs(r + q) == Addrs(r) + Addrs(q) && forall k :: 0 <= k < |r| ==> Addrs(r)[k] == r[k].addr
  {
  }

  lemma DistinctConcat<T>(a: seq<T>, b: seq<T>)
    requires Distinct(a)
    ensures Distinct(a + b) <==>
              (forall k :: 0 <= k < |b| ==> b[k] !in a) && forall k, l :: 0 <= k < l < |b| ==> b[k] != b[l]
  {
    var s := a + b;
    if Distinct(s) {
      forall k, l | 0 <= k < l < |b|
        ensures b[k] != b[l]
      {
        assert s[|a| + k] == b[k] && s[|a| + l] == b[l];
      }
      forall k | 0 <= k < |b|
        ensures b[k] !in a
      {
        assert s[|a| + k] == b[k] && forall j :: 0 <= j < |a| ==> s[j] == a[j];
      }
    }
  }

  // ----- the gate -----

  /** The offset nodes for which a step plants. */
  function StepNodes(c: Config, s: State, e: Event): seq<nat> {
    if e.Trap? then []
    else
      var ns, n := PlannedNodes(c, FirstOf(c.offsets, e.md), e.md), |NewRestores(s, Step(c, s, e))|;
      if n <= |ns| then ns[..n] else ns
  }

  /** The offset nodes for which a run plants, in order. */
  function RunNodes(c: Config, mem: seq<Byte>, es: seq<Event>): seq<nat> {
    if es == [] then []
    else RunNodes(c, mem, es[..|es| - 1]) + StepNodes(c, Run(c, mem, es[..|es| - 1]), es[|es| - 1])
  }

  lemma StepNodesCount(c: Config, s: State, e: Event)
    ensures |StepNodes(c, s, e)| == Step(c, s, e).inserted - s.inserted
    ensures forall k :: 0 <= k < |StepNodes(c, s, e)| ==> StepNodes(c, s, e)[k] < |c.offsets|
  {
    hide PlantFrom, PlannedNodes, FirstAt;
    StepGrows(c, s, e);
    if !e.Trap? {
      var i := FirstOf(c.offsets, e.md);
      PlannedNodesAre(c, i, e.md, 0);
      PlantArms(c, s, i, e.md, if e.Exec? then c.execBase else e.base);
      PlantArms(c, s.(launched := true), i, e.md, if e.Exec? then c.execBase else e.base);
    }
  }

  lemma {:induction false} RunNodesCount(c: Config, mem: seq<Byte>, es: seq<Event>)
    ensures |RunNodes(c, mem, es)| == Run(c, mem, es).inserted
    ensures forall k :: 0 <= k < |RunNodes(c, mem, es)| ==> RunNodes(c, mem, es)[k] < |c.offsets|
  {
    hide Step, StepNodes;
    if es != [] {
      RunNodesCount(c, mem, es[..|es| - 1]);
      StepNodesCount(c, Run(c, mem, es[..|es| - 1]), es[|es| - 1]);
    }
  }

  /** As long as no node is planted for twice, the gate closes exactly when all nodes have been
      planted for. */
  lemma {:induction false} GateClosesExactly(c: Config, mem: seq<Byte>, es: seq<Event>)
    requires c.total == |c.offsets| && Distinct(RunNodes(c, mem, es))
    ensures Run(c, mem, es).inserted >= c.total <==> forall j: nat :: j < |c.offsets| ==> j in RunNodes(c, mem, es)
  {
    hide Run, RunNodes;
    RunNodesCount(c, mem, es);
    AllOrFewer(RunNodes(c, mem, es), |c.offsets|);
  }

  /** Different numbers below n are all of them exactly if they are n. */
  lemma {:induction false} AllOrFewer(s: seq<nat>, n: nat)
    requires Distinct(s) && forall k :: 0 <= k < |s| ==> s[k] < n
    ensures |s| <= n && (|s| == n <==> forall j: nat :: j < n ==> j in s)
    decreases n
  {
    if s == [] {
      assert 0 !in s;
    } else {
      assert s[0] < n;
      var k := FirstIndex(s, n - 1);
      if k < |s| {
        var r := Remove(s, k);
        RemoveMembers(s, k, r);
        assert forall i :: 0 <= i < |r| ==> r[i] in r && r[i] in s;
        AllOrFewer(r, n - 1);
      } else {
        AllOrFewer(s, n - 1);
        assert n - 1 !in s;
      }
    }
  }

  /** A plan with a launch list and two breakpoints in two files. */
  function TwoFiles(n: nat, execBase: int): Config {
    Config([FetchGroup(Key(0, 0), []), FetchGroup(Key(1, 5), []), FetchGroup(Key(2, 7), [])],
           [Key(1, 5), Key(2, 7)], 2, n, execBase)
  }

  /** What one mapping of the first file does, as long as its list has not been fetched. */
  lemma MapFirst(n: nat, execBase: int, s: State, base: int)
    requires !s.exited && s.inserted < 2 && 1 !in s.fetched && FirstAt(s.restores, 5) == |s.restores|
    ensures Step(TwoFiles(n, execBase), s, Mmap(1, base)) == Arm(s, base + 5, 1, n)
  {
    hide Poke, Peek, FirstAt;
    var c := TwoFiles(n, execBase);
    assert FirstOf(c.offsets, 1) == 0 by { assert c.offsets[0].md == 1; }
    assert FindGroup(c.groups, Key(1, 5)) == 1 by { assert c.groups[1].key == Key(1, 5); }
    assert FindGroup(c.groups, Key(1, 7)) == 3;
    var t := Arm(s, base + 5, 1, n);
    assert PlantFrom(c, t, 2, 1, base) == (t, 0);
    assert PlantFrom(c, t, 1, 1, base) == PlantFrom(c, t, 2, 1, base);
    assert PlantFrom(c, s, 0, 1, base) == PlantFrom(c, t, 1, 1, base);
  }

  /** Mapping one file twice plants its breakpoint twice, at one address if the bases are the same.
      The count of the plan is then used up, and nothing is planted in the other file any more. */
  lemma GateUsedUp(n: nat, execBase: int, mem: seq<Byte>, base: int, base': int, other: int)
    requires base != 0
    ensures var c, es := TwoFiles(n, execBase), [Mmap(1, base), Mmap(1, base')];
            && Addrs(Run(c, mem, es).restores) == [base + 5, base' + 5] && Run(c, mem, es).inserted == 2
            && Run(c, mem, es + [Mmap(2, other)]) == Run(c, mem, es)
  {
    hide Poke, Peek, PlantFrom;
    var c, es := TwoFiles(n, execBase), [Mmap(1, base), Mmap(1, base')];
    var s0 := Start(c, mem);
    var s1 := Arm(s0, base + 5, 1, n);
    MapFirst(n, execBase, s0, base);
    MapFirst(n, execBase, s1, base');
    assert es[..1] == [Mmap(1, base)] && es[..1][..0] == [];
    assert Run(c, mem, []) == s0 && Run(c, mem, es[..1]) == s1;
    assert Run(c, mem, es) == Arm(s1, base' + 5, 1, n);
    assert (es + [Mmap(2, other)])[..2] == es;
  }
}
