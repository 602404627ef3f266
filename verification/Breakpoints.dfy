/** The replay machine on values: breakpoints are planted in the memory of the traced program,
    and each one that is hit is taken out again and starts a prefetch. */
module Breakpoints {
  import opened Sequences
  import opened PrefetchPlan

  // ----- words of memory -----

  type Byte = x: int | 0 <= x < 256

  const INT3: Byte := 0xCC

  /** The value of a little-endian word. */
  function FromBytes(s: seq<Byte>): nat {
    if s == [] then 0 else s[0] + 256 * FromBytes(s[1..])
  }

  function ToBytes(w: nat, n: nat): (s: seq<Byte>)
    ensures |s| == n
  {
    if n == 0 then [] else [w % 256] + ToBytes(w / 256, n - 1)
  }

  /** The word with its lowest byte replaced by the breakpoint instruction. */
  function Trapped(w: nat): nat {
    w - w % 256 + INT3
  }

  /** What reading an unmapped word returns. */
  function AllOnes(n: nat): nat {
    FromBytes(seq(n, _ => 255))
  }

  lemma {:induction false} WordsRoundTrip(s: seq<Byte>)
    ensures ToBytes(FromBytes(s), |s|) == s
  {
    if s != [] {
      WordsRoundTrip(s[1..]);
      assert FromBytes(s) % 256 == s[0] && FromBytes(s) / 256 == FromBytes(s[1..]);
    }
  }

  lemma {:induction false} TrapIsOneByte(s: seq<Byte>)
    requires s != []
    ensures ToBytes(Trapped(FromBytes(s)), |s|) == [0xCC] + s[1..]
  {
    var low, high := s[0], FromBytes(s[1..]);
    assert FromBytes(s) == low + 256 * high && FromBytes(s) % 256 == low;
    assert Trapped(FromBytes(s)) == 256 * high + INT3;
    assert Trapped(FromBytes(s)) % 256 == INT3 && Trapped(FromBytes(s)) / 256 == high;
    WordsRoundTrip(s[1..]);
  }

  predicate Mapped(mem: seq<Byte>, a: int, n: nat) {
    0 <= a && a + n <= |mem|
  }

  function Peek(mem: seq<Byte>, a: int, n: nat): nat {
    if Mapped(mem, a, n) then FromBytes(mem[a..a + n]) else AllOnes(n)
  }

  function Poke(mem: seq<Byte>, a: int, w: nat, n: nat): (r: seq<Byte>)
    ensures |r| == |mem|
  {
    if Mapped(mem, a, n) then mem[..a] + ToBytes(w, n) + mem[a + n..] else mem
  }

  // ----- the machine -----

  /** The word saved at an address, and the group that a hit there fetches. */
  datatype Restore = Restore(addr: int, data: nat, group: nat)

  /** The plan, the word size (8, or 4 on 32-bit machines), and where programs are loaded. */
  datatype Config = Config(groups: seq<FetchGroup>, offsets: seq<Key>, total: nat, wordSize: nat, execBase: int)

  /** `fetched` are the groups flagged as prefetched, `started` those whose prefetch was started. */
  datatype State = State(mem: seq<Byte>, restores: seq<Restore>, fetched: set<nat>, started: seq<nat>,
                         inserted: nat, fired: nat, launched: bool, exited: bool)

  datatype Event = Exec(md: int) | Mmap(md: int, base: int) | Trap(addr: int)

  /** Before anything happens. */
  function Blank(mem: seq<Byte>): State {
    State(mem, [], {}, [], 0, 0, false, false)
  }

  /** The first restore node of an address, or the number of nodes. */
  function FirstAt(rs: seq<Restore>, a: int): (i: nat)
    ensures i <= |rs| && (i < |rs| ==> rs[i].addr == a)
    ensures forall j :: 0 <= j < i ==> rs[j].addr != a
  {
    var addrs := seq(|rs|, i requires 0 <= i < |rs| => rs[i].addr);
    assert forall j :: 0 <= j < |rs| ==> addrs[j] == rs[j].addr;
    FirstIndex(addrs, a)
  }

  /** The first offset node of a file, or the number of nodes. */
  function FirstOf(os: seq<Key>, md: int): (i: nat)
    ensures i <= |os| && (i < |os| ==> os[i].md == md)
    ensures forall j :: 0 <= j < i ==> os[j].md != md
  {
    var mds := seq(|os|, i requires 0 <= i < |os| => os[i].md);
    assert forall j :: 0 <= j < |os| ==> mds[j] == os[j].md;
    FirstIndex(mds, md)
  }

  /** Save the word at `a` and put a breakpoint there. */
  function Arm(s: State, a: int, g: nat, n: nat): State {
    var w := Peek(s.mem, a, n);
    s.(restores := s.restores + [Restore(a, w, g)], mem := Poke(s.mem, a, Trapped(w), n), inserted := s.inserted + 1)
  }

  /** Go on planting from the i-th offset node, whatever file it belongs to. The check for an
      earlier breakpoint compares the offset with the addresses of the restore nodes. */
  function PlantFrom(c: Config, s: State, i: nat, md: int, base: int): (State, int)
    decreases |c.offsets| - i
  {
    if i >= |c.offsets| then (s, 0)
    else
      var bp := c.offsets[i].bpOffset;
      var g := FindGroup(c.groups, Key(md, bp));
      if g == |c.groups| then PlantFrom(c, s, i + 1, md, base)
      else if FirstAt(s.restores, bp) < |s.restores| || g in s.fetched then (s, -1)
      else PlantFrom(c, Arm(s, base + bp, g, c.wordSize), i + 1, md, base)
  }

  function Plant(c: Config, s: State, md: int, base: int): (State, int) {
    var i := FirstOf(c.offsets, md);
    if i == |c.offsets| then (s, -1) else PlantFrom(c, s, i, md, base)
  }

  /** Start the prefetch of a group, unless that has been done. */
  function Fetch(s: State, g: nat): State {
    if g in s.fetched then s else s.(fetched := s.fetched + {g}, started := s.started + [g])
  }

  /** Before the program runs, the head group is fetched; a plan without groups ends it all. */
  function Start(c: Config, mem: seq<Byte>): State {
    if c.groups == [] then Blank(mem).(exited := true) else Fetch(Blank(mem), 0)
  }

  /** A breakpoint is hit: put the saved word back and fetch, counting the hits that started
      something. An unknown address ends it all. */
  function Hit(s: State, a: int, n: nat): State {
    var i := FirstAt(s.restores, a);
    if i == |s.restores| then s.(exited := true)
    else
      var g := s.restores[i].group;
      var t := Fetch(s.(mem := Poke(s.mem, a, s.restores[i].data, n)), g);
      t.(fired := if g in s.fetched then s.fired else s.fired + 1)
  }

  function Step(c: Config, s: State, e: Event): State {
    if s.exited then s
    else
      match e
      case Exec(md) => if s.launched then s else Plant(c, s.(launched := true), md, c.execBase).0
      case Mmap(md, base) => if s.inserted < c.total then Plant(c, s, md, base).0 else s
      case Trap(a) => Hit(s, a, c.wordSize)
  }

  function Run(c: Config, mem: seq<Byte>, es: seq<Event>): State {
    if es == [] then Start(c, mem) else Step(c, Run(c, mem, es[..|es| - 1]), es[|es| - 1])
  }

  // ----- what is armed -----

  function Addresses(rs: seq<Restore>): set<int> {
    set i | 0 <= i < |rs| :: rs[i].addr
  }

  /** The addresses at which a breakpoint has been planted and not been hit since. */
  function Armed(c: Config, mem: seq<Byte>, es: seq<Event>): set<int> {
    if es == [] then {}
    else
      var before, e := es[..|es| - 1], es[|es| - 1];
      var s, armed := Run(c, mem, before), Armed(c, mem, before);
      if s.exited then armed
      else if e.Trap? then armed - {e.addr}
      else armed + Addresses(NewRestores(s, Step(c, s, e)))
  }

  function NewRestores(s: State, t: State): seq<Restore> {
    if |s.restores| <= |t.restores| then t.restores[|s.restores|..] else []
  }

  /** Addresses are equal or at least a word apart. */
  ghost predicate Spaced(rs: seq<Restore>, n: nat) {
    forall i, j :: 0 <= i < |rs| && 0 <= j < |rs| ==>
      rs[i].addr == rs[j].addr || rs[i].addr + n <= rs[j].addr || rs[j].addr + n <= rs[i].addr
  }

  /** Memory is `mem` but for a breakpoint at each armed address, and the node that a hit will
      find for an address has the original word. */
  ghost predicate Sound(mem: seq<Byte>, s: State, armed: set<int>, n: nat) {
    && |s.mem| == |mem|
    && (forall p :: 0 <= p < |mem| ==> s.mem[p] == if p in armed && Mapped(mem, p, n) then INT3 else mem[p])
    && (forall a :: a in armed ==> FirstAt(s.restores, a) < |s.restores|)
    && (forall i :: 0 <= i < |s.restores| ==> Saved(mem, s.restores, s.restores[i].addr, n))
  }

  ghost predicate Saved(mem: seq<Byte>, rs: seq<Restore>, a: int, n: nat) {
    FirstAt(rs, a) < |rs| && rs[FirstAt(rs, a)].data == Peek(mem, a, n)
  }

  lemma FirstAtAppend(rs: seq<Restore>, r: Restore, a: int)
    ensures FirstAt(rs + [r], a) ==
            if FirstAt(rs, a) < |rs| then FirstAt(rs, a) else if r.addr == a then |rs| else |rs| + 1
  {
    var i, k := FirstAt(rs, a), FirstAt(rs + [r], a);
    assert forall j :: 0 <= j < |rs| ==> (rs + [r])[j] == rs[j];
    assert (rs + [r])[|rs|] == r;
    assert i < |rs| ==> (rs + [r])[i].addr == a;
  }

  lemma PokeAt(mem: seq<Byte>, a: int, s: seq<Byte>, w: nat)
    requires ToBytes(w, |s|) == s
    ensures var r := Poke(mem, a, w, |s|);
            forall p :: 0 <= p < |mem| ==>
              r[p] == if Mapped(mem, a, |s|) && a <= p < a + |s| then s[p - a] else mem[p]
  {
  }

  lemma {:induction false} BytesRoundTrip(w: nat, n: nat)
    requires w < Power(n)
    ensures FromBytes(ToBytes(w, n)) == w
  {
    if n > 0 {
      BytesRoundTrip(w / 256, n - 1);
      assert ToBytes(w, n)[1..] == ToBytes(w / 256, n - 1);
    }
  }

  /** 256 to the n. */
  function Power(n: nat): nat {
    if n == 0 then 1 else 256 * Power(n - 1)
  }

  /** What is read is the bytes from the address on, or all ones if they are not all mapped. */
  lemma PeekReads(mem: seq<Byte>, a: int, n: nat)
    ensures ToBytes(Peek(mem, a, n), n) ==
            if 0 <= a && a + n <= |mem| then mem[a..a + n] else seq(n, _ => 0xFF)
  {
    if Mapped(mem, a, n) {
      WordsRoundTrip(mem[a..a + n]);
    } else {
      WordsRoundTrip(seq(n, _ => 255));
    }
  }

  /** What is written are the bytes from the address on, lowest first, or nothing. */
  lemma PokeWrites(mem: seq<Byte>, a: int, w: nat, n: nat)
    requires w < Power(n)
    ensures var r := Poke(mem, a, w, n);
            if 0 <= a && a + n <= |mem|
            then FromBytes(r[a..a + n]) == w && r[..a] == mem[..a] && r[a + n..] == mem[a + n..]
            else r == mem
  {
    BytesRoundTrip(w, n);
    if Mapped(mem, a, n) {
      assert Poke(mem, a, w, n)[a..a + n] == ToBytes(w, n);
    }
  }

  lemma ArmAt(mem: seq<Byte>, a: int, n: nat)
    requires n > 0
    ensures var r := Poke(mem, a, Trapped(Peek(mem, a, n)), n);
            forall p :: 0 <= p < |mem| ==> r[p] == if p == a && Mapped(mem, a, n) then INT3 else mem[p]
  {
    hide FromBytes, ToBytes, Trapped, AllOnes;
    if Mapped(mem, a, n) {
      var s := mem[a..a + n];
      var b := [INT3] + s[1..];
      TrapIsOneByte(s);
      PokeAt(mem, a, b, Trapped(FromBytes(s)));
      assert forall i :: 0 <= i < n ==> b[i] == if i == 0 then INT3 else mem[a + i];
    } else {
      assert Poke(mem, a, Trapped(Peek(mem, a, n)), n) == mem;
    }
  }

  lemma RestoreAt(mem: seq<Byte>, original: seq<Byte>, a: int, n: nat)
    requires |mem| == |original|
    ensures var r := Poke(mem, a, Peek(original, a, n), n);
            forall p :: 0 <= p < |mem| ==> r[p] == if Mapped(mem, a, n) && a <= p < a + n then original[p] else mem[p]
  {
    hide FromBytes, ToBytes, AllOnes;
    if Mapped(mem, a, n) {
      var s := original[a..a + n];
      WordsRoundTrip(s);
      PokeAt(mem, a, s, FromBytes(s));
    }
  }

  /** No armed byte lies in the word at `a`, but for `a` itself. */
  lemma WordIsOriginal(mem: seq<Byte>, s: State, armed: set<int>, a: int, n: nat, p: int)
    requires Sound(mem, s, armed, n) && Spaced(s.restores + [Restore(a, 0, 0)], n) && a < p < a + n
    requires 0 <= p < |mem|
    ensures p !in armed && s.mem[p] == mem[p]
  {
    var rs := s.restores + [Restore(a, 0, 0)];
    assert rs[|s.restores|].addr == a;
    forall i | 0 <= i < |s.restores|
      ensures s.restores[i].addr != p
    {
      assert rs[i] == s.restores[i];
    }
  }

  lemma WordsAgree(mem: seq<Byte>, s: State, armed: set<int>, a: int, n: nat)
    requires Sound(mem, s, armed, n) && Spaced(s.restores + [Restore(a, 0, 0)], n)
    requires FirstAt(s.restores, a) == |s.restores|
    ensures Peek(s.mem, a, n) == Peek(mem, a, n)
  {
    if Mapped(mem, a, n) {
      forall p | a <= p < a + n
        ensures s.mem[p] == mem[p]
      {
        if p > a { WordIsOriginal(mem, s, armed, a, n, p); }
      }
      assert s.mem[a..a + n] == mem[a..a + n];
    }
  }

  lemma ArmKeeps(mem: seq<Byte>, s: State, armed: set<int>, a: int, g: nat, n: nat)
    requires n > 0 && Sound(mem, s, armed, n) && Spaced(s.restores + [Restore(a, 0, 0)], n)
    ensures Sound(mem, Arm(s, a, g, n), armed + {a}, n)
  {
    hide Poke, Peek, FromBytes, ToBytes, FirstAt, Spaced;
    var r := Restore(a, Peek(s.mem, a, n), g);
    var t := Arm(s, a, g, n);
    ArmAt(s.mem, a, n);
    forall x
      ensures FirstAt(t.restores, x) == if FirstAt(s.restores, x) < |s.restores| then FirstAt(s.restores, x)
                                        else if a == x then |s.restores| else |s.restores| + 1
    {
      FirstAtAppend(s.restores, r, x);
    }
    if FirstAt(s.restores, a) == |s.restores| {
      WordsAgree(mem, s, armed, a, n);
    }
    forall i | 0 <= i < |t.restores|
      ensures Saved(mem, t.restores, t.restores[i].addr, n)
    {
      if i < |s.restores| {
        assert Saved(mem, s.restores, s.restores[i].addr, n);
      } else if FirstAt(s.restores, a) < |s.restores| {
        assert Saved(mem, s.restores, s.restores[FirstAt(s.restores, a)].addr, n);
      }
    }
  }

  lemma SpacedAgain(rs: seq<Restore>, i: nat, n: nat)
    requires i < |rs| && Spaced(rs, n)
    ensures Spaced(rs + [Restore(rs[i].addr, 0, 0)], n)
  {
  }

  lemma HitKeeps(mem: seq<Byte>, s: State, armed: set<int>, a: int, n: nat)
    requires n > 0 && Sound(mem, s, armed, n) && Spaced(s.restores, n)
    ensures Sound(mem, Hit(s, a, n), armed - {a}, n) && Hit(s, a, n).restores == s.restores
    ensures a in armed ==> !Hit(s, a, n).exited || s.exited
  {
    hide Poke, Peek, FromBytes, ToBytes, Spaced;
    var i := FirstAt(s.restores, a);
    if i < |s.restores| {
      assert Saved(mem, s.restores, s.restores[i].addr, n);
      RestoreAt(s.mem, mem, a, n);
      SpacedAgain(s.restores, i, n);
      forall p | a < p < a + n && 0 <= p < |mem|
        ensures s.mem[p] == mem[p] && p !in armed
      {
        WordIsOriginal(mem, s, armed, a, n, p);
      }
    }
  }

  // ----- whole runs -----

  /** Planting only adds restore nodes. */
  ghost predicate Grows(s: State, t: State) {
    && s.restores <= t.restores && t.inserted - s.inserted == |t.restores| - |s.restores|
    && t.(mem := s.mem, restores := s.restores, inserted := s.inserted) == s
  }

  lemma {:induction false} PlantGrows(c: Config, s: State, i: nat, md: int, base: int)
    ensures Grows(s, PlantFrom(c, s, i, md, base).0)
    decreases |c.offsets| - i
  {
    if i < |c.offsets| {
      var bp := c.offsets[i].bpOffset;
      var g := FindGroup(c.groups, Key(md, bp));
      if g == |c.groups| {
        PlantGrows(c, s, i + 1, md, base);
      } else if FirstAt(s.restores, bp) == |s.restores| && g !in s.fetched {
        PlantGrows(c, Arm(s, base + bp, g, c.wordSize), i + 1, md, base);
      }
    }
  }

  lemma SpacedPrefix(rs: seq<Restore>, t: seq<Restore>, n: nat)
    requires rs <= t && Spaced(t, n)
    ensures Spaced(rs, n)
  {
  }

  lemma SpacedNext(rs: seq<Restore>, r: Restore, n: nat)
    requires Spaced(rs + [r], n)
    ensures Spaced(rs + [Restore(r.addr, 0, 0)], n)
  {
    var t, u := rs + [r], rs + [Restore(r.addr, 0, 0)];
    assert forall i :: 0 <= i < |u| ==> u[i].addr == t[i].addr;
  }

  lemma {:induction false} PlantKeeps(c: Config, mem: seq<Byte>, s: State, armed: set<int>, i: nat, md: int, base: int)
    requires c.wordSize > 0 && Sound(mem, s, armed, c.wordSize)
    requires Spaced(PlantFrom(c, s, i, md, base).0.restores, c.wordSize)
    ensures var t := PlantFrom(c, s, i, md, base).0;
            Sound(mem, t, armed + Addresses(NewRestores(s, t)), c.wordSize)
    decreases |c.offsets| - i
  {
    hide Sound, Spaced, FirstAt, Poke, Peek;
    var t := PlantFrom(c, s, i, md, base).0;
    assert armed + Addresses([]) == armed;
    if i < |c.offsets| {
      var bp := c.offsets[i].bpOffset;
      var g := FindGroup(c.groups, Key(md, bp));
      if g == |c.groups| {
        PlantKeeps(c, mem, s, armed, i + 1, md, base);
      } else if FirstAt(s.restores, bp) == |s.restores| && g !in s.fetched {
        var a := base + bp;
        var u := Arm(s, a, g, c.wordSize);
        PlantGrows(c, u, i + 1, md, base);
        SpacedPrefix(u.restores, t.restores, c.wordSize);
        SpacedNext(s.restores, u.restores[|s.restores|], c.wordSize);
        ArmKeeps(mem, s, armed, a, g, c.wordSize);
        PlantKeeps(c, mem, u, armed + {a}, i + 1, md, base);
        var r := t.restores[|s.restores|];
        assert r == u.restores[|s.restores|] && NewRestores(s, t) == [r] + NewRestores(u, t);
        AddressesCons(r, NewRestores(u, t));
        assert (armed + {a}) + Addresses(NewRestores(u, t)) == armed + Addresses(NewRestores(s, t));
      }
    }
  }

  lemma AddressesCons(r: Restore, rs: seq<Restore>)
    ensures Addresses([r] + rs) == {r.addr} + Addresses(rs)
  {
    forall i | 0 <= i < |rs|
      ensures rs[i].addr in Addresses([r] + rs)
    {
      assert ([r] + rs)[i + 1] == rs[i];
    }
    assert ([r] + rs)[0] == r;
  }

  /** The offset nodes, from the i-th on, that have a group of the file. */
  function PlannedNodes(c: Config, i: nat, md: int): seq<nat>
    decreases |c.offsets| - i
  {
    if i >= |c.offsets| then []
    else if GroupOf(c, i, md) < |c.groups| then [i] + PlannedNodes(c, i + 1, md)
    else PlannedNodes(c, i + 1, md)
  }

  /** The group that a hit at the i-th offset in this file is to fetch. */
  function GroupOf(c: Config, i: nat, md: int): nat
    requires i < |c.offsets|
  {
    FindGroup(c.groups, Key(md, c.offsets[i].bpOffset))
  }

  /** Each node that has a group is there once, in order. */
  lemma {:induction false} PlannedNodesAre(c: Config, i: nat, md: int, j: nat)
    ensures var ns := PlannedNodes(c, i, md);
            && (j in ns <==> i <= j < |c.offsets| && GroupOf(c, j, md) < |c.groups|)
            && (forall k :: 0 <= k < |ns| ==> i <= ns[k] < |c.offsets|)
            && (forall k, l :: 0 <= k < l < |ns| ==> ns[k] < ns[l])
    decreases |c.offsets| - i
  {
    hide GroupOf;
    if i < |c.offsets| {
      PlannedNodesAre(c, i + 1, md, j);
    }
  }

  /** `r` is a breakpoint for the j-th offset node. */
  ghost predicate ArmedFor(c: Config, j: nat, md: int, base: int, r: Restore) {
    j < |c.offsets| && r.addr == base + c.offsets[j].bpOffset && r.group == GroupOf(c, j, md)
  }

  /** How many of the nodes `ns` a planting arms, from what is known before it: it stops at the first
      one whose group has been fetched or whose offset is the address of a breakpoint. */
  function ArmedCount(c: Config, md: int, base: int, addrs: set<int>, fetched: set<nat>, ns: seq<nat>): nat
    decreases |ns|
  {
    if ns == [] || ns[0] >= |c.offsets| || GroupOf(c, ns[0], md) in fetched || c.offsets[ns[0]].bpOffset in addrs then 0
    else 1 + ArmedCount(c, md, base, addrs + {base + c.offsets[ns[0]].bpOffset}, fetched, ns[1..])
  }

  /** The k-th node stops a planting: its group has been fetched, or its offset is the address of an
      earlier breakpoint or of one planted for a node before it. */
  ghost predicate Blocked(c: Config, md: int, base: int, addrs: set<int>, fetched: set<nat>, ns: seq<nat>, k: nat)
    requires forall j :: 0 <= j < |ns| ==> ns[j] < |c.offsets|
  {
    && k < |ns|
    && var bp := c.offsets[ns[k]].bpOffset;
       || GroupOf(c, ns[k], md) in fetched || bp in addrs
       || exists j :: 0 <= j < k && bp == base + c.offsets[ns[j]].bpOffset
  }

  /** The count is the place of the first node that stops the planting. */
  lemma {:induction false} ArmedCountIs(c: Config, md: int, base: int, addrs: set<int>, fetched: set<nat>, ns: seq<nat>)
    requires forall j :: 0 <= j < |ns| ==> ns[j] < |c.offsets|
    ensures var n := ArmedCount(c, md, base, addrs, fetched, ns);
            && n <= |ns| && (n < |ns| ==> Blocked(c, md, base, addrs, fetched, ns, n))
            && forall k: nat :: k < n ==> !Blocked(c, md, base, addrs, fetched, ns, k)
    decreases |ns|
  {
    hide GroupOf;
    if ns != [] && !Blocked(c, md, base, addrs, fetched, ns, 0) {
      var more := addrs + {base + c.offsets[ns[0]].bpOffset};
      ArmedCountIs(c, md, base, more, fetched, ns[1..]);
      forall k: nat | k > 0
        ensures Blocked(c, md, base, addrs, fetched, ns, k) <==> Blocked(c, md, base, more, fetched, ns[1..], k - 1)
      {
        BlockedNext(c, md, base, addrs, fetched, ns, k);
      }
    }
  }

  lemma BlockedNext(c: Config, md: int, base: int, addrs: set<int>, fetched: set<nat>, ns: seq<nat>, k: nat)
    requires ns != [] && k > 0 && forall j :: 0 <= j < |ns| ==> ns[j] < |c.offsets|
    ensures Blocked(c, md, base, addrs, fetched, ns, k) <==>
            Blocked(c, md, base, addrs + {base + c.offsets[ns[0]].bpOffset}, fetched, ns[1..], k - 1)
  {
    hide GroupOf;
    if k < |ns| {
      var bp := c.offsets[ns[k]].bpOffset;
      if j :| 0 <= j < k && bp == base + c.offsets[ns[j]].bpOffset {
        assert j > 0 ==> ns[1..][j - 1] == ns[j];
      }
      if j :| 0 <= j < k - 1 && bp == base + c.offsets[ns[1..][j]].bpOffset {
        assert ns[1..][j] == ns[j + 1];
      }
    }
  }

  lemma FirstAtFinds(rs: seq<Restore>, a: int)
    ensures FirstAt(rs, a) < |rs| <==> a in Addresses(rs)
  {
  }

  lemma AddressesMore(rs: seq<Restore>, r: Restore)
    ensures Addresses(rs + [r]) == Addresses(rs) + {r.addr}
  {
    var t := rs + [r];
    assert t[|rs|] == r && forall i :: 0 <= i < |rs| ==> t[i] == rs[i];
    forall i | 0 <= i < |rs|
      ensures rs[i].addr in Addresses(t)
    {
      assert t[i].addr == rs[i].addr;
    }
    assert t[|rs|].addr in Addresses(t);
  }

  /** The restore nodes `r` are for the first of the nodes `ns`. */
  ghost predicate ArmInOrder(c: Config, md: int, base: int, r: seq<Restore>, ns: seq<nat>) {
    |r| <= |ns| && forall k :: 0 <= k < |r| ==> ArmedFor(c, ns[k], md, base, r[k])
  }

  lemma ArmNone(c: Config, md: int, base: int, ns: seq<nat>)
    ensures ArmInOrder(c, md, base, [], ns)
  {
  }

  lemma ArmOneMore(c: Config, md: int, base: int, r: seq<Restore>, ns: seq<nat>)
    requires r != [] && ns != [] && ArmedFor(c, ns[0], md, base, r[0]) && ArmInOrder(c, md, base, r[1..], ns[1..])
    ensures ArmInOrder(c, md, base, r, ns) && |r| <= |ns|
  {
    forall k | 0 <= k < |r|
      ensures ArmedFor(c, ns[k], md, base, r[k])
    {
      if k > 0 { assert ArmedFor(c, ns[1..][k - 1], md, base, r[1..][k - 1]); }
    }
  }

  lemma PlantFromNode(c: Config, s: State, i: nat, md: int, base: int)
    ensures i >= |c.offsets| ==> PlantFrom(c, s, i, md, base) == (s, 0) && PlannedNodes(c, i, md) == []
    ensures i < |c.offsets| ==>
              var bp, g := c.offsets[i].bpOffset, GroupOf(c, i, md);
              && g <= |c.groups|
              && PlantFrom(c, s, i, md, base) ==
                   (if g == |c.groups| then PlantFrom(c, s, i + 1, md, base)
                    else if bp in Addresses(s.restores) || g in s.fetched then (s, -1)
                    else PlantFrom(c, Arm(s, base + bp, g, c.wordSize), i + 1, md, base))
              && PlannedNodes(c, i, md) ==
                   if g < |c.groups| then [i] + PlannedNodes(c, i + 1, md) else PlannedNodes(c, i + 1, md)
  {
    hide FindGroup, Addresses, FirstAt, Arm;
    if i < |c.offsets| {
      FindIsBounded(c.groups, Key(md, c.offsets[i].bpOffset));
      FirstAtFinds(s.restores, c.offsets[i].bpOffset);
    }
  }

  lemma ArmIs(s: State, a: int, g: nat, n: nat)
    ensures var u := Arm(s, a, g, n);
            u.fetched == s.fetched && Addresses(u.restores) == Addresses(s.restores) + {a}
  {
    hide Addresses;
    AddressesMore(s.restores, Restore(a, Peek(s.mem, a, n), g));
  }

  /** Planting arms the planned nodes in order, up to the first one that stops it. */
  lemma {:induction false} PlantArms(c: Config, s: State, i: nat, md: int, base: int)
    ensures var (t, code) := PlantFrom(c, s, i, md, base);
            var r, ns := NewRestores(s, t), PlannedNodes(c, i, md);
            && ArmInOrder(c, md, base, r, ns) && |r| == ArmedCount(c, md, base, Addresses(s.restores), s.fetched, ns)
            && |r| <= |ns| && code == if |r| == |ns| then 0 else -1
    decreases |c.offsets| - i
  {
    hide PlantFrom, PlannedNodes, GroupOf, Arm, ArmedFor, ArmInOrder, Grows, Addresses;
    PlantFromNode(c, s, i, md, base);
    var ns := PlannedNodes(c, i, md);
    assert NewRestores(s, s) == [];
    ArmNone(c, md, base, ns);
    if i < |c.offsets| {
      var bp, g := c.offsets[i].bpOffset, GroupOf(c, i, md);
      if g == |c.groups| {
        PlantArms(c, s, i + 1, md, base);
      } else if !(bp in Addresses(s.restores) || g in s.fetched) {
        var u := Arm(s, base + bp, g, c.wordSize);
        var t := PlantFrom(c, u, i + 1, md, base).0;
        PlantArms(c, u, i + 1, md, base);
        PlantGrows(c, u, i + 1, md, base);
        OneMoreArmed(c, s, i, md, base, t);
        ArmIs(s, base + bp, g, c.wordSize);
        assert ns[0] == i && ns[1..] == PlannedNodes(c, i + 1, md);
        ArmOneMore(c, md, base, NewRestores(s, t), ns);
      }
    }
  }

  lemma OneMoreArmed(c: Config, s: State, i: nat, md: int, base: int, t: State)
    requires i < |c.offsets| && GroupOf(c, i, md) < |c.groups|
    requires Grows(Arm(s, base + c.offsets[i].bpOffset, GroupOf(c, i, md), c.wordSize), t)
    ensures NewRestores(s, t) != [] && ArmedFor(c, i, md, base, NewRestores(s, t)[0])
    ensures NewRestores(s, t)[1..] ==
            NewRestores(Arm(s, base + c.offsets[i].bpOffset, GroupOf(c, i, md), c.wordSize), t)
  {
    hide FindGroup;
    var u := Arm(s, base + c.offsets[i].bpOffset, GroupOf(c, i, md), c.wordSize);
    assert t.restores[|s.restores|] == u.restores[|s.restores|];
  }

  /** A step never takes restore nodes away. */
  lemma StepGrows(c: Config, s: State, e: Event)
    ensures s.restores <= Step(c, s, e).restores
    ensures Step(c, s, e).inserted - s.inserted == |Step(c, s, e).restores| - |s.restores|
  {
    hide PlantFrom;
    match e
    case Exec(md) => PlantGrows(c, s.(launched := true), FirstOf(c.offsets, md), md, c.execBase);
    case Mmap(md, base) => PlantGrows(c, s, FirstOf(c.offsets, md), md, base);
    case Trap(a) =>
  }

  /** Memory in every run whose breakpoints are a word apart: it is the original but for the
      armed breakpoints, and every restore node that can be found has the original word. */
  lemma {:induction false} RunKeepsMemory(c: Config, mem: seq<Byte>, es: seq<Event>)
    requires c.wordSize > 0 && Spaced(Run(c, mem, es).restores, c.wordSize)
    ensures Sound(mem, Run(c, mem, es), Armed(c, mem, es), c.wordSize)
  {
    hide Sound, Spaced, PlantFrom, FirstAt, Poke, Peek, Hit;
    if es == [] {
      SoundAtStart(c, mem, c.wordSize);
    } else {
      var before, e := es[..|es| - 1], es[|es| - 1];
      var s, armed := Run(c, mem, before), Armed(c, mem, before);
      StepGrows(c, s, e);
      SpacedPrefix(s.restores, Run(c, mem, es).restores, c.wordSize);
      RunKeepsMemory(c, mem, before);
      assert armed + Addresses([]) == armed;
      match e
      case Exec(md) =>
        SoundLaunched(mem, s, armed, c.wordSize);
        if FirstOf(c.offsets, md) < |c.offsets| && !s.exited && !s.launched {
          PlantKeeps(c, mem, s.(launched := true), armed, FirstOf(c.offsets, md), md, c.execBase);
        }
      case Mmap(md, base) =>
        if FirstOf(c.offsets, md) < |c.offsets| && !s.exited && s.inserted < c.total {
          PlantKeeps(c, mem, s, armed, FirstOf(c.offsets, md), md, base);
        }
      case Trap(a) => HitKeeps(mem, s, armed, a, c.wordSize);
    }
  }

  lemma SoundAtStart(c: Config, mem: seq<Byte>, n: nat)
    ensures Sound(mem, Start(c, mem), {}, n)
  {
  }

  lemma SoundLaunched(mem: seq<Byte>, s: State, armed: set<int>, n: nat)
    requires Sound(mem, s, armed, n)
    ensures Sound(mem, s.(launched := true), armed, n)
  {
  }

  function Traps(addrs: seq<int>): seq<Event> {
    seq(|addrs|, i requires 0 <= i < |addrs| => Trap(addrs[i]))
  }

  lemma OneHit(c: Config, mem: seq<Byte>, es: seq<Event>, a: int)
    requires !Run(c, mem, es).exited && FirstAt(Run(c, mem, es).restores, a) < |Run(c, mem, es).restores|
    ensures var t := Run(c, mem, es + [Trap(a)]); !t.exited && t.restores == Run(c, mem, es).restores
    ensures Armed(c, mem, es + [Trap(a)]) == Armed(c, mem, es) - {a}
  {
    hide FirstAt, Poke, PlantFrom;
    assert (es + [Trap(a)])[..|es|] == es;
  }

  /** Hitting breakpoints that were armed never ends the program, and takes exactly them away. */
  lemma {:induction false} HitsDisarm(c: Config, mem: seq<Byte>, es: seq<Event>, addrs: seq<int>)
    requires c.wordSize > 0 && Spaced(Run(c, mem, es).restores, c.wordSize) && !Run(c, mem, es).exited
    requires forall a :: a in addrs ==> a in Armed(c, mem, es)
    ensures var t := Run(c, mem, es + Traps(addrs)); !t.exited && t.restores == Run(c, mem, es).restores
    ensures forall x :: x in Armed(c, mem, es + Traps(addrs)) <==> x in Armed(c, mem, es) && x !in addrs
  {
    hide Spaced, Sound, PlantFrom, Poke, Peek, Run, Armed, FirstAt;
    if addrs == [] {
      assert es + Traps(addrs) == es;
    } else {
      var before, a := addrs[..|addrs| - 1], addrs[|addrs| - 1];
      assert addrs == before + [a];
      HitsDisarm(c, mem, es, before);
      RunKeepsMemory(c, mem, es);
      SoundFinds(mem, Run(c, mem, es), Armed(c, mem, es), c.wordSize, a);
      OneHit(c, mem, es + Traps(before), a);
      assert (es + Traps(before)) + [Trap(a)] == es + Traps(addrs);
    }
  }

  lemma SoundFinds(mem: seq<Byte>, s: State, armed: set<int>, n: nat, a: int)
    requires Sound(mem, s, armed, n) && a in armed
    ensures FirstAt(s.restores, a) < |s.restores|
  {
  }

  /** Once every armed breakpoint has been hit, memory is the original again. */
  lemma {:induction false} MemoryComesBack(c: Config, mem: seq<Byte>, es: seq<Event>, addrs: seq<int>)
    requires c.wordSize > 0 && Spaced(Run(c, mem, es).restores, c.wordSize) && !Run(c, mem, es).exited
    requires forall a :: a in addrs <==> a in Armed(c, mem, es)
    ensures Run(c, mem, es + Traps(addrs)).mem == mem
  {
    hide Spaced, PlantFrom, Poke, Peek, Run, Armed;
    HitsDisarm(c, mem, es, addrs);
    RunKeepsMemory(c, mem, es + Traps(addrs));
  }

  // ----- why the distance matters -----

  lemma HitAt(s: State, a: int, n: nat, original: seq<Byte>, p: int)
    requires |s.mem| == |original| && FirstAt(s.restores, a) < |s.restores| && 0 <= p < |original|
    requires s.restores[FirstAt(s.restores, a)].data == Peek(original, a, n)
    ensures Hit(s, a, n).mem[p] == if Mapped(original, a, n) && a <= p < a + n then original[p] else s.mem[p]
    ensures Hit(s, a, n).restores == s.restores && |Hit(s, a, n).mem| == |s.mem|
  {
    hide Poke, Peek, FirstAt;
    RestoreAt(s.mem, original, a, n);
  }

  /** Two breakpoints a < b. If a is planted first, a hit at a leaves b armed exactly if they are
      a word apart; if b is planted first, hits at b and then at a leave b's byte restored exactly
      if they are a word apart. So the distance is needed, and for every such pair. */
  lemma InterfereExactly(mem: seq<Byte>, a: int, b: int, g: nat, h: nat, n: nat)
    requires 0 <= a < b && Mapped(mem, a, n) && Mapped(mem, b, n) && n > 0 && mem[b] != INT3
    ensures var s := Arm(Arm(Blank(mem), a, g, n), b, h, n);
            |s.mem| == |mem| && (Hit(s, a, n).mem[b] == INT3 <==> a + n <= b)
    ensures var s := Arm(Arm(Blank(mem), b, h, n), a, g, n);
            |s.mem| == |mem| && (Hit(Hit(s, b, n), a, n).mem[b] == mem[b] <==> a + n <= b)
  {
    hide Poke, Peek, FirstAt, Hit;
    var first, second := Arm(Blank(mem), a, g, n), Arm(Blank(mem), b, h, n);
    var ab, ba := Arm(first, b, h, n), Arm(second, a, g, n);
    ArmAt(mem, a, n);
    ArmAt(first.mem, b, n);
    ArmAt(mem, b, n);
    ArmAt(second.mem, a, n);
    Lookup(ab.restores[0], ab.restores[1]);
    Lookup(ba.restores[0], ba.restores[1]);
    assert ab.restores == [ab.restores[0], ab.restores[1]] && ba.restores == [ba.restores[0], ba.restores[1]];
    HitAt(ab, a, n, mem, b);
    HitAt(ba, b, n, mem, b);
    HitAt(Hit(ba, b, n), a, n, second.mem, b);
  }

  lemma Lookup(r: Restore, s: Restore)
    requires r.addr != s.addr
    ensures FirstAt([r, s], r.addr) == 0 && FirstAt([r, s], s.addr) == 1
  {
    assert [r, s][0] == r && [r, s][1] == s;
  }
}
