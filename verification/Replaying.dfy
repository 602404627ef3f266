/** The replay machine in place: the restore list, the flags and the traced memory change step by
    step, each step as the machine on values prescribes. */
module Replaying {
  import opened PrefetchPlan
  import opened Breakpoints

  class Replayer {
    const config: Config
    const memory: array<Byte>
    var restores: seq<Restore>
    var fetched: set<nat>
    var started: seq<nat>
    var inserted: nat
    var fired: nat
    var launched: bool
    var exited: bool

    constructor (config: Config, memory: array<Byte>)
      ensures this.config == config && this.memory == memory && View() == Blank(memory[..])
    {
      this.config, this.memory := config, memory;
      restores, fetched, started, inserted, fired, launched, exited := [], {}, [], 0, 0, false, false;
    }

    function View(): State
      reads this, memory
    {
      State(memory[..], restores, fetched, started, inserted, fired, launched, exited)
    }

    method PeekText(a: int) returns (w: nat)
      ensures w == Peek(memory[..], a, config.wordSize)
    {
      if 0 <= a && a + config.wordSize <= memory.Length {
        assert memory[..][a..a + config.wordSize] == memory[a..a + config.wordSize];
        w := FromBytes(memory[a..a + config.wordSize]);
      } else {
        w := AllOnes(config.wordSize);
      }
    }

    method PokeText(a: int, w: nat)
      modifies memory
      ensures memory[..] == Poke(old(memory[..]), a, w, config.wordSize)
    {
      if 0 <= a && a + config.wordSize <= memory.Length {
        var bytes := ToBytes(w, config.wordSize);
        forall i | 0 <= i < config.wordSize {
          memory[a + i] := bytes[i];
        }
        assert forall p :: 0 <= p < memory.Length ==>
          memory[p] == if a <= p < a + config.wordSize then bytes[p - a] else old(memory[p]);
      }
    }

    method GetRestoreNode(a: int) returns (i: nat)
      ensures i == FirstAt(restores, a)
    {
      i := 0;
      while i < |restores|
        invariant i <= |restores| && forall j :: 0 <= j < i ==> restores[j].addr != a
      {
        if restores[i].addr == a {
          return;
        }
        i := i + 1;
      }
    }

    method GetOffsetNode(md: int) returns (i: nat)
      ensures i == FirstOf(config.offsets, md)
    {
      i := 0;
      while i < |config.offsets|
        invariant i <= |config.offsets| && forall j :: 0 <= j < i ==> config.offsets[j].md != md
      {
        if config.offsets[i].md == md {
          return;
        }
        i := i + 1;
      }
    }

    /** Save the word and plant one breakpoint. */
    method PlantOne(a: int, g: nat)
      modifies this, memory
      ensures View() == Arm(old(View()), a, g, config.wordSize)
    {
      var w := PeekText(a);
      restores := restores + [Restore(a, w, g)];
      PokeText(a, Trapped(w));
      inserted := inserted + 1;
    }

    /** A file has been mapped at `base`: plant its breakpoints. */
    method InsertBreakpoints(md: int, base: int) returns (code: int)
      modifies this, memory
      ensures (View(), code) == Plant(config, old(View()), md, base)
    {
      hide Peek, Poke, FirstAt, FirstOf, FindGroup, Arm;
      var i := GetOffsetNode(md);
      if i == |config.offsets| {
        return -1;
      }
      while i < |config.offsets|
        invariant i <= |config.offsets|
        invariant PlantFrom(config, View(), i, md, base) == Plant(config, old(View()), md, base)
      {
        var bp := config.offsets[i].bpOffset;
        var g := GetPfList(config.groups, Key(md, bp));
        if g == |config.groups| {
          i := i + 1;
          continue;
        }
        var earlier := GetRestoreNode(bp);
        if earlier < |restores| {
          return -1;
        }
        if g in fetched {
          return -1;
        }
        PlantOne(base + bp, g);
        i := i + 1;
      }
      return 0;
    }

    /** Start the prefetch of a group, unless its flag is set. */
    method DoPrefetch(g: nat) returns (code: int)
      modifies this`fetched, this`started
      ensures View() == Fetch(old(View()), g) && code == if g in old(fetched) then -1 else 0
    {
      if g in fetched {
        return -1;
      }
      fetched := fetched + {g};
      started := started + [g];
      return 0;
    }

    /** Before the program runs: fetch the head group. Without one, nothing is traced. */
    method StartUp() returns (ok: bool)
      requires View() == Blank(memory[..])
      modifies this
      ensures View() == Start(config, memory[..]) && (ok <==> !exited)
    {
      if config.groups == [] {
        exited := true;
        return false;
      }
      var code := DoPrefetch(0);
      return true;
    }

    /** One event of the traced program. */
    method Trace(e: Event)
      modifies this, memory
      ensures View() == Step(config, old(View()), e)
    {
      hide Peek, Poke, FirstAt, PlantFrom, Plant;
      if exited {
        return;
      }
      match e {
        case Exec(md) =>
          if !launched {
            launched := true;
            var code := InsertBreakpoints(md, config.execBase);
          }
        case Mmap(md, base) =>
          if inserted < config.total {
            var code := InsertBreakpoints(md, base);
          }
        case Trap(a) =>
          var i := GetRestoreNode(a);
          if i == |restores| {
            exited := true;
            return;
          }
          PokeText(a, restores[i].data);
          var code := DoPrefetch(restores[i].group);
          if code >= 0 {
            fired := fired + 1;
          }
      }
    }

    /** A whole run, from before the program is started. */
    method TraceAll(es: seq<Event>)
      requires View() == Blank(memory[..])
      modifies this, memory
      ensures View() == Run(config, old(memory[..]), es)
    {
      hide Step;
      var ok := StartUp();
      for k := 0 to |es|
        invariant View() == Run(config, old(memory[..]), es[..k])
      {
        assert es[..k + 1][..k] == es[..k];
        Trace(es[k]);
      }
      assert es[..|es|] == es;
    }
  }
}
