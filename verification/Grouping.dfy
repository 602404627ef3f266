/** Putting lists of the chain together, on values: first the bursts that follow each other,
    later the groups between which no trigger was found. */
module Grouping {
  import opened Sequences
  import opened Merging
  import opened ReadLists

  /** `a` takes over what `b` holds; it keeps its own start, trigger and burst mark. */
  function Absorb(a: Group, b: Group): Group {
    a.(items := a.items + b.items, endTs := b.endTs)
  }

  /** A run of groups put together from the left. */
  function Fuse(run: seq<Group>): Group
    requires run != []
    decreases |run|
  {
    if |run| == 1 then run[0] else Fuse([Absorb(run[0], run[1])] + run[2..])
  }

  function Items(s: seq<Group>): seq<Read> {
    if s == [] then [] else s[0].items + Items(s[1..])
  }

  function FuseAll(runs: seq<seq<Group>>): (r: seq<Group>)
    requires forall i :: 0 <= i < |runs| ==> runs[i] != []
    ensures |r| == |runs|
  {
    if runs == [] then [] else [Fuse(runs[0])] + FuseAll(runs[1..])
  }

  /** A fused run has all reads of the run in order, starts with its first group, and ends with
      its last one. */
  lemma {:induction false} FuseIs(run: seq<Group>)
    requires run != []
    ensures Fuse(run) == run[0].(items := Items(run), endTs := run[|run| - 1].endTs)
    decreases |run|
  {
    if |run| == 1 {
      assert run[1..] == [] && run[0].items + [] == run[0].items;
    } else {
      var next := [Absorb(run[0], run[1])] + run[2..];
      FuseIs(next);
      assert next[1..] == run[2..] && run[1..][1..] == run[2..];
      assert run[0].items + (run[1].items + Items(run[2..])) == (run[0].items + run[1].items) + Items(run[2..]);
    }
  }

  lemma {:induction false} ItemsConcat(s: seq<Group>, t: seq<Group>)
    ensures Items(s + t) == Items(s) + Items(t)
  {
    if s == [] {
      assert s + t == t;
    } else {
      assert (s + t)[1..] == s[1..] + t;
      ItemsConcat(s[1..], t);
    }
  }

  lemma {:induction false} ItemsHave(s: seq<Group>, r: Read)
    ensures r in Items(s) <==> exists i :: 0 <= i < |s| && r in s[i].items
  {
    if s != [] {
      ItemsHave(s[1..], r);
      assert forall i :: 1 <= i < |s| ==> s[i] == s[1..][i - 1];
      assert forall i :: 0 <= i < |s[1..]| ==> s[1..][i] == s[i + 1];
    }
  }

  // ----- burst runs -----

  function DropIdle(s: seq<Group>): (r: seq<Group>)
    ensures |r| <= |s| && (r != [] ==> r[0].isBurst)
  {
    if s == [] || s[0].isBurst then s else DropIdle(s[1..])
  }

  /** What becomes of a chain: idle lists in front go away, each burst list absorbs the burst
      lists behind it, and the idle lists behind these go away. */
  function Regrouped(s: seq<Group>): seq<Group>
    decreases |s|, 1
  {
    if |s| < 2 then s
    else if !s[0].isBurst then Regrouped(s[1..])
    else if s[1].isBurst then Regrouped([Absorb(s[0], s[1])] + s[2..])
    else Closed(s)
  }

  /** The first group is finished. */
  function Closed(s: seq<Group>): seq<Group>
    requires s != []
    decreases |s|, 0
  {
    var rest := DropIdle(s[1..]);
    [s[0]] + if rest == [] then [] else Regrouped(rest)
  }

  /** The burst groups that `s` starts with. */
  function Leading(s: seq<Group>): seq<Group> {
    if s == [] || !s[0].isBurst then [] else [s[0]] + Leading(s[1..])
  }

  /** What comes after them. */
  function After(s: seq<Group>): (r: seq<Group>)
    ensures |r| <= |s| && (s != [] && s[0].isBurst ==> |r| < |s|)
  {
    if s == [] || !s[0].isBurst then s else After(s[1..])
  }

  /** The maximal runs of burst groups, in order. */
  function BurstRuns(s: seq<Group>): (runs: seq<seq<Group>>)
    ensures forall i :: 0 <= i < |runs| ==> runs[i] != []
    decreases |s|
  {
    if s == [] then []
    else if !s[0].isBurst then BurstRuns(s[1..])
    else [Leading(s)] + BurstRuns(After(s))
  }

  function Bursts(s: seq<Group>): seq<Group> {
    if s == [] then [] else (if s[0].isBurst then [s[0]] else []) + Bursts(s[1..])
  }

  function Concat(runs: seq<seq<Group>>): seq<Group> {
    if runs == [] then [] else runs[0] + Concat(runs[1..])
  }

  lemma {:induction false} LeadingAndAfter(s: seq<Group>)
    ensures Leading(s) + After(s) == s
  {
    if s == [] || !s[0].isBurst {
      assert [] + s == s;
    } else {
      LeadingAndAfter(s[1..]);
      assert [s[0]] + (Leading(s[1..]) + After(s[1..])) == s;
    }
  }

  lemma {:induction false} BurstsAfter(s: seq<Group>)
    ensures Leading(s) + Bursts(After(s)) == Bursts(s)
  {
    if s == [] || !s[0].isBurst {
      assert [] + Bursts(s) == Bursts(s);
    } else {
      BurstsAfter(s[1..]);
      var l, b := Leading(s[1..]), Bursts(After(s[1..]));
      assert Bursts(s) == [s[0]] + (l + b) == ([s[0]] + l) + b;
    }
  }

  /** Groups i to j - 1 are bursts, and what is next to them is not. */
  ghost predicate MaximalRun(s: seq<Group>, i: nat, j: nat) {
    && i < j <= |s| && (forall k :: i <= k < j ==> s[k].isBurst)
    && (i == 0 || !s[i - 1].isBurst) && (j == |s| || !s[j].isBurst)
  }

  lemma {:induction false} LeadingIs(s: seq<Group>)
    ensures var n := |Leading(s)|;
            && n <= |s| && Leading(s) == s[..n] && After(s) == s[n..]
            && (forall k :: 0 <= k < n ==> s[k].isBurst) && (n < |s| ==> !s[n].isBurst)
  {
    if s != [] && s[0].isBurst {
      LeadingIs(s[1..]);
      var n := |Leading(s)|;
      assert s[..n] == [s[0]] + s[1..][..n - 1] && s[n..] == s[1..][n - 1..];
      assert forall k :: 1 <= k < n ==> s[k] == s[1..][k - 1];
    }
  }

  lemma RunBehind(s: seq<Group>, n: nat, i: nat, j: nat)
    requires n <= |s| && n <= i && (n == 0 || n == |s| || !s[n].isBurst || (n == 1 && !s[0].isBurst))
    ensures MaximalRun(s, i, j) <==> n <= j && MaximalRun(s[n..], i - n, j - n)
  {
    var r := s[n..];
    assert forall k :: n <= k < |s| ==> s[k] == r[k - n];
    assert forall k :: 0 <= k < |r| ==> r[k] == s[k + n];
  }

  /** How far the first run or the first idle group goes. */
  ghost function FirstPart(s: seq<Group>): (n: nat)
    requires s != []
    ensures 0 < n <= |s| && (n == |s| || !s[n].isBurst || (n == 1 && !s[0].isBurst))
    ensures if s[0].isBurst then MaximalRun(s, 0, n) else n == 1
  {
    LeadingIs(s);
    if s[0].isBurst then |Leading(s)| else 1
  }

  lemma RunsHave(s: seq<Group>, run: seq<Group>)
    requires s != []
    ensures run in BurstRuns(s) <==>
              (s[0].isBurst && run == s[0..FirstPart(s)]) || run in BurstRuns(s[FirstPart(s)..])
  {
    LeadingIs(s);
    var n := FirstPart(s);
    assert s[0..n] == s[..n];
    if s[0].isBurst {
      assert BurstRuns(s) == [s[..n]] + BurstRuns(s[n..]);
    }
  }

  lemma NoRuns(s: seq<Group>, run: seq<Group>)
    requires run in BurstRuns(s)
    ensures s != []
  {
  }

  lemma {:induction false} RunHasPlace(s: seq<Group>, run: seq<Group>) returns (i: nat, j: nat)
    requires run in BurstRuns(s)
    ensures MaximalRun(s, i, j) && run == s[i..j]
    decreases |s|
  {
    hide Leading, After, BurstRuns;
    NoRuns(s, run);
    var n := FirstPart(s);
    RunsHave(s, run);
    if s[0].isBurst && run == s[0..n] {
      i, j := 0, n;
    } else {
      var rest := s[n..];
      i, j := RunHasPlace(rest, run);
      RunBehind(s, n, i + n, j + n);
      SliceBehind(s, n, i + n, j + n);
      i, j := i + n, j + n;
    }
  }

  lemma {:induction false} PlaceHasRun(s: seq<Group>, i: nat, j: nat)
    requires MaximalRun(s, i, j)
    ensures s[i..j] in BurstRuns(s)
    decreases |s|
  {
    hide Leading, After, BurstRuns;
    var n := FirstPart(s);
    RunsHave(s, s[i..j]);
    if i < n {
      FirstRunIs(s, n, i, j);
    } else {
      RunBehind(s, n, i, j);
      PlaceHasRun(s[n..], i - n, j - n);
      SliceBehind(s, n, i, j);
    }
  }

  /** The runs are exactly the maximal stretches of burst groups. */
  lemma RunsAreMaximal(s: seq<Group>, run: seq<Group>)
    ensures run in BurstRuns(s) <==> exists i: nat, j: nat :: MaximalRun(s, i, j) && run == s[i..j]
  {
    hide BurstRuns;
    if run in BurstRuns(s) {
      var i, j := RunHasPlace(s, run);
    }
    if i: nat, j: nat :| MaximalRun(s, i, j) && run == s[i..j] {
      PlaceHasRun(s, i, j);
    }
  }

  lemma FirstRunIs(s: seq<Group>, n: nat, i: nat, j: nat)
    requires i < n <= |s| && MaximalRun(s, i, j)
    requires if s[0].isBurst then MaximalRun(s, 0, n) else n == 1
    ensures s[0].isBurst && i == 0 && j == n
  {
  }

  /** The runs are made of the burst groups, none missing and none twice. */
  lemma {:induction false} RunsAreBursts(s: seq<Group>)
    ensures Concat(BurstRuns(s)) == Bursts(s)
    decreases |s|
  {
    if s != [] {
      if s[0].isBurst {
        RunsAreBursts(After(s));
        BurstsAfter(s);
        assert ([Leading(s)] + BurstRuns(After(s)))[1..] == BurstRuns(After(s));
      } else {
        RunsAreBursts(s[1..]);
        assert [] + Bursts(s[1..]) == Bursts(s[1..]);
      }
    }
  }

  lemma {:induction false} DropIdleKeepsRuns(s: seq<Group>)
    ensures BurstRuns(DropIdle(s)) == BurstRuns(s)
    ensures DropIdle(s) == [] ==> BurstRuns(s) == []
  {
    if s != [] && !s[0].isBurst {
      DropIdleKeepsRuns(s[1..]);
    }
  }

  lemma AbsorbKeepsRuns(s: seq<Group>)
    requires |s| >= 2 && s[0].isBurst && s[1].isBurst
    ensures FuseAll(BurstRuns([Absorb(s[0], s[1])] + s[2..])) == FuseAll(BurstRuns(s))
  {
    var m := Absorb(s[0], s[1]);
    var run, rest := Leading(s[2..]), After(s[2..]);
    RunsCons(s[1], s[2..]);
    RunsCons(s[0], [s[1]] + s[2..]);
    RunsCons(m, s[2..]);
    assert s == [s[0]] + ([s[1]] + s[2..]);
    hide BurstRuns, Leading, After, FuseAll, Fuse;
    FuseStep(s[0], s[1], run);
    FuseAllCons([s[0]] + ([s[1]] + run), BurstRuns(rest));
    FuseAllCons([m] + run, BurstRuns(rest));
  }

  lemma RunsCons(g: Group, r: seq<Group>)
    requires g.isBurst
    ensures Leading([g] + r) == [g] + Leading(r) && After([g] + r) == After(r)
    ensures BurstRuns([g] + r) == [[g] + Leading(r)] + BurstRuns(After(r))
  {
    assert ([g] + r)[1..] == r;
  }

  lemma FuseStep(a: Group, b: Group, rest: seq<Group>)
    ensures Fuse([a] + ([b] + rest)) == Fuse([Absorb(a, b)] + rest)
  {
    assert ([a] + ([b] + rest))[2..] == rest;
  }

  lemma FuseAllCons(run: seq<Group>, runs: seq<seq<Group>>)
    requires run != [] && forall i :: 0 <= i < |runs| ==> runs[i] != []
    ensures FuseAll([run] + runs) == [Fuse(run)] + FuseAll(runs)
  {
    assert ([run] + runs)[1..] == runs;
  }

  /** Regrouping gives one group for each maximal run of bursts, in order; a chain without any
      burst is cut down to its last list. */
  lemma {:induction false} RegroupedIsRuns(s: seq<Group>)
    requires s != []
    ensures if Bursts(s) != [] then Regrouped(s) == FuseAll(BurstRuns(s)) else Regrouped(s) == [s[|s| - 1]]
    decreases |s|
  {
    if |s| == 1 {
      OneRun(s[0], []);
      assert s == [s[0]] + [] && s[1..] == [];
      assert BurstRuns([]) == [] && FuseAll([]) == [] && Bursts([]) == [];
      assert s[0].isBurst ==> FuseAll(BurstRuns(s)) == [s[0]] + [];
    } else if !s[0].isBurst {
      RegroupedIsRuns(s[1..]);
    } else if s[1].isBurst {
      RegroupedIsRuns([Absorb(s[0], s[1])] + s[2..]);
      AbsorbKeepsRuns(s);
    } else {
      OneRun(s[0], s[1..]);
      assert s == [s[0]] + s[1..];
      var rest := DropIdle(s[1..]);
      DropIdleKeepsRuns(s[1..]);
      if rest != [] {
        assert Bursts(rest) != [];
        RegroupedIsRuns(rest);
      }
    }
  }

  lemma {:induction false} FusedItems(runs: seq<seq<Group>>)
    requires forall i :: 0 <= i < |runs| ==> runs[i] != []
    ensures Items(FuseAll(runs)) == Items(Concat(runs))
  {
    if runs != [] {
      FuseIs(runs[0]);
      FusedItems(runs[1..]);
      ItemsConcat(runs[0], Concat(runs[1..]));
      assert FuseAll(runs)[1..] == FuseAll(runs[1..]);
    }
  }

  /** Regrouping keeps exactly the reads of the burst lists, in order. */
  lemma RegroupedKeepsBursts(s: seq<Group>)
    requires Bursts(s) != []
    ensures Items(Regrouped(s)) == Items(Bursts(s))
  {
    assert s != [];
    RegroupedIsRuns(s);
    RunsAreBursts(s);
    FusedItems(BurstRuns(s));
  }

  lemma OneRun(g: Group, rest: seq<Group>)
    requires rest == [] || !rest[0].isBurst
    ensures g.isBurst ==> FuseAll(BurstRuns([g] + rest)) == [g] + FuseAll(BurstRuns(rest))
  {
    if g.isBurst {
      assert ([g] + rest)[1..] == rest;
      assert Leading(rest) == [] && After(rest) == rest;
      assert Leading([g] + rest) == [g] && After([g] + rest) == rest;
      FuseAllCons([g], BurstRuns(rest));
    }
  }

  // ----- regrouping step by step -----

  /** The groups when the first k are finished and the k-th still absorbs. */
  ghost function RegroupedFrom(s: seq<Group>, k: nat): seq<Group>
    requires k <= |s|
  {
    s[..k] + Regrouped(s[k..])
  }

  /** The groups when the k-th absorbs no more. */
  ghost function ClosedFrom(s: seq<Group>, k: nat): seq<Group>
    requires k < |s|
  {
    s[..k] + Closed(s[k..])
  }

  lemma RegroupAbsorb(s: seq<Group>, k: nat)
    requires k + 1 < |s| && s[k].isBurst && s[k + 1].isBurst
    ensures RegroupedFrom(s[..k] + ([Absorb(s[k], s[k + 1])] + s[k + 2..]), k) == RegroupedFrom(s, k)
  {
    var m := Absorb(s[k], s[k + 1]);
    var r := s[..k] + ([m] + s[k + 2..]);
    var t := s[k..];
    assert t[0] == s[k] && t[1] == s[k + 1] && t[2..] == s[k + 2..];
    assert r[..k] == s[..k] && r[k..] == [m] + s[k + 2..];
  }

  lemma RegroupClose(s: seq<Group>, k: nat)
    requires k < |s| && s[k].isBurst && (k + 1 < |s| ==> !s[k + 1].isBurst)
    ensures ClosedFrom(s, k) == RegroupedFrom(s, k)
  {
    var t := s[k..];
    assert t[0] == s[k] && (k + 1 < |s| ==> t[1] == s[k + 1]);
    if |t| == 1 { assert t[1..] == [] && [t[0]] + [] == t; }
  }

  lemma CloseSkip(s: seq<Group>, k: nat, r: seq<Group>)
    requires k + 1 < |s| && !s[k + 1].isBurst && Removed(s, k + 1, r)
    ensures ClosedFrom(r, k) == ClosedFrom(s, k)
  {
    RemovedIs(s, k + 1, r);
    assert r[..k] == s[..k] && r[k] == s[k];
    assert r[k..][1..] == s[k + 2..] && s[k..][1..] == s[k + 1..] && s[k + 1..][1..] == s[k + 2..];
    assert DropIdle(s[k + 1..]) == DropIdle(s[k + 2..]);
  }

  lemma CloseNext(s: seq<Group>, k: nat)
    requires k < |s| && (k + 1 < |s| ==> s[k + 1].isBurst)
    ensures RegroupedFrom(s, k + 1) == ClosedFrom(s, k)
  {
    assert s[k..][1..] == s[k + 1..];
    assert DropIdle(s[k + 1..]) == s[k + 1..];
    Regroup(s[..k], s[k], Regrouped(s[k + 1..]));
    assert s[..k + 1] == s[..k] + [s[k]];
  }

  lemma RegroupEnds(s: seq<Group>, k: nat)
    requires k <= |s|
    ensures k == 0 ==> RegroupedFrom(s, k) == Regrouped(s)
    ensures |s| <= k + 1 ==> RegroupedFrom(s, k) == s
  {
    assert s[..k] + s[k..] == s && s[0..] == s;
  }
}
