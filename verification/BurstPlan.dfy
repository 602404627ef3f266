/** The 32-bit analyzer's plan of one burst group, on values: what inserting a queued read
    into the sorted list does to it, and what the fusing pass before printing makes of it.
    The classes that do this in place are in module BurstGroups. */
module BurstPlan {
  import opened Extents

  /** The list after one queued extent `t` has been walked into `s`: the branches are those
      of the source's loop body, in its order. */
  function Insert(s: seq<Extent>, t: Extent): seq<Extent> {
    if s == [] then [t]
    else
      var n := s[0];
      if t.lba < n.lba then [t] + s
      else if t.lba == n.lba then
        if LeftExtends(t, n) then [Extent(n.lba, t.off, n.off - t.off + n.len)] + s[1..]
        else if Contains(t, n) then [Extent(n.lba, t.off, t.len)] + s[1..]
        else if RightExtends(t, n) then [Extent(n.lba, n.off, t.off - n.off + t.len)] + s[1..]
        else if t.off < n.off && t.End() < n.off then [t] + s
        else if n.End() < t.off then [n] + Insert(s[1..], t)
        else s
      else [n] + Insert(s[1..], t)
  }

  /** `t` starts before `n` and ends in it (or just where it starts). */
  predicate LeftExtends(t: Extent, n: Extent) {
    t.off < n.off && t.End() >= n.off && t.End() <= n.End()
  }

  predicate Contains(t: Extent, n: Extent) {
    n.off >= t.off && n.End() <= t.End()
  }

  /** `t` starts in `n` (or just where it ends) and ends after it. */
  predicate RightExtends(t: Extent, n: Extent) {
    n.off <= t.off && t.off <= n.End() && n.End() < t.End()
  }

  function InsertAll(s: seq<Extent>, ts: seq<Extent>): seq<Extent>
    decreases |ts|
  {
    if ts == [] then s else InsertAll(Insert(s, ts[0]), ts[1..])
  }

  /** What an unused slot of the queue holds. */
  const BLANK := Extent(0, 0, 0)

  /** One batch of the queue. An empty group takes the front slot without looking at the
      count, so an empty batch leaves a blank node in it. */
  function AppendBatch(s: seq<Extent>, batch: seq<Extent>): seq<Extent> {
    if s != [] then InsertAll(s, batch)
    else if batch == [] then [BLANK]
    else InsertAll([batch[0]], batch[1..])
  }

  function AppendBatches(s: seq<Extent>, batches: seq<seq<Extent>>): seq<Extent>
    decreases |batches|
  {
    if batches == [] then s else AppendBatches(AppendBatch(s, batches[0]), batches[1..])
  }

  function Flatten(batches: seq<seq<Extent>>): seq<Extent> {
    if batches == [] then [] else batches[0] + Flatten(batches[1..])
  }

  datatype Option<T> = None | Some(value: T)

  /** What `a` becomes if it swallows its successor `b`. The third branch computes the length
      from the offset it has just overwritten. */
  function Fused(a: Extent, b: Extent): Option<Extent> {
    if a.lba == b.lba && LeftExtends(a, b) then Some(Extent(a.lba, a.off, b.off - a.off + b.len))
    else if a.lba == b.lba && Contains(a, b) then Some(a)
    else if a.lba == b.lba && RightExtends(a, b) then Some(Extent(a.lba, b.off, b.off - b.off + a.len))
    else None
  }

  /** The fusing pass: an extent swallows its successors while it can, then the pass moves on. */
  function Coalesce(s: seq<Extent>): seq<Extent>
    decreases |s|
  {
    if |s| < 2 then s
    else
      match Fused(s[0], s[1])
      case Some(e) => Coalesce([e] + s[2..])
      case None => [s[0]] + Coalesce(s[1..])
  }

  // ----- one insertion -----

  lemma SortedCons(n: Extent, r: seq<Extent>)
    requires Sorted(r) && forall e :: e in r ==> Below(n, e)
    ensures Sorted([n] + r)
  {
  }

  lemma {:induction false} InsertStaysAbove(p: Extent, s: seq<Extent>, t: Extent)
    requires Below(p, t) && forall e :: e in s ==> Below(p, e)
    ensures forall e :: e in Insert(s, t) ==> Below(p, e)
  {
    if s != [] {
      assert s[0] in s && forall e :: e in s[1..] ==> e in s;
      InsertStaysAbove(p, s[1..], t);
    }
  }

  /** Insertion keeps the list strictly increasing in (lba, off), whichever branch it takes. */
  lemma {:induction false} InsertKeepsSorted(s: seq<Extent>, t: Extent)
    requires Sorted(s) && NonNegative(s) && 0 <= t.len
    ensures Sorted(Insert(s, t))
  {
    if s == [] {
    } else {
      var n, rest, r := s[0], s[1..], Insert(s, t);
      assert n in s && s == [n] + rest && Sorted(rest) && forall e :: e in rest ==> Below(n, e);
      hide Sorted;
      if r == [t] + s && Below(t, n) {
        SortedCons(t, s);
      } else if r == [r[0]] + rest {
        SortedCons(r[0], rest);
      } else if r != s {
        InsertKeepsSorted(rest, t);
        InsertStaysAbove(n, rest, t);
        SortedCons(n, Insert(rest, t));
      }
    }
  }

  lemma {:induction false} InsertKeepsNonNegative(s: seq<Extent>, t: Extent)
    requires NonNegative(s) && 0 <= t.len
    ensures NonNegative(Insert(s, t))
  {
    if s != [] {
      InsertKeepsNonNegative(s[1..], t);
    }
  }

  lemma {:induction false} InsertKeepsPositive(s: seq<Extent>, t: Extent)
    requires Positive(s) && 0 < t.len
    ensures Positive(Insert(s, t))
  {
    if s != [] {
      InsertKeepsPositive(s[1..], t);
    }
  }

  /** Insertion covers exactly the bytes covered before and those of the new extent, also
      when the fused extent runs into later nodes of the list. */
  lemma {:induction false} InsertCovers(s: seq<Extent>, t: Extent, p: Spot)
    requires NonNegative(s) && 0 <= t.len
    ensures Covers(Insert(s, t), p) <==> Covers(s, p) || Has(t, p)
  {
    if s == [] {
    } else {
      var n := s[0];
      CoversSplit(s, p);
      CoversCons(t, s, p);
      CoversCons(n, Insert(s[1..], t), p);
      CoversSplit(Insert(s, t), p);
      InsertCovers(s[1..], t, p);
    }
  }

  // ----- any number of batches -----

  lemma {:induction false} InsertAllKeeps(s: seq<Extent>, ts: seq<Extent>, p: Spot)
    requires Sorted(s) && NonNegative(s) && NonNegative(ts)
    ensures Sorted(InsertAll(s, ts)) && NonNegative(InsertAll(s, ts))
    ensures Covers(InsertAll(s, ts), p) <==> Covers(s, p) || Covers(ts, p)
    decreases |ts|
  {
    if ts != [] {
      InsertKeepsSorted(s, ts[0]);
      InsertKeepsNonNegative(s, ts[0]);
      InsertCovers(s, ts[0], p);
      CoversSplit(ts, p);
      InsertAllKeeps(Insert(s, ts[0]), ts[1..], p);
    }
  }

  lemma {:induction false} InsertAllKeepsPositive(s: seq<Extent>, ts: seq<Extent>)
    requires Positive(s) && Positive(ts)
    ensures Positive(InsertAll(s, ts))
    decreases |ts|
  {
    if ts != [] {
      InsertKeepsPositive(s, ts[0]);
      InsertAllKeepsPositive(Insert(s, ts[0]), ts[1..]);
    }
  }

  /** The queued extents that reach the list: all of them, and one blank when the first batch
      finds an empty group and an empty queue. */
  function Inserted(batches: seq<seq<Extent>>): seq<Extent> {
    if batches != [] && batches[0] == [] then [BLANK] + Flatten(batches) else Flatten(batches)
  }

  lemma AppendBatchIsInsertAll(s: seq<Extent>, batch: seq<Extent>)
    ensures AppendBatch(s, batch) == InsertAll(s, if s == [] && batch == [] then [BLANK] else batch)
    ensures AppendBatch(s, batch) != []
  {
    InsertAllIsNotEmpty(s, if s == [] && batch == [] then [BLANK] else batch);
  }

  lemma {:induction false} AppendBatchesIsInsertAll(s: seq<Extent>, batches: seq<seq<Extent>>)
    requires s != []
    ensures AppendBatches(s, batches) == InsertAll(s, Flatten(batches))
    decreases |batches|
  {
    hide Insert;
    if batches != [] {
      AppendBatchIsInsertAll(s, batches[0]);
      InsertAllConcat(s, batches[0], Flatten(batches[1..]));
      AppendBatchesIsInsertAll(AppendBatch(s, batches[0]), batches[1..]);
    }
  }

  lemma AppendBatchesFromEmpty(batches: seq<seq<Extent>>)
    ensures AppendBatches([], batches) == InsertAll([], Inserted(batches))
  {
    if batches != [] {
      hide Insert, InsertAll;
      FirstBatch(batches[0], batches[1..]);
      InsertedSplit(batches);
    }
  }

  lemma InsertedSplit(batches: seq<seq<Extent>>)
    requires batches != []
    ensures Inserted(batches) == (if batches[0] == [] then [BLANK] else batches[0]) + Flatten(batches[1..])
  {
    var f := Flatten(batches[1..]);
    assert Flatten(batches) == batches[0] + f;
    hide Flatten;
    if batches[0] == [] { assert batches[0] + f == f; }
  }

  lemma FirstBatch(batch: seq<Extent>, rest: seq<seq<Extent>>)
    ensures var first := if batch == [] then [BLANK] else batch;
            AppendBatches(AppendBatch([], batch), rest) == InsertAll([], first + Flatten(rest))
  {
    hide Insert, InsertAll;
    var first := if batch == [] then [BLANK] else batch;
    AppendBatchIsInsertAll([], batch);
    InsertAllConcat([], first, Flatten(rest));
    AppendBatchesIsInsertAll(AppendBatch([], batch), rest);
  }

  lemma {:induction false} InsertAllConcat(s: seq<Extent>, ts: seq<Extent>, us: seq<Extent>)
    ensures InsertAll(s, ts + us) == InsertAll(InsertAll(s, ts), us)
    decreases |ts|
  {
    if ts == [] {
      assert ts + us == us;
    } else {
      assert (ts + us)[1..] == ts[1..] + us;
      InsertAllConcat(Insert(s, ts[0]), ts[1..], us);
    }
  }

  lemma {:induction false} InsertAllIsNotEmpty(s: seq<Extent>, ts: seq<Extent>)
    ensures s != [] || ts != [] ==> InsertAll(s, ts) != []
    decreases |ts|
  {
    if ts != [] {
      InsertAllIsNotEmpty(Insert(s, ts[0]), ts[1..]);
    }
  }

  // ----- the fusing pass -----

  lemma FusedSorted(e: Extent, s: seq<Extent>)
    requires Sorted(s) && NonNegative(s) && 2 <= |s| && 0 <= e.len
    requires e.lba == s[0].lba && e.off == s[0].off
    ensures Sorted([e] + s[2..]) && NonNegative([e] + s[2..])
  {
  }

  lemma {:induction false} CoalesceStaysApart(d: Extent, s: seq<Extent>)
    requires Sorted(s) && NonNegative(s) && forall e :: e in s ==> Apart(d, e)
    ensures forall e :: e in Coalesce(s) ==> Apart(d, e)
    decreases |s|
  {
    if |s| >= 2 {
      var a, b := s[0], s[1];
      assert Below(a, b);
      assert a in s && b in s && (forall e :: e in s[1..] ==> e in s) && forall e :: e in s[2..] ==> e in s;
      var fused := Extent(a.lba, a.off, b.off - a.off + b.len);
      if a.lba == b.lba && LeftExtends(a, b) {
        FusedSorted(fused, s);
        CoalesceStaysApart(d, [fused] + s[2..]);
      } else if a.lba == b.lba && Contains(a, b) {
        FusedSorted(a, s);
        CoalesceStaysApart(d, [a] + s[2..]);
      } else {
        CoalesceStaysApart(d, s[1..]);
      }
    }
  }

  /** On a sorted list the fusing pass separates all extents, also those it does not compare. */
  lemma {:induction false} CoalesceSeparates(s: seq<Extent>)
    requires Sorted(s) && NonNegative(s)
    ensures Separated(Coalesce(s)) && NonNegative(Coalesce(s))
    ensures Positive(s) ==> Positive(Coalesce(s))
    decreases |s|
  {
    if |s| >= 2 {
      var a, b := s[0], s[1];
      assert Below(a, b) && a in s && b in s;
      if a.lba == b.lba && LeftExtends(a, b) {
        var fused := Extent(a.lba, a.off, b.off - a.off + b.len);
        FusedSorted(fused, s);
        CoalesceSeparates([fused] + s[2..]);
      } else if a.lba == b.lba && Contains(a, b) {
        FusedSorted(a, s);
        CoalesceSeparates([a] + s[2..]);
      } else {
        CoalesceSeparates(s[1..]);
        assert forall e :: e in s[1..] ==> Apart(a, e);
        CoalesceStaysApart(a, s[1..]);
      }
    }
  }

  /** On a sorted list the fusing pass neither loses a byte nor adds one; nor does it add or
      lose a point where extents touch. */
  lemma {:induction false} CoalesceCovers(s: seq<Extent>, p: Spot)
    requires Sorted(s) && NonNegative(s)
    ensures Covers(Coalesce(s), p) <==> Covers(s, p)
    decreases |s|
  {
    if |s| >= 2 {
      var a, b := s[0], s[1];
      assert Below(a, b) && a in s && b in s;
      CoversSplit(s, p);
      CoversSplit(s[1..], p);
      assert s[1..][1..] == s[2..];
      if a.lba == b.lba && LeftExtends(a, b) {
        var fused := Extent(a.lba, a.off, b.off - a.off + b.len);
        FusedSorted(fused, s);
        CoversCons(fused, s[2..], p);
        CoalesceCovers([fused] + s[2..], p);
      } else if a.lba == b.lba && Contains(a, b) {
        FusedSorted(a, s);
        CoversCons(a, s[2..], p);
        CoalesceCovers([a] + s[2..], p);
      } else {
        CoversCons(a, Coalesce(s[1..]), p);
        CoalesceCovers(s[1..], p);
      }
    }
  }

  /** What is printed for a group that received these batches. */
  function Plan(batches: seq<seq<Extent>>): seq<Extent> {
    Coalesce(AppendBatches([], batches))
  }

  // ----- the main results -----

  lemma PlanCovers(batches: seq<seq<Extent>>, p: Spot)
    requires NonNegative(Flatten(batches))
    ensures Separated(Plan(batches)) && NonNegative(Plan(batches))
    ensures Covers(Plan(batches), p) <==> Covers(Inserted(batches), p)
    ensures Positive(Inserted(batches)) ==> Positive(Plan(batches))
  {
    AppendBatchesFromEmpty(batches);
    InsertAllKeeps([], Inserted(batches), p);
    if Positive(Inserted(batches)) {
      InsertAllKeepsPositive([], Inserted(batches));
    }
    CoalesceSeparates(AppendBatches([], batches));
    CoalesceCovers(AppendBatches([], batches), p);
  }

  /** The plan covers exactly the bytes that were queued, whatever the batches. */
  lemma PlanKeepsTheBytes(batches: seq<seq<Extent>>)
    requires NonNegative(Flatten(batches))
    ensures SameBytes(Plan(batches), Flatten(batches))
  {
    forall lba, b
      ensures Covers(Plan(batches), Byte(lba, b)) <==> Covers(Flatten(batches), Byte(lba, b))
    {
      PlanCovers(batches, Byte(lba, b));
      CoversCons(BLANK, Flatten(batches), Byte(lba, b));
    }
  }

  /** A point of a nonempty range is next to one of its bytes. */
  lemma TouchedMeansNearby(s: seq<Extent>, lba: int, at: int)
    requires Positive(s)
    ensures Covers(s, Point(lba, at)) <==> Covers(s, Byte(lba, at)) || Covers(s, Byte(lba, at - 1))
  {
    forall e | e in s
      ensures Has(e, Point(lba, at)) <==> Has(e, Byte(lba, at)) || Has(e, Byte(lba, at - 1))
    {
    }
  }

  lemma SeparatedMeetOnce(s: seq<Extent>, d: Extent, e: Extent, p: Spot)
    requires Separated(s) && d in s && e in s && Has(d, p) && Has(e, p)
    ensures d == e
  {
    forall i, j | 0 <= i < j < |s|
      ensures !(Has(s[i], p) && Has(s[j], p))
    {
      assert Apart(s[i], s[j]);
    }
  }

  /** An extent of the plan is nonempty if its first point belongs to some read. */
  lemma ReadMakesItPositive(batches: seq<seq<Extent>>, z: Extent)
    requires Positive(Flatten(batches)) && z in Plan(batches)
    requires Covers(Flatten(batches), Point(z.lba, z.off))
    ensures 0 < z.len
  {
    PlanCovers(batches, Point(z.lba, z.off));
    PlanKeepsTheBytes(batches);
    TouchedMeansNearby(Flatten(batches), z.lba, z.off);
    var q := if Covers(Flatten(batches), Byte(z.lba, z.off)) then Byte(z.lba, z.off) else Byte(z.lba, z.off - 1);
    assert Covers(Plan(batches), q);
    var d :| d in Plan(batches) && Has(d, q);
    SeparatedMeetOnce(Plan(batches), d, z, Point(z.lba, z.off));
  }

  lemma BlankWasAbsorbed(batches: seq<seq<Extent>>)
    requires Positive(Flatten(batches)) && Canonical(Plan(batches))
    requires batches != [] && batches[0] == []
    ensures Covers(Flatten(batches), Point(0, 0))
  {
    hide Plan, Coalesce, Flatten, Apart;
    var origin := Point(0, 0);
    PlanCovers(batches, origin);
    CoversCons(BLANK, Flatten(batches), origin);
    assert Has(BLANK, origin);
    TouchedMeansNearby(Plan(batches), 0, 0);
    PlanKeepsTheBytes(batches);
    TouchedMeansNearby(Flatten(batches), 0, 0);
  }

  lemma FirstPointIsRead(batches: seq<seq<Extent>>, z: Extent)
    requires Positive(Flatten(batches)) && Covers(Flatten(batches), Point(0, 0))
    requires z in Plan(batches) && 0 <= z.len
    ensures Covers(Flatten(batches), Point(z.lba, z.off))
  {
    hide Plan, Flatten, Separated;
    var p := Point(z.lba, z.off);
    assert Has(z, p) && Covers(Plan(batches), p);
    PlanCovers(batches, p);
    if Inserted(batches) == [BLANK] + Flatten(batches) {
      CoversCons(BLANK, Flatten(batches), p);
    }
  }

  lemma AbsorbedMeansPositive(batches: seq<seq<Extent>>)
    requires Positive(Flatten(batches)) && Covers(Flatten(batches), Point(0, 0))
    requires NonNegative(Plan(batches))
    ensures Positive(Plan(batches))
  {
    hide Plan, Flatten, Covers;
    forall z | z in Plan(batches)
      ensures 0 < z.len
    {
      FirstPointIsRead(batches, z);
      ReadMakesItPositive(batches, z);
    }
  }

  /** No blank node gets in at the start, or some read absorbs it. */
  ghost predicate BlankFree(batches: seq<seq<Extent>>) {
    batches == [] || batches[0] != [] || Covers(Flatten(batches), Point(0, 0))
  }

  /** The plan is a normal form exactly when no blank node got in at the start, or some read
      of lba 0 touches offset 0 and so absorbs it. */
  lemma PlanIsCanonicalExactly(batches: seq<seq<Extent>>)
    requires Positive(Flatten(batches))
    ensures Canonical(Plan(batches)) <==> BlankFree(batches)
  {
    PlanCovers(batches, Point(0, 0));
    if batches != [] && batches[0] == [] {
      if Canonical(Plan(batches)) {
        BlankWasAbsorbed(batches);
      }
      if Covers(Flatten(batches), Point(0, 0)) {
        AbsorbedMeansPositive(batches);
      }
    }
  }

  /** Neither the order of the reads nor the places where the queue filled up matter: equal
      sets of bytes give equal plans, and these are in normal form. */
  lemma PlanIsOrderIndependent(batches: seq<seq<Extent>>, batches': seq<seq<Extent>>)
    requires Positive(Flatten(batches)) && Positive(Flatten(batches'))
    requires BlankFree(batches) && BlankFree(batches')
    requires SameBytes(Flatten(batches), Flatten(batches'))
    ensures Canonical(Plan(batches)) && Plan(batches) == Plan(batches')
  {
    hide Plan, Canonical, Positive, BlankFree;
    PlanIsCanonicalExactly(batches);
    PlanIsCanonicalExactly(batches');
    assert NonNegative(Flatten(batches)) && NonNegative(Flatten(batches')) by {
      PositiveIsNonNegative(Flatten(batches));
      PositiveIsNonNegative(Flatten(batches'));
    }
    PlanKeepsTheBytes(batches);
    PlanKeepsTheBytes(batches');
    CanonicalIsUnique(Plan(batches), Plan(batches'));
  }

  lemma PositiveIsNonNegative(s: seq<Extent>)
    requires Positive(s)
    ensures NonNegative(s)
  {
  }

  /** Two extents that meet lose bytes in the fusing pass exactly when the second starts
      first and ends inside the first one: the third branch overwrites the offset and then
      measures the length from it. */
  lemma FusingLosesExactly(a: Extent, b: Extent)
    requires 0 < a.len && 0 < b.len
    ensures SameBytes(Coalesce([a, b]), [a, b]) <==> !(a.lba == b.lba && b.off < a.off <= b.End() < a.End())
  {
    var fused := Extent(a.lba, b.off, a.len);
    assert Coalesce([a]) == [a] && Coalesce([b]) == [b];
    if a.lba == b.lba && b.off < a.off <= b.End() < a.End() {
      var last := Byte(a.lba, a.End() - 1);
      assert Coalesce([a, b]) == [fused];
      assert Has(a, last) && a in [a, b] && Covers([a, b], last);
      assert !Covers([fused], last);
    } else {
      forall lba, at
        ensures Covers(Coalesce([a, b]), Byte(lba, at)) <==> Covers([a, b], Byte(lba, at))
      {
        PairCovers(a, b, Byte(lba, at));
      }
    }
  }

  lemma PairCovers(a: Extent, b: Extent, p: Spot)
    requires p.Byte? && 0 < a.len && 0 < b.len
    requires !(a.lba == b.lba && b.off < a.off <= b.End() < a.End())
    ensures Covers(Coalesce([a, b]), p) <==> Covers([a, b], p)
  {
    CoversCons(a, [b], p);
    CoversCons(b, [], p);
    CoversCons(a, [], p);
    var fused := Extent(a.lba, a.off, b.off - a.off + b.len);
    CoversCons(fused, [], p);
    assert [a] + [b] == [a, b] && [a] + [] == [a] && [b] + [] == [b] && [fused] + [] == [fused];
    assert Coalesce([a]) == [a] && Coalesce([b]) == [b] && Coalesce([fused]) == [fused];
    assert !Covers([], p);
    if a.lba == b.lba && LeftExtends(a, b) {
      assert Coalesce([a, b]) == [fused];
    } else if a.lba == b.lba && Contains(a, b) {
      assert Coalesce([a, b]) == [a];
    } else {
      assert Coalesce([a, b]) == [a, b];
    }
  }
}
