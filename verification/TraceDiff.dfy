/** Comparing the disk trace of a normal start with that of a prefetching start: both are expanded
    to single sectors, and two merges find the requests that prefetching has covered. */
module TraceDiff {
  import opened Sequences

  /** A line of a trace: its sector and the other columns. */
  datatype Row<T> = Row(sector: int, rest: T)

  datatype Request = Request(columns: seq<string>, count: int, op: string)

  datatype Single = Single(columns: seq<string>, op: string)

  // ----- expanding -----

  /** One line for each sector of the request; none if the count is not positive. */
  function Copies(r: Row<Request>): seq<Row<Single>> {
    seq(if r.rest.count > 0 then r.rest.count else 0,
        i requires 0 <= i => Row(r.sector + i, Single(r.rest.columns, r.rest.op)))
  }

  /** Sector by sector, with the columns and the operation of the request. */
  lemma CopiesAre(r: Row<Request>)
    ensures r.rest.count <= 0 ==> Copies(r) == []
    ensures 0 <= r.rest.count ==> |Copies(r)| == r.rest.count
    ensures forall i :: 0 <= i < |Copies(r)| ==>
              && Copies(r)[i].sector == r.sector + i
              && Copies(r)[i].rest.columns == r.rest.columns && Copies(r)[i].rest.op == r.rest.op
  {
  }

  function Expanded(rs: seq<Row<Request>>): seq<Row<Single>> {
    if rs == [] then [] else Expanded(rs[..|rs| - 1]) + Copies(rs[|rs| - 1])
  }

  method Rep(rs: seq<Row<Request>>) returns (out: seq<Row<Single>>)
    ensures out == Expanded(rs)
  {
    out := [];
    for k := 0 to |rs|
      invariant out == Expanded(rs[..k])
    {
      ghost var before := out;
      assert rs[..k + 1][..k] == rs[..k];
      var i := 0;
      while i < rs[k].rest.count
        invariant 0 <= i && (i <= rs[k].rest.count || i == 0)
        invariant out == before + Copies(rs[k])[..i]
      {
        out := out + [Row(rs[k].sector + i, Single(rs[k].rest.columns, rs[k].rest.op))];
        i := i + 1;
      }
      assert Copies(rs[k])[..i] == Copies(rs[k]);
    }
    assert rs[..|rs|] == rs;
  }

  // ----- merging -----

  /** The rows of `a` that the merge keeps: equal sectors cancel one against one. */
  function Minus<A, B>(a: seq<Row<A>>, b: seq<Row<B>>): seq<Row<A>>
    decreases |a| + |b|
  {
    if a == [] || b == [] then a
    else if a[0].sector < b[0].sector then [a[0]] + Minus(a[1..], b)
    else if a[0].sector > b[0].sector then Minus(a, b[1..])
    else Minus(a[1..], b[1..])
  }

  lemma MinusEnds<A, B>(a: seq<Row<A>>, b: seq<Row<B>>)
    requires a == [] || b == []
    ensures Minus(a, b) == a
  {
  }

  lemma MinusStep<A, B>(out: seq<Row<A>>, a: seq<Row<A>>, b: seq<Row<B>>, i: nat, j: nat)
    requires i < |a| && j < |b|
    ensures out + Minus(a[i..], b[j..]) ==
              if a[i].sector < b[j].sector then (out + [a[i]]) + Minus(a[i + 1..], b[j..])
              else if a[i].sector > b[j].sector then out + Minus(a[i..], b[j + 1..])
              else out + Minus(a[i + 1..], b[j + 1..])
  {
    assert a[i..][1..] == a[i + 1..] && b[j..][1..] == b[j + 1..];
    Regroup(out, a[i], Minus(a[i + 1..], b[j..]));
  }

  /** The sectors of the normal trace that the prefetching trace does not have. */
  method MakeTemp(norm: seq<Row<Single>>, pref: seq<Row<Single>>) returns (out: seq<Row<Single>>)
    ensures out == Minus(norm, pref)
  {
    hide Minus;
    out := [];
    var i, j := 0, 0;
    assert norm[0..] == norm && pref[0..] == pref;
    while true
      invariant i <= |norm| && j <= |pref| && out + Minus(norm[i..], pref[j..]) == Minus(norm, pref)
      decreases |norm| - i + |pref| - j
    {
      if i == |norm| {
        MinusEnds(norm[i..], pref[j..]);
        break;
      } else if j == |pref| {
        MinusEnds(norm[i..], pref[j..]);
        while i < |norm|
          invariant i <= |norm| && out + norm[i..] == Minus(norm, pref)
        {
          assert norm[i..] == [norm[i]] + norm[i + 1..];
          out := out + [norm[i]];
          i := i + 1;
        }
        break;
      }
      MinusStep(out, norm, pref, i, j);
      if norm[i].sector < pref[j].sector {
        out := out + [norm[i]];
        i := i + 1;
      } else if norm[i].sector > pref[j].sector {
        j := j + 1;
      } else if norm[i].sector == pref[j].sector {
        i, j := i + 1, j + 1;
      }
    }
  }

  /** The requests whose first sector is not in `temp`. The three tests look at the lines read
      before the first of them. */
  method Diff(orig: seq<Row<Request>>, temp: seq<Row<Single>>) returns (out: seq<Row<Request>>)
    ensures out == Minus(orig, temp)
  {
    hide Minus;
    out := [];
    var i, j := 0, 0;
    assert orig[0..] == orig && temp[0..] == temp;
    while true
      invariant i <= |orig| && j <= |temp| && out + Minus(orig[i..], temp[j..]) == Minus(orig, temp)
      decreases |orig| - i + |temp| - j
    {
      if i == |orig| {
        MinusEnds(orig[i..], temp[j..]);
        break;
      } else if j == |temp| {
        MinusEnds(orig[i..], temp[j..]);
        while i < |orig|
          invariant i <= |orig| && out + orig[i..] == Minus(orig, temp)
        {
          assert orig[i..] == [orig[i]] + orig[i + 1..];
          out := out + [orig[i]];
          i := i + 1;
        }
        break;
      }
      MinusStep(out, orig, temp, i, j);
      var o, t := orig[i], temp[j];
      if o.sector < t.sector {
        out := out + [o];
        i := i + 1;
      }
      if o.sector > t.sector {
        j := j + 1;
      }
      if o.sector == t.sector {
        i, j := i + 1, j + 1;
      }
    }
  }

  // ----- what the merge means -----

  ghost predicate Rising<T>(a: seq<Row<T>>) {
    forall i, j :: 0 <= i < j < |a| ==> a[i].sector <= a[j].sector
  }

  ghost predicate StrictlyRising<T>(a: seq<Row<T>>) {
    forall i, j :: 0 <= i < j < |a| ==> a[i].sector < a[j].sector
  }

  function Sectors<T>(a: seq<Row<T>>): (r: seq<int>)
    ensures |r| == |a|
  {
    seq(|a|, i requires 0 <= i < |a| => a[i].sector)
  }

  lemma {:induction false} SectorsCons<T>(a: seq<Row<T>>)
    requires a != []
    ensures multiset(Sectors(a)) == multiset{a[0].sector} + multiset(Sectors(a[1..]))
  {
    assert Sectors(a) == [a[0].sector] + Sectors(a[1..]);
  }

  lemma NoSectors<T>(a: seq<Row<T>>)
    requires a == []
    ensures multiset(Sectors(a)) == multiset{}
  {
    assert Sectors(a) == [];
  }

  lemma MinusNothing(a: multiset<int>)
    ensures multiset{} - a == multiset{} && a - multiset{} == a
  {
  }

  lemma Cancel(x: int, a: multiset<int>, b: multiset<int>)
    ensures x !in b ==> multiset{x} + (a - b) == (multiset{x} + a) - b
    ensures x !in a ==> a - b == a - (multiset{x} + b)
    ensures a - b == (multiset{x} + a) - (multiset{x} + b)
  {
  }

  /** Between rising traces the merge is multiset difference of the sectors. */
  lemma {:induction false} MinusCounts<A, B>(a: seq<Row<A>>, b: seq<Row<B>>)
    requires Rising(a) && Rising(b)
    ensures multiset(Sectors(Minus(a, b))) == multiset(Sectors(a)) - multiset(Sectors(b))
    decreases |a| + |b|
  {
    hide Sectors;
    if a == [] {
      NoSectors(a);
      MinusNothing(multiset(Sectors(b)));
    } else if b == [] {
      NoSectors(b);
      MinusNothing(multiset(Sectors(a)));
    } else {
      SectorsCons(a);
      SectorsCons(b);
      var x, y, p, q := a[0].sector, b[0].sector, multiset(Sectors(a[1..])), multiset(Sectors(b[1..]));
      if x < y {
        var m := Minus(a[1..], b);
        MinusCounts(a[1..], b);
        SectorsCons([a[0]] + m);
        assert Minus(a, b) == [a[0]] + m && ([a[0]] + m)[1..] == m;
        AllAbove(b, x);
        Cancel(x, p, multiset(Sectors(b)));
      } else if x > y {
        MinusCounts(a, b[1..]);
        AllAbove(a, y);
        Cancel(y, multiset(Sectors(a)), q);
      } else {
        MinusCounts(a[1..], b[1..]);
        Cancel(x, p, q);
      }
    }
  }

  lemma {:induction false} AllAbove<T>(a: seq<Row<T>>, x: int)
    requires Rising(a) && (a != [] ==> x < a[0].sector)
    ensures x !in multiset(Sectors(a))
  {
  }

  /** The rows whose sector is not in `s`. */
  function Without<T>(a: seq<Row<T>>, s: set<int>): seq<Row<T>> {
    if a == [] then [] else (if a[0].sector in s then [] else [a[0]]) + Without(a[1..], s)
  }

  lemma {:induction false} WithoutAgrees<T>(a: seq<Row<T>>, s: set<int>, t: set<int>)
    requires forall i :: 0 <= i < |a| ==> (a[i].sector in s <==> a[i].sector in t)
    ensures Without(a, s) == Without(a, t)
  {
    if a != [] {
      WithoutAgrees(a[1..], s, t);
    }
  }

  lemma {:induction false} WithoutNone<T>(a: seq<Row<T>>)
    ensures Without(a, {}) == a
  {
    if a != [] {
      WithoutNone(a[1..]);
    }
  }

  function SectorSet<T>(a: seq<Row<T>>): set<int> {
    set i | 0 <= i < |a| :: a[i].sector
  }

  lemma {:induction false} SectorSetCons<T>(a: seq<Row<T>>)
    requires a != []
    ensures SectorSet(a) == {a[0].sector} + SectorSet(a[1..])
  {
    assert forall i :: 1 <= i < |a| ==> a[i] == a[1..][i - 1];
  }

  /** If the first trace has every sector once, the merge is set difference. */
  lemma {:induction false} MinusIsWithout<A, B>(a: seq<Row<A>>, b: seq<Row<B>>)
    requires StrictlyRising(a) && Rising(b)
    ensures Minus(a, b) == Without(a, SectorSet(b))
    decreases |a| + |b|
  {
    if a == [] {
    } else if b == [] {
      assert SectorSet(b) == {};
      WithoutNone(a);
    } else {
      SectorSetCons(b);
      if a[0].sector < b[0].sector {
        MinusIsWithout(a[1..], b);
        assert a[0].sector !in SectorSet(b);
      } else if a[0].sector > b[0].sector {
        MinusIsWithout(a, b[1..]);
        WithoutAgrees(a, SectorSet(b), SectorSet(b[1..]));
      } else {
        MinusIsWithout(a[1..], b[1..]);
        WithoutAgrees(a[1..], SectorSet(b), SectorSet(b[1..]));
        assert [] + Without(a[1..], SectorSet(b)) == Without(a[1..], SectorSet(b));
      }
    }
  }

  // ----- from end to end -----

  /** Sorted requests without overlap; a request without sectors still has its first one to itself. */
  ghost predicate Disjoint(rs: seq<Row<Request>>) {
    forall i, j :: 0 <= i < j < |rs| ==>
      rs[i].sector < rs[j].sector && rs[i].sector + rs[i].rest.count <= rs[j].sector
  }

  /** Some request reads the sector. */
  predicate Occurs(rs: seq<Row<Request>>, x: int) {
    exists i :: 0 <= i < |rs| && rs[i].sector <= x < rs[i].sector + rs[i].rest.count
  }

  lemma {:induction false} ExpandedOccurs(rs: seq<Row<Request>>, x: int)
    ensures x in SectorSet(Expanded(rs)) <==> Occurs(rs, x)
  {
    if rs != [] {
      var before, r := rs[..|rs| - 1], rs[|rs| - 1];
      ExpandedOccurs(before, x);
      var e, c := Expanded(before), Copies(r);
      SectorSetPlus(e, c, x);
      if r.sector <= x < r.sector + r.rest.count {
        assert c[x - r.sector].sector == x;
      }
      assert forall i :: 0 <= i < |before| ==> before[i] == rs[i];
      assert rs[|before|] == r;
    }
  }

  /** The requests are expanded one after the other. */
  lemma {:induction false} ExpandedInOrder(rs: seq<Row<Request>>, more: seq<Row<Request>>)
    ensures Expanded(rs + more) == Expanded(rs) + Expanded(more)
  {
    hide Copies;
    if more == [] {
      assert rs + more == rs && Expanded(rs) + [] == Expanded(rs);
    } else {
      var before, r := more[..|more| - 1], more[|more| - 1];
      ExpandedInOrder(rs, before);
      assert (rs + more)[..|rs + more| - 1] == rs + before && (rs + more)[|rs + more| - 1] == r;
      assert (Expanded(rs) + Expanded(before)) + Copies(r) == Expanded(rs) + (Expanded(before) + Copies(r));
    }
  }

  lemma ExpandedOne(r: Row<Request>)
    ensures Expanded([r]) == Copies(r)
  {
    hide Copies;
    assert [r][..0] == [] && Expanded([]) == [];
    assert [] + Copies(r) == Copies(r);
  }

  lemma {:induction false} SectorSetPlus<T>(a: seq<Row<T>>, b: seq<Row<T>>, x: int)
    ensures x in SectorSet(a + b) <==> x in SectorSet(a) || x in SectorSet(b)
  {
    assert forall i :: 0 <= i < |a| ==> (a + b)[i] == a[i];
    assert forall i :: 0 <= i < |b| ==> (a + b)[|a| + i] == b[i];
  }

  lemma {:induction false} ExpandedRises(rs: seq<Row<Request>>)
    requires Disjoint(rs)
    ensures StrictlyRising(Expanded(rs))
  {
    if rs != [] {
      var before, r := rs[..|rs| - 1], rs[|rs| - 1];
      ExpandedRises(before);
      var e, c := Expanded(before), Copies(r);
      forall i | 0 <= i < |e|
        ensures e[i].sector < r.sector
      {
        ExpandedOccurs(before, e[i].sector);
      }
    }
  }

  /** The requests that need no sector of their own, or whose first sector was prefetched. */
  function Covered(rs: seq<Row<Request>>, pf: seq<Row<Request>>): seq<Row<Request>> {
    if rs == [] then []
    else (if rs[0].rest.count <= 0 || Occurs(pf, rs[0].sector) then [rs[0]] else []) + Covered(rs[1..], pf)
  }

  lemma {:induction false} CoveredIs(rs: seq<Row<Request>>, pf: seq<Row<Request>>, s: set<int>)
    requires forall i :: 0 <= i < |rs| ==> (rs[i].sector in s <==> rs[i].rest.count > 0 && !Occurs(pf, rs[i].sector))
    ensures Without(rs, s) == Covered(rs, pf)
  {
    if rs != [] {
      CoveredIs(rs[1..], pf, s);
    }
  }

  lemma FirstSectorIsOwn(rs: seq<Row<Request>>, i: nat)
    requires Disjoint(rs) && i < |rs|
    ensures Occurs(rs, rs[i].sector) <==> rs[i].rest.count > 0
  {
  }

  lemma {:induction false} WithoutHas<T>(a: seq<Row<T>>, s: set<int>, x: int)
    ensures x in SectorSet(Without(a, s)) <==> x in SectorSet(a) && x !in s
  {
    if a != [] {
      var rest := Without(a[1..], s);
      WithoutHas(a[1..], s, x);
      SectorSetCons(a);
      if a[0].sector !in s {
        SectorSetCons([a[0]] + rest);
        assert ([a[0]] + rest)[1..] == rest;
      } else {
        assert [] + rest == rest;
      }
    }
  }

  lemma {:induction false} WithoutRises<T>(a: seq<Row<T>>, s: set<int>)
    requires StrictlyRising(a)
    ensures StrictlyRising(Without(a, s))
  {
    if a != [] {
      var rest := Without(a[1..], s);
      WithoutRises(a[1..], s);
      forall i | 0 <= i < |rest|
        ensures a[0].sector < rest[i].sector
      {
        WithoutHas(a[1..], s, rest[i].sector);
      }
      hide Without;
      assert StrictlyRising([a[0]] + rest);
    }
  }

  /** The end result: the requests whose first sector occurs in the prefetching trace, in order
      (and any request with no sectors). Expanding a sorted trace without overlap gives a rising
      one. */
  lemma DiffFindsCovered(orig: seq<Row<Request>>, pf: seq<Row<Request>>)
    requires Disjoint(orig) && Rising(Expanded(pf))
    ensures Minus(orig, Minus(Expanded(orig), Expanded(pf))) == Covered(orig, pf)
  {
    var e, p := Expanded(orig), SectorSet(Expanded(pf));
    ExpandedRises(orig);
    MinusIsWithout(e, Expanded(pf));
    var temp := Without(e, p);
    WithoutRises(e, p);
    MinusIsWithout(orig, temp);
    forall i | 0 <= i < |orig|
      ensures orig[i].sector in SectorSet(temp) <==> orig[i].rest.count > 0 && !Occurs(pf, orig[i].sector)
    {
      WithoutHas(e, p, orig[i].sector);
      ExpandedOccurs(orig, orig[i].sector);
      ExpandedOccurs(pf, orig[i].sector);
      FirstSectorIsOwn(orig, i);
    }
    CoveredIs(orig, pf, SectorSet(temp));
  }

  /** The whole script on one pair of traces. */
  method Compare(orig: seq<Row<Request>>, pf: seq<Row<Request>>) returns (out: seq<Row<Request>>)
    ensures out == Minus(orig, Minus(Expanded(orig), Expanded(pf)))
    ensures Disjoint(orig) && Rising(Expanded(pf)) ==> out == Covered(orig, pf)
  {
    var norm := Rep(orig);
    var pref := Rep(pf);
    var temp := MakeTemp(norm, pref);
    out := Diff(orig, temp);
    if Disjoint(orig) && Rising(Expanded(pf)) {
      DiffFindsCovered(orig, pf);
    }
  }
}
