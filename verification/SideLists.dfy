/** The two sorted lists of the analyzer: the inodes of a group, and the triggers. Both insert
    by walking to a node and copying. */
module SideLists {
  import opened Sequences
  import opened Chains

  // ----- inodes -----

  /** An inode with the path of the read that it came from. */
  datatype Meta = Meta(ino: int, path: string)

  function InsertMeta(s: seq<Meta>, m: Meta): seq<Meta> {
    if s == [] then [m]
    else if s[0].ino < m.ino then [s[0]] + InsertMeta(s[1..], m)
    else if s[0].ino == m.ino then s
    else [m] + s
  }

  function InsertMetas(s: seq<Meta>, ms: seq<Meta>): seq<Meta>
    decreases |ms|
  {
    if ms == [] then s else InsertMetas(InsertMeta(s, ms[0]), ms[1..])
  }

  ghost predicate IncreasingInodes(s: seq<Meta>) {
    forall i, j :: 0 <= i < j < |s| ==> s[i].ino < s[j].ino
  }

  /** The first of the metas with this inode. */
  function FirstWith(ms: seq<Meta>, ino: int): (r: seq<Meta>) {
    if ms == [] then [] else if ms[0].ino == ino then [ms[0]] else FirstWith(ms[1..], ino)
  }

  lemma {:induction false} InsertMetaKeeps(s: seq<Meta>, m: Meta)
    requires IncreasingInodes(s)
    ensures IncreasingInodes(InsertMeta(s, m))
    ensures forall x :: x in InsertMeta(s, m) ==> x in s || x == m
  {
    if s != [] && s[0].ino < m.ino {
      InsertMetaKeeps(s[1..], m);
      assert forall x :: x in s[1..] ==> s[0].ino < x.ino;
    }
  }

  lemma {:induction false} InsertMetaFirst(s: seq<Meta>, m: Meta, ino: int)
    requires IncreasingInodes(s)
    ensures FirstWith(InsertMeta(s, m), ino) == FirstWith(s + [m], ino)
  {
    if s == [] {
    } else {
      assert (s + [m])[1..] == s[1..] + [m];
      InsertMetaFirst(s[1..], m, ino);
      if s[0].ino > m.ino {
        AbsentBelow(s, m.ino);
        FirstWithConcat(s, [m], ino);
      } else if s[0].ino == m.ino {
        FirstWithConcat(s, [m], ino);
      }
    }
  }

  lemma {:induction false} AbsentBelow(s: seq<Meta>, ino: int)
    requires forall x :: x in s ==> x.ino != ino
    ensures FirstWith(s, ino) == []
  {
    if s != [] { AbsentBelow(s[1..], ino); }
  }

  lemma {:induction false} FirstWithConcat(s: seq<Meta>, t: seq<Meta>, ino: int)
    ensures FirstWith(s + t, ino) == if FirstWith(s, ino) == [] then FirstWith(t, ino) else FirstWith(s, ino)
  {
    if s == [] {
      assert s + t == t;
    } else {
      assert (s + t)[1..] == s[1..] + t;
      FirstWithConcat(s[1..], t, ino);
    }
  }

  /** After any reads, the list is strictly increasing and has, for each inode, exactly the
      first read of it. */
  lemma {:induction false} MetasAreFirsts(s: seq<Meta>, ms: seq<Meta>, ino: int)
    requires IncreasingInodes(s)
    ensures IncreasingInodes(InsertMetas(s, ms))
    ensures FirstWith(InsertMetas(s, ms), ino) == FirstWith(s + ms, ino)
    decreases |ms|
  {
    if ms == [] {
      assert s + ms == s;
    } else {
      hide FirstWith, InsertMeta, IncreasingInodes;
      InsertMetaKeeps(s, ms[0]);
      InsertMetaFirst(s, ms[0], ino);
      MetasAreFirsts(InsertMeta(s, ms[0]), ms[1..], ino);
      FirstWithConcat(InsertMeta(s, ms[0]), ms[1..], ino);
      FirstWithConcat(s + [ms[0]], ms[1..], ino);
      ShiftOne(s, ms);
    }
  }

  lemma {:induction false} FirstWithIs(ms: seq<Meta>, ino: int)
    ensures var r := FirstWith(ms, ino);
            if r == [] then forall l :: 0 <= l < |ms| ==> ms[l].ino != ino
            else exists j :: 0 <= j < |ms| && r == [ms[j]] && ms[j].ino == ino
                             && forall l :: 0 <= l < j ==> ms[l].ino != ino
  {
    if ms != [] && ms[0].ino != ino {
      var rest := ms[1..];
      FirstWithIs(rest, ino);
      assert forall l :: 1 <= l < |ms| ==> ms[l] == rest[l - 1];
      if FirstWith(rest, ino) != [] {
        var j :| 0 <= j < |rest| && FirstWith(rest, ino) == [rest[j]] && rest[j].ino == ino
                 && forall l :: 0 <= l < j ==> rest[l].ino != ino;
        assert ms[j + 1] == rest[j];
      }
    }
  }

  /** Every meta in the list is the first one that was entered with its inode. */
  lemma MetaIsFirst(ms: seq<Meta>, k: nat) returns (j: nat)
    requires k < |InsertMetas([], ms)|
    ensures j < |ms| && ms[j] == InsertMetas([], ms)[k] && forall l :: 0 <= l < j ==> ms[l].ino != ms[j].ino
  {
    hide FirstWith, InsertMetas;
    var r := InsertMetas([], ms);
    var ino := r[k].ino;
    NoInodes();
    MetasAreFirsts([], ms, ino);
    assert [] + ms == ms;
    FirstWithIs(r, ino);
    FirstWithIs(ms, ino);
    j :| 0 <= j < |ms| && FirstWith(ms, ino) == [ms[j]] && ms[j].ino == ino
         && forall l :: 0 <= l < j ==> ms[l].ino != ino;
  }

  /** No inode is missing. */
  lemma MetaIsThere(ms: seq<Meta>, j: nat) returns (k: nat)
    requires j < |ms|
    ensures k < |InsertMetas([], ms)| && InsertMetas([], ms)[k].ino == ms[j].ino
  {
    hide FirstWith, InsertMetas;
    var r, ino := InsertMetas([], ms), ms[j].ino;
    NoInodes();
    MetasAreFirsts([], ms, ino);
    assert [] + ms == ms;
    FirstWithIs(r, ino);
    FirstWithIs(ms, ino);
    k :| 0 <= k < |r| && r[k].ino == ino;
  }

  lemma MetaAlone(m: Meta)
    ensures InsertMeta([], m) == [m]
  {
  }

  lemma WalkPastMeta(s: seq<Meta>, m: Meta, k: nat)
    requires k + 1 < |s|
    ensures s[k].ino < m.ino ==> s[..k] + InsertMeta(s[k..], m) == s[..k + 1] + InsertMeta(s[k + 1..], m)
    ensures s[k].ino == m.ino ==> s[..k] + InsertMeta(s[k..], m) == s
  {
    assert s[k..][1..] == s[k + 1..] && s[..k] + s[k..] == s;
    assert s[..k] + ([s[k]] + InsertMeta(s[k + 1..], m)) == s[..k + 1] + InsertMeta(s[k + 1..], m);
  }

  /** The insertion in place. */
  method InsertMetaNode(l: List<Meta>, i: Node<Meta>)
    requires l.Valid() && i !in l.repr && i.next == null
    modifies l, l.repr, i
    ensures l.Valid() && l.contents == InsertMeta(old(l.contents), old(i.item))
    ensures fresh(l.repr - old(l.repr) - {i})
  {
    hide InsertMeta, Chains.Linked;
    l.At(0);
    var n := l.head;
    if n == null {
      MetaAlone(i.item);
      l.Append(i);
      return;
    }
    ghost var s, m := l.contents, i.item;
    ghost var k := 0;
    assert s[..0] + InsertMeta(s[0..], m) == InsertMeta(s, m);
    while n.next != null
      invariant unchanged(l) && unchanged(l.repr) && unchanged(i)
      invariant 0 <= k < |s| && n == l.spine[k] && n.item == s[k]
      invariant InsertMeta(s, m) == s[..k] + InsertMeta(s[k..], m)
      decreases |s| - k
    {
      l.At(k);
      l.At(k + 1);
      WalkPastMeta(s, m, k);
      if n.item.ino < i.item.ino {
        n, k := n.next, k + 1;
        continue;
      }
      if n.item.ino == i.item.ino {
        return;
      }
      if n.item.ino > i.item.ino {
        break;
      }
    }
    l.At(k);
    PlaceMeta(l, i, n, k);
  }

  /** What happens at the node where the walk stopped. */
  method PlaceMeta(l: List<Meta>, i: Node<Meta>, n: Node<Meta>, ghost k: nat)
    requires l.Valid() && i !in l.repr && i.next == null
    requires k < |l.spine| && n == l.spine[k] && n.item == l.contents[k]
    requires n.next == null || n.item.ino > i.item.ino
    modifies l, l.repr, i
    ensures l.Valid() && fresh(l.repr - old(l.repr) - {i})
    ensures l.contents == old(l.contents)[..k] + InsertMeta(old(l.contents)[k..], old(i.item))
  {
    ghost var s, m := l.contents, i.item;
    assert s[k..][1..] == s[k + 1..] && s[..k] + s[k..] == s;
    if n.item.ino < i.item.ino {
      assert k == |s| - 1;
      l.Append(i);
      assert s[..k] + ([s[k]] + [m]) == s + [m];
    } else if n.item.ino > i.item.ino {
      l.InsertBefore(n, i.item, k);
      SplicedIs(s, k, m, l.contents);
    }
  }

  /** Enter the inode of every read of a group, in order. */
  method GenerateMetaList(l: List<Meta>, rs: seq<Meta>)
    requires l.Valid() && l.contents == []
    modifies l, l.repr
    ensures l.Valid() && l.contents == InsertMetas([], rs) && fresh(l.repr - old(l.repr))
    ensures IncreasingInodes(l.contents)
  {
    hide FirstWith, InsertMeta, IncreasingInodes, Chains.Linked;
    var k := 0;
    assert rs[0..] == rs;
    while k < |rs|
      invariant k <= |rs| && l.Valid() && fresh(l.repr - old(l.repr))
      invariant InsertMetas(l.contents, rs[k..]) == InsertMetas([], rs)
    {
      assert rs[k..][1..] == rs[k + 1..];
      var m := new Node(rs[k]);
      InsertMetaNode(l, m);
      k := k + 1;
    }
    NoInodes();
    MetasAreFirsts([], rs, 0);
  }

  lemma NoInodes()
    ensures IncreasingInodes([])
  {
  }

  // ----- triggers -----

  datatype Trigger = Trigger(retAddr: int, ts: int)

  /** A trigger goes behind those of its own time, unless that is where the list ends: then it
      is dropped. */
  function InsertTrigger(s: seq<Trigger>, t: Trigger): seq<Trigger> {
    if s == [] then [t]
    else if s[0].ts > t.ts then [t] + s
    else if |s| > 1 then [s[0]] + InsertTrigger(s[1..], t)
    else if s[0].ts < t.ts then [s[0]] + [t]
    else s
  }

  function InsertTriggers(s: seq<Trigger>, ts: seq<Trigger>): seq<Trigger>
    decreases |ts|
  {
    if ts == [] then s else InsertTriggers(InsertTrigger(s, ts[0]), ts[1..])
  }

  ghost predicate InTimeOrder(s: seq<Trigger>) {
    forall i, j :: 0 <= i <= j < |s| ==> s[i].ts <= s[j].ts
  }

  ghost predicate StrictlyInOrder(s: seq<Trigger>) {
    forall i, j :: 0 <= i < j < |s| ==> s[i].ts < s[j].ts
  }

  lemma {:induction false} InsertTriggerMembers(s: seq<Trigger>, t: Trigger)
    ensures forall x :: x in InsertTrigger(s, t) ==> x in s || x == t
  {
    if |s| > 1 {
      assert s == [s[0]] + s[1..];
      InsertTriggerMembers(s[1..], t);
    }
  }

  lemma OrderCons(a: Trigger, s: seq<Trigger>)
    ensures InTimeOrder(s) && (forall x :: x in s ==> a.ts <= x.ts) ==> InTimeOrder([a] + s)
    ensures StrictlyInOrder(s) && (forall x :: x in s ==> a.ts < x.ts) ==> StrictlyInOrder([a] + s)
  {
  }

  lemma OrderSplit(s: seq<Trigger>)
    requires s != []
    ensures InTimeOrder(s) ==> InTimeOrder(s[1..]) && forall x :: x in s[1..] ==> s[0].ts <= x.ts
    ensures StrictlyInOrder(s) ==> StrictlyInOrder(s[1..]) && forall x :: x in s[1..] ==> s[0].ts < x.ts
    ensures forall x :: x in s <==> x == s[0] || x in s[1..]
  {
    assert s == [s[0]] + s[1..];
  }

  lemma {:induction false} InsertTriggerInOrder(s: seq<Trigger>, t: Trigger)
    requires InTimeOrder(s)
    ensures InTimeOrder(InsertTrigger(s, t))
  {
    if s != [] {
      OrderSplit(s);
      hide InTimeOrder;
      if s[0].ts > t.ts {
        OrderCons(t, s);
      } else if |s| > 1 {
        InsertTriggerInOrder(s[1..], t);
        InsertTriggerMembers(s[1..], t);
        OrderCons(s[0], InsertTrigger(s[1..], t));
      } else if s[0].ts < t.ts {
        assert InTimeOrder([t]) by { OrderCons(t, []); NothingInOrder(); }
        OrderCons(s[0], [t]);
      }
    }
  }

  lemma NothingInOrder()
    ensures InTimeOrder([]) && StrictlyInOrder([]) && forall t: Trigger :: [t] + [] == [t]
  {
  }

  lemma EndsInOrder(s: seq<Trigger>)
    requires s != [] && InTimeOrder(s)
    ensures s[0].ts <= s[|s| - 1].ts
  {
  }

  lemma KeptBehind(x: Trigger, s: seq<Trigger>, r: seq<Trigger>, more: multiset<Trigger>)
    requires multiset(r) == multiset(s) + more
    ensures multiset([x] + r) == multiset([x] + s) + more
  {
    MultisetCons(x, r);
    MultisetCons(x, s);
  }

  lemma EndsKept(s: seq<Trigger>, t: Trigger)
    ensures s == [] ==> multiset(InsertTrigger(s, t)) == multiset{t}
    ensures s != [] && s[0].ts > t.ts ==> multiset(InsertTrigger(s, t)) == multiset(s) + multiset{t}
    ensures |s| == 1 && s[0].ts < t.ts ==> multiset(InsertTrigger(s, t)) == multiset(s) + multiset{t}
    ensures |s| == 1 && s[0].ts == t.ts ==> InsertTrigger(s, t) == s
    ensures |s| > 1 && s[0].ts <= t.ts ==> InsertTrigger(s, t) == [s[0]] + InsertTrigger(s[1..], t)
  {
    MultisetCons(t, s);
    if |s| == 1 {
      assert s == [s[0]];
      MultisetCons(s[0], [t]);
    }
  }

  /** The insertion loses the trigger exactly when it ties with the latest one. */
  lemma {:induction false} InsertTriggerKeeps(s: seq<Trigger>, t: Trigger)
    requires InTimeOrder(s)
    ensures multiset(InsertTrigger(s, t)) ==
              multiset(s) + if s != [] && s[|s| - 1].ts == t.ts then multiset{} else multiset{t}
  {
    hide InTimeOrder, InsertTrigger;
    EndsKept(s, t);
    if s != [] {
      EndsInOrder(s);
      if |s| > 1 && s[0].ts <= t.ts {
        OrderSplit(s);
        InsertTriggerKeeps(s[1..], t);
        assert s == [s[0]] + s[1..] && s[1..][|s| - 2] == s[|s| - 1];
        KeptBehind(s[0], s[1..], InsertTrigger(s[1..], t), if s[|s| - 1].ts == t.ts then multiset{} else multiset{t});
      }
    }
  }

  lemma {:induction false} InsertOneMore(s: seq<Trigger>, ts: seq<Trigger>, t: Trigger)
    ensures InsertTriggers(s, ts + [t]) == InsertTrigger(InsertTriggers(s, ts), t)
    decreases |ts|
  {
    hide InsertTrigger;
    if ts == [] {
      assert InsertTriggers(s, [t]) == InsertTriggers(InsertTrigger(s, t), []);
    } else {
      assert (ts + [t])[1..] == ts[1..] + [t];
      InsertOneMore(InsertTrigger(s, ts[0]), ts[1..], t);
    }
  }

  // ----- the reference: which triggers are kept -----

  /** The newest time. */
  function Newest(ts: seq<Trigger>): (n: int)
    requires ts != []
    ensures (exists i :: 0 <= i < |ts| && ts[i].ts == n) && forall i :: 0 <= i < |ts| ==> ts[i].ts <= n
  {
    var last := ts[|ts| - 1];
    if |ts| == 1 || Newest(ts[..|ts| - 1]) <= last.ts then last.ts else Newest(ts[..|ts| - 1])
  }

  /** The triggers without those that tie with the newest one before them. */
  function NotTied(ts: seq<Trigger>): seq<Trigger> {
    if ts == [] then []
    else
      var before, t := ts[..|ts| - 1], ts[|ts| - 1];
      if before != [] && Newest(before) == t.ts then NotTied(before) else NotTied(before) + [t]
  }

  lemma {:induction false} NotTiedKeepsNewest(ts: seq<Trigger>)
    ensures ts != [] ==> NotTied(ts) != [] && Newest(NotTied(ts)) == Newest(ts)
    ensures forall x :: x in NotTied(ts) ==> x in ts
  {
    if ts != [] {
      var before, t := ts[..|ts| - 1], ts[|ts| - 1];
      NotTiedKeepsNewest(before);
      assert ts == before + [t];
      if before != [] && Newest(before) != t.ts {
        assert (NotTied(before) + [t])[..|NotTied(before)|] == NotTied(before);
      }
    }
  }

  lemma LastIsNewest(s: seq<Trigger>, ts: seq<Trigger>)
    requires s != [] && InTimeOrder(s) && multiset(s) == multiset(ts)
    ensures ts != [] && s[|s| - 1].ts == Newest(ts)
  {
    MultisetLength(s, ts);
    var i :| 0 <= i < |ts| && ts[i].ts == Newest(ts);
    assert ts[i] in multiset(s) && s[|s| - 1] in multiset(ts);
  }

  /** Whatever the triggers, the list is in time order and has exactly those that did not tie with
      the newest one before them. */
  lemma {:induction false} TriggersAreKept(ts: seq<Trigger>)
    ensures InTimeOrder(InsertTriggers([], ts)) && multiset(InsertTriggers([], ts)) == multiset(NotTied(ts))
  {
    hide InsertTrigger, Newest;
    if ts == [] {
      NothingInOrder();
    } else {
      var before, t := ts[..|ts| - 1], ts[|ts| - 1];
      var s := InsertTriggers([], before);
      assert ts == before + [t];
      TriggersAreKept(before);
      InsertOneMore([], before, t);
      InsertTriggerInOrder(s, t);
      InsertTriggerKeeps(s, t);
      NotTiedKeepsNewest(before);
      MultisetLength(s, NotTied(before));
      if s != [] {
        LastIsNewest(s, NotTied(before));
      }
    }
  }

  /** The triggers of one time, in order. */
  ghost function AtTime(s: seq<Trigger>, time: int): seq<Trigger> {
    if s == [] then [] else (if s[0].ts == time then [s[0]] else []) + AtTime(s[1..], time)
  }

  lemma {:induction false} AtTimeConcat(s: seq<Trigger>, t: Trigger, time: int)
    ensures AtTime(s + [t], time) == AtTime(s, time) + if t.ts == time then [t] else []
  {
    if s == [] {
      assert s + [t] == [t] && [t][1..] == [] && AtTime([], time) == [];
    } else {
      var first, last := if s[0].ts == time then [s[0]] else [], if t.ts == time then [t] else [];
      AtTimeConcat(s[1..], t, time);
      assert (s + [t])[1..] == s[1..] + [t] && (s + [t])[0] == s[0];
      assert first + (AtTime(s[1..], time) + last) == (first + AtTime(s[1..], time)) + last;
    }
  }

  lemma {:induction false} NoneAtTime(s: seq<Trigger>, time: int)
    requires forall x :: x in s ==> x.ts != time
    ensures AtTime(s, time) == []
  {
    if s != [] {
      assert s[0] in s && forall x :: x in s[1..] ==> x in s;
      NoneAtTime(s[1..], time);
    }
  }

  lemma AtTimeCons(x: Trigger, s: seq<Trigger>, time: int)
    ensures AtTime([x] + s, time) == (if x.ts == time then [x] else []) + AtTime(s, time)
  {
    assert ([x] + s)[1..] == s;
  }

  lemma InsertTriggerCases(s: seq<Trigger>, t: Trigger)
    ensures s == [] ==> InsertTrigger(s, t) == s + [t]
    ensures s != [] && s[0].ts > t.ts ==> InsertTrigger(s, t) == [t] + s
    ensures |s| > 1 && s[0].ts <= t.ts ==> InsertTrigger(s, t) == [s[0]] + InsertTrigger(s[1..], t)
    ensures |s| == 1 && s[0].ts < t.ts ==> InsertTrigger(s, t) == s + [t]
    ensures |s| == 1 && s[0].ts == t.ts ==> InsertTrigger(s, t) == s
  {
    assert |s| == 1 ==> s == [s[0]];
  }

  /** An insertion puts the trigger behind those of its time, unless it is dropped. */
  lemma {:induction false} InsertTriggerStable(s: seq<Trigger>, t: Trigger, time: int)
    requires InTimeOrder(s)
    ensures AtTime(InsertTrigger(s, t), time) ==
              AtTime(s, time) + if t.ts != time || (s != [] && s[|s| - 1].ts == t.ts) then [] else [t]
  {
    hide InTimeOrder, InsertTrigger, AtTime;
    InsertTriggerCases(s, t);
    AtTimeConcat(s, t, time);
    if s != [] {
      EndsInOrder(s);
      OrderSplit(s);
      if s[0].ts > t.ts {
        AtTimeCons(t, s, time);
        if t.ts == time { NoneAtTime(s, time); }
      } else if |s| > 1 {
        var rest := s[1..];
        InsertTriggerStable(rest, t, time);
        AtTimeCons(s[0], InsertTrigger(rest, t), time);
        AtTimeCons(s[0], rest, time);
        assert s == [s[0]] + rest && rest[|rest| - 1] == s[|s| - 1];
      }
    }
  }

  /** The list is stable: the triggers of one time are in the order in which they came. With their
      order in time and TriggersAreKept this fixes the whole list. */
  lemma {:induction false} TriggersAreStable(ts: seq<Trigger>, time: int)
    ensures AtTime(InsertTriggers([], ts), time) == AtTime(NotTied(ts), time)
  {
    hide InsertTrigger, Newest, AtTime;
    if ts != [] {
      var before, t := ts[..|ts| - 1], ts[|ts| - 1];
      var s := InsertTriggers([], before);
      assert ts == before + [t];
      TriggersAreStable(before, time);
      TriggersAreKept(before);
      InsertOneMore([], before, t);
      InsertTriggerStable(s, t, time);
      NotTiedKeepsNewest(before);
      MultisetLength(s, NotTied(before));
      AtTimeConcat(NotTied(before), t, time);
      if s != [] {
        LastIsNewest(s, NotTied(before));
      }
    }
  }

  ghost predicate DistinctTimes(ts: seq<Trigger>) {
    forall i, j :: 0 <= i < j < |ts| ==> ts[i].ts != ts[j].ts
  }

  lemma {:induction false} StrictOrderIsUnique(s: seq<Trigger>, s': seq<Trigger>)
    requires StrictlyInOrder(s) && StrictlyInOrder(s') && multiset(s) == multiset(s')
    ensures s == s'
  {
    MultisetLength(s, s');
    if s != [] {
      HeadsInOrder(s, s');
      HeadsInOrder(s', s);
      SameTimeSameTrigger(s, s'[0]);
      OrderSplit(s);
      OrderSplit(s');
      MultisetTails(s, s');
      hide StrictlyInOrder;
      StrictOrderIsUnique(s[1..], s'[1..]);
      assert s == [s[0]] + s[1..] && s' == [s'[0]] + s'[1..];
    }
  }

  lemma HeadsInOrder(s: seq<Trigger>, s': seq<Trigger>)
    requires StrictlyInOrder(s) && s != [] && s' != [] && multiset(s) == multiset(s')
    ensures s[0].ts <= s'[0].ts && s'[0] in s
  {
    assert s'[0] in multiset(s') && s'[0] in s;
  }

  lemma SameTimeSameTrigger(s: seq<Trigger>, t: Trigger)
    requires StrictlyInOrder(s) && s != [] && t in s && t.ts == s[0].ts
    ensures t == s[0]
  {
  }

  // ----- the order of insertion -----

  /** Triggers with the same time are equal, and there is more than one only of the newest time. */
  ghost predicate OrderFree(ts: seq<Trigger>) {
    && (forall x, y :: x in ts && y in ts && x.ts == y.ts ==> x == y)
    && (forall x :: x in ts && multiset(ts)[x] > 1 ==> x.ts == Newest(ts))
  }

  lemma SplitLast(ts: seq<Trigger>)
    requires ts != []
    ensures var before, t := ts[..|ts| - 1], ts[|ts| - 1];
            && (forall x :: x in ts <==> x in before || x == t)
            && multiset(ts) == multiset(before) + multiset{t}
            && (before != [] ==> Newest(before) <= Newest(ts) && t.ts <= Newest(ts))
            && forall x :: x in before ==> x.ts <= Newest(before) && multiset(before)[x] > 0
  {
    var before, t := ts[..|ts| - 1], ts[|ts| - 1];
    assert ts == before + [t];
    assert forall x :: x in before ==> x in multiset(before);
  }

  lemma OrderFreeBefore(ts: seq<Trigger>)
    requires ts != [] && OrderFree(ts)
    ensures var before, t := ts[..|ts| - 1], ts[|ts| - 1];
            && OrderFree(before) && (forall x :: x in ts <==> x in before || x == t)
            && (before != [] && Newest(before) == t.ts ==> t in before)
            && (before != [] && Newest(before) != t.ts ==> forall x :: x in before ==> x.ts != t.ts)
  {
    hide Newest;
    var before, t := ts[..|ts| - 1], ts[|ts| - 1];
    SplitLast(ts);
    if before != [] {
      var m := NewestOf(before);
      assert m in ts && t in ts;
      forall x | x in before && multiset(before)[x] > 1
        ensures x.ts == Newest(before)
      {
        assert x in ts && multiset(ts)[x] > 1;
      }
      forall x | x in before && x.ts == t.ts
        ensures Newest(before) == t.ts
      {
        assert x in ts && x == t && multiset(ts)[x] > 1;
      }
    }
  }

  /** Then every trigger is kept, once. */
  lemma {:induction false} OrderFreeKeepsAll(ts: seq<Trigger>)
    requires OrderFree(ts)
    ensures DistinctTimes(NotTied(ts)) && forall x :: x in NotTied(ts) <==> x in ts
  {
    hide OrderFree, Newest;
    if ts != [] {
      OrderFreeBefore(ts);
      OrderFreeKeepsAll(ts[..|ts| - 1]);
    }
  }

  lemma TimesInOrder(s: seq<Trigger>, ts: seq<Trigger>)
    requires InTimeOrder(s) && multiset(s) == multiset(ts) && DistinctTimes(ts)
    ensures StrictlyInOrder(s) && forall x :: x in s <==> x in ts
  {
    assert forall x :: x in s <==> x in multiset(s);
    assert forall x :: x in ts <==> x in multiset(ts);
    forall i, j | 0 <= i < j < |s|
      ensures s[i].ts != s[j].ts
    {
      OnceEach(ts, s[i]);
      assert s[i] in ts && s[j] in ts;
      if s[i] == s[j] { TwiceThere(s, i, j); }
    }
  }

  lemma TwiceThere<T>(s: seq<T>, i: nat, j: nat)
    requires i < j < |s| && s[i] == s[j]
    ensures multiset(s)[s[i]] >= 2
  {
    assert s == s[..i] + [s[i]] + s[i + 1..j] + [s[j]] + s[j + 1..];
  }

  lemma OnceEach(s: seq<Trigger>, x: Trigger)
    requires DistinctTimes(s)
    ensures multiset(s)[x] == if x in s then 1 else 0
  {
    if x in s {
      var i :| 0 <= i < |s| && s[i] == x;
      assert s == s[..i] + [x] + s[i + 1..];
      assert x !in s[..i] && x !in s[i + 1..];
    }
  }

  lemma SameElements(ts: seq<Trigger>, ts': seq<Trigger>)
    requires multiset(ts) == multiset(ts')
    ensures (forall x :: x in ts <==> x in ts') && (ts == [] <==> ts' == [])
    ensures ts != [] ==> Newest(ts) == Newest(ts')
  {
    MultisetLength(ts, ts');
    assert forall x :: x in ts <==> x in multiset(ts);
    assert forall x :: x in ts' <==> x in multiset(ts');
    if ts != [] {
      var i :| 0 <= i < |ts| && ts[i].ts == Newest(ts);
      var j :| 0 <= j < |ts'| && ts'[j].ts == Newest(ts');
      assert ts[i] in ts' && ts'[j] in ts;
    }
  }

  /** The condition itself does not depend on the order. */
  lemma OrderFreeAnyway(ts: seq<Trigger>, ts': seq<Trigger>)
    requires OrderFree(ts) && multiset(ts) == multiset(ts')
    ensures OrderFree(ts')
  {
    hide Newest;
    SameElements(ts, ts');
  }

  /** Then the list does not depend on the order of insertion. */
  lemma {:induction false} TriggersAreOrderIndependent(ts: seq<Trigger>, ts': seq<Trigger>)
    requires OrderFree(ts) && multiset(ts) == multiset(ts')
    ensures InsertTriggers([], ts) == InsertTriggers([], ts')
  {
    hide InsertTriggers, NotTied, OrderFree, InTimeOrder, DistinctTimes, Newest;
    var s, s' := InsertTriggers([], ts), InsertTriggers([], ts');
    OrderFreeAnyway(ts, ts');
    SameElements(ts, ts');
    TriggersAreKept(ts);
    TriggersAreKept(ts');
    OrderFreeKeepsAll(ts);
    OrderFreeKeepsAll(ts');
    TimesInOrder(s, NotTied(ts));
    TimesInOrder(s', NotTied(ts'));
    forall x
      ensures multiset(s)[x] == multiset(s')[x]
    {
      OnceEach(NotTied(ts), x);
      OnceEach(NotTied(ts'), x);
    }
    StrictOrderIsUnique(s, s');
  }

  /** With a trigger of the newest time in front, exactly the others of that time are dropped. */
  lemma {:induction false} NewestFirst(m: Trigger, ts: seq<Trigger>, x: Trigger)
    requires forall t :: t in ts ==> t.ts <= m.ts
    ensures Newest([m] + ts) == m.ts
    ensures multiset(NotTied([m] + ts))[x] == if x.ts == m.ts then (if x == m then 1 else 0) else multiset(ts)[x]
  {
    var all := [m] + ts;
    if ts == [] {
      assert all == [m] && all[..0] == [] && NotTied([m]) == [m];
    } else {
      var before, t := ts[..|ts| - 1], ts[|ts| - 1];
      assert all[..|all| - 1] == [m] + before && all[|all| - 1] == t && ts == before + [t];
      NewestFirst(m, before, x);
      assert t in ts;
    }
  }

  /** With two triggers of one time in front, the second is dropped. */
  lemma TwoTied(x: Trigger, y: Trigger)
    requires x.ts == y.ts
    ensures NotTied([x, y]) == [x]
  {
    assert [x, y][..1] == [x] && [x][..0] == [];
    assert NotTied([]) == [];
    assert NotTied([x]) == [x];
    assert Newest([x]) == x.ts;
  }

  lemma NotTiedStep(ts: seq<Trigger>, t: Trigger)
    ensures multiset(NotTied(ts + [t])) <= multiset(NotTied(ts)) + multiset{t}
  {
    assert (ts + [t])[..|ts|] == ts;
  }

  lemma {:induction false} TieFirst(x: Trigger, y: Trigger, ts: seq<Trigger>)
    requires x.ts == y.ts
    ensures multiset(NotTied([x, y] + ts)) <= multiset([x] + ts)
  {
    hide NotTied;
    if ts == [] {
      TwoTied(x, y);
      assert [x, y] + ts == [x, y] && [x] + ts == [x];
    } else {
      var before, t := ts[..|ts| - 1], ts[|ts| - 1];
      assert ([x, y] + before) + [t] == [x, y] + ts && ([x] + before) + [t] == [x] + ts;
      NotTiedStep([x, y] + before, t);
      TieFirst(x, y, before);
    }
  }

  /** Take a trigger to the front. */
  lemma OneToFront(ts: seq<Trigger>, x: Trigger) returns (rest: seq<Trigger>)
    requires x in ts
    ensures multiset(ts) == multiset([x] + rest) == multiset{x} + multiset(rest)
    ensures forall t :: t in rest ==> t in ts
  {
    var i :| 0 <= i < |ts| && ts[i] == x;
    rest := ts[..i] + ts[i + 1..];
    assert ts == ts[..i] + [ts[i]] + ts[i + 1..];
  }

  /** Take two triggers to the front. */
  lemma TwoToFront(ts: seq<Trigger>, x: Trigger, y: Trigger) returns (rest: seq<Trigger>)
    requires x in ts && y in ts && if x == y then multiset(ts)[x] > 1 else true
    ensures multiset(ts) == multiset([x, y] + rest) == multiset([y, x] + rest)
    ensures multiset(ts) == multiset{x, y} + multiset(rest) && forall t :: t in rest ==> t in ts
  {
    var other := OneToFront(ts, x);
    assert multiset(ts)[y] > 0 && multiset(other)[y] > 0;
    rest := OneToFront(other, y);
    assert [x, y] + rest == [x] + ([y] + rest) && [y, x] + rest == [y] + ([x] + rest);
  }

  ghost predicate AllOrdersAgree(ts: seq<Trigger>) {
    forall ts' :: multiset(ts') == multiset(ts) ==> InsertTriggers([], ts') == InsertTriggers([], ts)
  }

  /** Two orders that keep different numbers of a trigger leave different lists. */
  lemma CountsDiffer(ts: seq<Trigger>, s: seq<Trigger>, s': seq<Trigger>, x: Trigger)
    requires multiset(s) == multiset(ts) == multiset(s') && multiset(NotTied(s))[x] != multiset(NotTied(s'))[x]
    ensures !AllOrdersAgree(ts)
  {
    hide InsertTriggers, NotTied, InTimeOrder;
    TriggersAreKept(s);
    TriggersAreKept(s');
  }

  /** Different triggers of the newest time: the first one inserted stays. */
  lemma NewestDiffer(ts: seq<Trigger>, x: Trigger, y: Trigger)
    requires x in ts && y in ts && x != y && x.ts == y.ts == Newest(ts)
    ensures !AllOrdersAgree(ts)
  {
    hide NotTied, Newest, AllOrdersAgree;
    var rest := TwoToFront(ts, x, y);
    AllBelow(ts);
    NewestFirst(x, [y] + rest, y);
    NewestFirst(y, [x] + rest, y);
    assert [x, y] + rest == [x] + ([y] + rest) && [y, x] + rest == [y] + ([x] + rest);
    CountsDiffer(ts, [x, y] + rest, [y, x] + rest, y);
  }

  lemma AllBelow(ts: seq<Trigger>)
    ensures forall t :: t in ts ==> t.ts <= Newest(ts)
  {
  }

  /** Two older triggers of one time: one is dropped if they come first, none if a newer one does. */
  lemma OlderDiffer(ts: seq<Trigger>, x: Trigger, y: Trigger)
    requires x in ts && y in ts && x.ts == y.ts < Newest(ts) && if x == y then multiset(ts)[x] > 1 else true
    ensures !AllOrdersAgree(ts)
  {
    hide NotTied, Newest, AllOrdersAgree;
    var rest := TwoToFront(ts, x, y);
    TieFirst(x, y, rest);
    MultisetCons(x, rest);
    AllBelow(ts);
    var m := NewestOf(ts);
    var other := OneToFront(ts, m);
    NewestFirst(m, other, y);
    assert multiset(other)[y] == multiset(ts)[y];
    assert multiset([x] + rest)[y] == multiset(ts)[y] - 1;
    CountsDiffer(ts, [x, y] + rest, [m] + other, y);
  }

  lemma NewestOf(ts: seq<Trigger>) returns (m: Trigger)
    requires ts != []
    ensures m in ts && m.ts == Newest(ts)
  {
    var i :| 0 <= i < |ts| && ts[i].ts == Newest(ts);
    m := ts[i];
  }

  /** The list does not depend on the order of insertion, which is the order of the slots of a hash
      table, if and only if older triggers have times of their own and the newest ones are equal. */
  lemma OrderMattersExactly(ts: seq<Trigger>)
    ensures AllOrdersAgree(ts) <==> OrderFree(ts)
  {
    hide InsertTriggers, Newest;
    if OrderFree(ts) {
      forall ts' | multiset(ts') == multiset(ts)
        ensures InsertTriggers([], ts') == InsertTriggers([], ts)
      {
        TriggersAreOrderIndependent(ts, ts');
      }
    } else {
      AllBelow(ts);
      if x, y :| x in ts && y in ts && x.ts == y.ts && x != y {
        if x.ts == Newest(ts) { NewestDiffer(ts, x, y); } else { OlderDiffer(ts, x, y); }
      } else {
        var x :| x in ts && multiset(ts)[x] > 1 && x.ts != Newest(ts);
        OlderDiffer(ts, x, x);
      }
    }
  }

  lemma TriggerAlone(x: Trigger)
    ensures InsertTrigger([], x) == [x]
  {
  }

  lemma WalkPastTrigger(s: seq<Trigger>, x: Trigger, k: nat)
    requires k + 1 < |s|
    ensures s[k].ts <= x.ts ==> s[..k] + InsertTrigger(s[k..], x) == s[..k + 1] + InsertTrigger(s[k + 1..], x)
  {
    assert s[k..][1..] == s[k + 1..];
    assert s[..k] + ([s[k]] + InsertTrigger(s[k + 1..], x)) == s[..k + 1] + InsertTrigger(s[k + 1..], x);
  }

  /** The insertion in place. */
  method InsertTriggerNode(l: List<Trigger>, tn: Node<Trigger>)
    requires l.Valid() && tn !in l.repr && tn.next == null
    modifies l, l.repr, tn
    ensures l.Valid() && l.contents == InsertTrigger(old(l.contents), old(tn.item))
    ensures fresh(l.repr - old(l.repr) - {tn})
  {
    hide InsertTrigger, Chains.Linked;
    l.At(0);
    var t := l.head;
    if t == null {
      TriggerAlone(tn.item);
      l.Append(tn);
      return;
    }
    ghost var s, x := l.contents, tn.item;
    ghost var k := 0;
    assert s[..0] + InsertTrigger(s[0..], x) == InsertTrigger(s, x);
    while t.next != null
      invariant unchanged(l) && unchanged(l.repr) && unchanged(tn)
      invariant 0 <= k < |s| && t == l.spine[k] && t.item == s[k]
      invariant InsertTrigger(s, x) == s[..k] + InsertTrigger(s[k..], x)
      decreases |s| - k
    {
      l.At(k);
      l.At(k + 1);
      WalkPastTrigger(s, x, k);
      if t.item.ts <= tn.item.ts {
        t, k := t.next, k + 1;
        continue;
      }
      if t.item.ts > tn.item.ts {
        break;
      }
    }
    l.At(k);
    PlaceTrigger(l, tn, t, k);
  }

  /** What happens at the node where the walk stopped. */
  method PlaceTrigger(l: List<Trigger>, tn: Node<Trigger>, t: Node<Trigger>, ghost k: nat)
    requires l.Valid() && tn !in l.repr && tn.next == null
    requires k < |l.spine| && t == l.spine[k] && t.item == l.contents[k]
    requires t.next == null || t.item.ts > tn.item.ts
    modifies l, l.repr, tn
    ensures l.Valid() && fresh(l.repr - old(l.repr) - {tn})
    ensures l.contents == old(l.contents)[..k] + InsertTrigger(old(l.contents)[k..], old(tn.item))
  {
    ghost var s, x := l.contents, tn.item;
    assert s[..k] + s[k..] == s;
    if t.item.ts < tn.item.ts {
      assert k == |s| - 1;
      l.Append(tn);
      assert s[..k] + [s[k], x] == s + [x];
    } else if t.item.ts > tn.item.ts {
      l.InsertBefore(t, tn.item, k);
      SplicedIs(s, k, x, l.contents);
    }
  }
}
