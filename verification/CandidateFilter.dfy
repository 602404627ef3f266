/** How trigger candidates are chosen: the return addresses of the candidate log are put into
    a hash map, and a second occurrence is meant to disqualify an address. A stored 0 reads as
    "absent", so a third occurrence brings it back. */
module CandidateFilter {
  import opened HashMaps
  import opened Chains
  import opened SideLists
  import opened Sequences

  datatype Candidate = Candidate(key: Key, ts: int)

  const MAP_INITIAL_SIZE: nat := 2

  /** What one line of the log does to the bindings. */
  ghost function Record(b: map<Key, int>, c: Candidate): map<Key, int> {
    b[c.key := if c.key in b && b[c.key] != 0 then 0 else c.ts]
  }

  ghost function Recorded(log: seq<Candidate>): map<Key, int> {
    if log == [] then map[] else Record(Recorded(log[..|log| - 1]), log[|log| - 1])
  }

  ghost function Survivors(log: seq<Candidate>): map<Key, int> {
    WithoutZeros(Recorded(log))
  }

  // ----- the reference: counting -----

  function Count(log: seq<Candidate>, key: Key): nat {
    if log == [] then 0
    else Count(log[..|log| - 1], key) + if log[|log| - 1].key == key then 1 else 0
  }

  /** The timestamp of the last line with this address. */
  function LastSeen(log: seq<Candidate>, key: Key): int
    requires 0 < Count(log, key)
  {
    var c := log[|log| - 1];
    if c.key == key then c.ts else LastSeen(log[..|log| - 1], key)
  }

  ghost predicate Stamped(log: seq<Candidate>) {
    forall i :: 0 <= i < |log| ==> log[i].ts != 0
  }

  lemma {:induction false} RecordedCounts(log: seq<Candidate>, key: Key)
    requires Stamped(log)
    ensures key in Recorded(log) <==> 0 < Count(log, key)
    ensures key in Recorded(log) ==>
              Recorded(log)[key] == if Count(log, key) % 2 == 1 then LastSeen(log, key) else 0
    ensures 0 < Count(log, key) ==> LastSeen(log, key) != 0
  {
    if log != [] {
      RecordedCounts(log[..|log| - 1], key);
    }
  }

  /** The filter keeps exactly the addresses that occur an odd number of times, each with its
      last timestamp. */
  lemma {:induction false} SurvivorsAreOdd(log: seq<Candidate>, key: Key)
    requires Stamped(log)
    ensures key in Survivors(log) <==> Count(log, key) % 2 == 1
    ensures key in Survivors(log) ==> Survivors(log)[key] == LastSeen(log, key)
  {
    RecordedCounts(log, key);
  }

  /** In particular an address seen once survives; but so does one seen three times. */
  lemma ThirdTimeReturns(key: Key)
    ensures key in Survivors([Candidate(key, 1), Candidate(key, 2), Candidate(key, 3)])
  {
    var one := [Candidate(key, 1)];
    var two := [Candidate(key, 1), Candidate(key, 2)];
    var three := [Candidate(key, 1), Candidate(key, 2), Candidate(key, 3)];
    assert one[..0] == [] && two[..1] == one && three[..2] == two;
    assert Count([], key) == 0;
    assert Count(one, key) == 1;
    assert Count(two, key) == 2;
    assert Count(three, key) == 3;
    SurvivorsAreOdd(three, key);
  }

  /** Every binding is to 0 or to a time at which its address is in the log. */
  ghost predicate FromLog(b: map<Key, int>, log: seq<Candidate>) {
    forall k :: k in b && b[k] != 0 ==> Candidate(k, b[k]) in log
  }

  /** The addresses in the log. */
  ghost function KeysOf(log: seq<Candidate>): set<Key> {
    set c | c in log :: c.key
  }

  lemma {:induction false} RecordedKeys(log: seq<Candidate>)
    ensures Recorded(log).Keys <= KeysOf(log)
  {
    if log != [] {
      var before, c := log[..|log| - 1], log[|log| - 1];
      RecordedKeys(before);
      assert log == before + [c] && c in log && forall d :: d in before ==> d in log;
    }
  }

  /** A put in the middle of the log fails for too many keys only if the log has too many. */
  lemma CrowdInLog(hash: Key -> nat, log: seq<Candidate>, i: nat)
    requires i < |log| && Crowded(hash, Recorded(log[..i]).Keys + {log[i].key})
    ensures Crowded(hash, KeysOf(log))
  {
    hide Crowded, Recorded;
    RecordedKeys(log[..i]);
    assert log[i] in log && forall c :: c in log[..i] ==> c in log;
    CrowdedMore(hash, Recorded(log[..i]).Keys + {log[i].key}, KeysOf(log));
  }

  /** The bindings are those of the log. */
  ghost predicate Holds(b: map<Key, int>, log: seq<Candidate>) {
    b == Recorded(log)
  }

  ghost predicate AllGranted(memory: nat -> nat -> bool) {
    forall i, size :: memory(i)(size)
  }

  lemma NothingRefused(memory: nat -> nat -> bool, i: nat, n: nat)
    requires AllGranted(memory)
    ensures !RefusedAbove(memory(i), n)
  {
  }

  /** One line of the log: look the address up, and put its time, or 0 if it has one already. */
  method PutLine(m: HashMap, log: seq<Candidate>, i: nat, grant: nat -> bool) returns (flag: int)
    requires m.Valid() && i < |log| && FromLog(m.Bindings(), log[..i])
    modifies m, m.data
    ensures m.Valid() && (m.data == old(m.data) || fresh(m.data)) && (flag == 0 || flag == 1)
    ensures FromLog(m.Bindings(), log[..i + 1])
    ensures flag == 0 && old(Holds(m.Bindings(), log[..i])) ==> Holds(m.Bindings(), log[..i + 1])
    ensures flag == 1 && old(Holds(m.Bindings(), log[..i])) ==>
              RefusedAbove(grant, old(m.tableSize)) || Crowded(m.hash, KeysOf(log))
  {
    hide Table.Consistent, PowerOfTwo, Recorded, FromLog, Crowded, HashMap.HasRoom, RefusedAbove, MayDouble,
         KeysOf;
    assert log[..i + 1] == log[..i] + [log[i]];
    var c := log[i];
    var element := m.Get(c.key);
    ghost var was, value := m.Bindings(), if element == 0 then c.ts else 0;
    RecordStep(log[..i], c, was, value);
    flag := m.Put(c.key, if element == 0 then c.ts else 0, grant);
    FewerFromLog(was, m.Bindings(), log[..i], c);
    if was == Recorded(log[..i]) && Crowded(m.hash, Recorded(log[..i]).Keys + {c.key}) {
      CrowdInLog(m.hash, log, i);
    }
  }

  /** The loop over the log and the removal pass. The result of a put is not looked at; `ok`
      says whether all of them succeeded. They all do unless memory is refused or the log has too many
      addresses for the largest table. Failed puts can lose addresses, but never bring in one that is
      not in the log, or a wrong time. `memory` says what is granted: at first, and at each line. */
  method FilterCandidates(hash: Key -> nat, log: seq<Candidate>, memory: nat -> nat -> bool)
    returns (m: HashMap?, ghost ok: bool)
    ensures m != null ==> fresh(m) && m.Valid() && FromLog(m.Bindings(), log)
    ensures m != null ==> forall k :: k in m.Bindings() ==> m.Bindings()[k] != 0
    ensures m != null && ok ==> m.Bindings() == Survivors(log)
    ensures m == null <==> !memory(0)(MAP_INITIAL_SIZE)
    ensures AllGranted(memory) ==> ok || Crowded(hash, KeysOf(log))
  {
    hide Table.Consistent, PowerOfTwo, Recorded, FromLog, Crowded, KeysOf, HashMap.HasRoom,
         AllGranted, RefusedAbove, MayDouble, WithoutZeros, Survivors, HashMap.Within, Holds;
    TwoIsPower();
    m := HashMap.Create(hash, MAP_INITIAL_SIZE, memory(0)(MAP_INITIAL_SIZE));
    ok := true;
    if m == null {
      return;
    }
    StartRecording();
    var i := 0;
    while i < |log|
      invariant 0 <= i <= |log| && m.Valid() && fresh(m) && fresh(m.data) && m.hash == hash
      invariant ok ==> Holds(m.Bindings(), log[..i])
      invariant FromLog(m.Bindings(), log[..i])
      invariant AllGranted(memory) && !ok ==> Crowded(hash, KeysOf(log))
    {
      if AllGranted(memory) { NothingRefused(memory, i + 1, m.tableSize); }
      var flag := PutLine(m, log, i, memory(i + 1));
      ok := ok && flag == 0;
      i := i + 1;
    }
    assert log[..i] == log;
    ghost var was := m.Bindings();
    m.RemoveZeros();
    ZerosFromLog(was, log);
  }

  lemma TwoIsPower()
    ensures PowerOfTwo(MAP_INITIAL_SIZE)
  {
    assert PowerOfTwo(1);
  }

  lemma StartRecording()
    ensures Holds(map[], []) && FromLog(map[], [])
  {
  }

  /** A put that succeeds records the line. */
  lemma RecordStep(log: seq<Candidate>, c: Candidate, b: map<Key, int>, value: int)
    requires FromLog(b, log)
    requires value == if (if c.key in b then b[c.key] else 0) == 0 then c.ts else 0
    ensures FromLog(b[c.key := value], log + [c])
    ensures b == Recorded(log) ==> b[c.key := value] == Recorded(log + [c])
  {
    assert (log + [c])[..|log|] == log && c in log + [c];
  }

  lemma FewerFromLog(b: map<Key, int>, b': map<Key, int>, log: seq<Candidate>, c: Candidate)
    requires FromLog(b, log)
    ensures b'.Keys <= b.Keys && (forall k :: k in b' ==> b'[k] == b[k]) ==> FromLog(b', log + [c])
  {
  }

  lemma ZerosFromLog(b: map<Key, int>, log: seq<Candidate>)
    requires FromLog(b, log)
    ensures FromLog(WithoutZeros(b), log) && forall k :: k in WithoutZeros(b) ==> WithoutZeros(b)[k] != 0
    ensures Holds(b, log) ==> WithoutZeros(b) == Survivors(log)
  {
  }

  // ----- from the table to the list of triggers -----

  /** The triggers of the first n slots, in slot order; `address` is the number a key spells. */
  ghost function Entries(slots: seq<Slot>, address: Key -> int, n: nat): seq<Trigger>
    requires n <= |slots|
  {
    if n == 0 then []
    else
      var slot := slots[n - 1];
      Entries(slots, address, n - 1) + if slot.inUse then [Trigger(address(slot.key), slot.data)] else []
  }

  /** Iterate over the slots in use, inserting each into the list of triggers. */
  method CollectTriggers(m: HashMap, address: Key -> int) returns (l: List<Trigger>)
    requires m.Valid()
    ensures fresh(l) && fresh(l.repr) && l.Valid()
    ensures l.contents == InsertTriggers([], Entries(m.table.slots, address, m.tableSize))
  {
    hide Table.Consistent, PowerOfTwo, Entries, InsertTriggers, InsertTrigger;
    ghost var slots := m.table.slots;
    l := new List();
    var i := 0;
    EntriesStart(slots, address);
    while i < m.tableSize
      invariant 0 <= i <= m.tableSize == |slots| && m.data[..] == slots && fresh(l.repr) && l.Valid()
      invariant l.contents == InsertTriggers([], Entries(slots, address, i))
    {
      EntriesStep(slots, address, i);
      assert m.data[i] == slots[i];
      if m.data[i].inUse {
        var tn := new Node(Trigger(address(m.data[i].key), m.data[i].data));
        InsertOneMore([], Entries(slots, address, i), tn.item);
        InsertTriggerNode(l, tn);
      }
      i := i + 1;
    }
  }

  lemma EntriesStart(slots: seq<Slot>, address: Key -> int)
    ensures InsertTriggers([], Entries(slots, address, 0)) == []
  {
  }

  lemma EntriesStep(slots: seq<Slot>, address: Key -> int, i: nat)
    requires i < |slots|
    ensures Entries(slots, address, i + 1) ==
              if slots[i].inUse then Entries(slots, address, i) + [Trigger(address(slots[i].key), slots[i].data)]
              else Entries(slots, address, i)
  {
  }

  // ----- which entries these are -----

  /** The keys of the first n slots, in slot order. */
  ghost function KeysIn(slots: seq<Slot>, n: nat): seq<Key>
    requires n <= |slots|
  {
    if n == 0 then [] else KeysIn(slots, n - 1) + if slots[n - 1].inUse then [slots[n - 1].key] else []
  }

  ghost predicate Bound(b: map<Key, int>, ks: seq<Key>) {
    forall i :: 0 <= i < |ks| ==> ks[i] in b
  }

  /** The triggers of some bindings. */
  ghost function TriggersOf(b: map<Key, int>, address: Key -> int, ks: seq<Key>): (r: seq<Trigger>)
    requires Bound(b, ks)
    ensures |r| == |ks|
  {
    seq(|ks|, i requires 0 <= i < |ks| => Trigger(address(ks[i]), b[ks[i]]))
  }

  lemma {:induction false} KeysAre(t: Table, hash: Key -> nat, n: nat)
    requires t.Consistent(hash) && n <= |t.slots|
    ensures var ks := KeysIn(t.slots, n);
            Distinct(ks) && forall k :: k in ks <==> exists i :: 0 <= i < n && t.InUse(i) && t.slots[i].key == k
  {
    hide Table.Consistent;
    if n > 0 {
      KeysAre(t, hash, n - 1);
      var before, k := KeysIn(t.slots, n - 1), t.slots[n - 1].key;
      if t.slots[n - 1].inUse {
        assert t.InUse(n - 1);
        forall i | 0 <= i < n - 1 && t.InUse(i)
          ensures t.slots[i].key != k
        {
          t.OneSlotEach(hash, i, n - 1);
        }
        assert k !in before && Distinct(before + [k]);
      } else {
        assert before + [] == before;
      }
    }
  }

  lemma {:induction false} EntriesMapped(t: Table, hash: Key -> nat, address: Key -> int, n: nat)
    requires t.Consistent(hash) && n <= |t.slots|
    ensures Bound(t.bindings, KeysIn(t.slots, n))
    ensures Entries(t.slots, address, n) == TriggersOf(t.bindings, address, KeysIn(t.slots, n))
  {
    if n > 0 {
      EntriesMapped(t, hash, address, n - 1);
      var before, slot := KeysIn(t.slots, n - 1), t.slots[n - 1];
      if slot.inUse {
        t.HasBinding(hash, n - 1);
        hide Table.Consistent;
        assert TriggersOf(t.bindings, address, before + [slot.key])
            == TriggersOf(t.bindings, address, before) + [Trigger(address(slot.key), slot.data)];
      } else {
        assert before + [] == before;
      }
    }
  }

  /** Iterating over a table meets every binding once and nothing else. */
  lemma EntriesAreBindings(t: Table, hash: Key -> nat, address: Key -> int)
    requires t.Consistent(hash)
    ensures var ks := KeysIn(t.slots, |t.slots|);
            && Distinct(ks) && (forall k :: k in ks <==> k in t.bindings)
            && Bound(t.bindings, ks) && Entries(t.slots, address, |t.slots|) == TriggersOf(t.bindings, address, ks)
  {
    KeysAre(t, hash, |t.slots|);
    EntriesMapped(t, hash, address, |t.slots|);
    forall k | k in t.bindings
      ensures k in KeysIn(t.slots, |t.slots|)
    {
      assert k in t.at && t.InUse(Place(hash, k, t.at[k], |t.slots|));
    }
  }

  lemma {:induction false} SameKeysSameTriggers(b: map<Key, int>, address: Key -> int, ks: seq<Key>, ks': seq<Key>)
    requires Distinct(ks) && Distinct(ks') && (forall k :: k in ks <==> k in ks') && Bound(b, ks) && Bound(b, ks')
    ensures multiset(TriggersOf(b, address, ks)) == multiset(TriggersOf(b, address, ks'))
    decreases |ks|
  {
    if ks == [] {
      assert forall i :: 0 <= i < |ks'| ==> ks'[i] in ks;
    } else {
      assert ks[0] in ks';
      var i: nat :| i < |ks'| && ks'[i] == ks[0];
      var q := Remove(ks, 0);
      var r := Remove(ks', i);
      RemoveMembers(ks, 0, q);
      RemoveMembers(ks', i, r);
      hide Distinct, TriggersOf;
      TakenOut(b, address, ks, 0, q);
      TakenOut(b, address, ks', i, r);
      SameKeysSameTriggers(b, address, q, r);
    }
  }

  lemma TakenOut(b: map<Key, int>, address: Key -> int, ks: seq<Key>, i: nat, r: seq<Key>)
    requires i < |ks| && Bound(b, ks) && Removed(ks, i, r)
    ensures Bound(b, r)
    ensures multiset(TriggersOf(b, address, ks)) ==
            multiset{Trigger(address(ks[i]), b[ks[i]])} + multiset(TriggersOf(b, address, r))
  {
    var ts, x := TriggersOf(b, address, ks), Trigger(address(ks[i]), b[ks[i]]);
    assert TriggersOf(b, address, r) == ts[..i] + ts[i + 1..];
    assert ts == ts[..i] + [x] + ts[i + 1..];
  }

  /** Two tables with the same bindings list the same triggers, in some order. */
  lemma LayoutOnlyReorders(t: Table, hash: Key -> nat, t': Table, hash': Key -> nat, address: Key -> int)
    requires t.Consistent(hash) && t'.Consistent(hash') && t.bindings == t'.bindings
    ensures multiset(Entries(t.slots, address, |t.slots|)) == multiset(Entries(t'.slots, address, |t'.slots|))
  {
    hide Table.Consistent, Entries, KeysIn, TriggersOf;
    EntriesAreBindings(t, hash, address);
    EntriesAreBindings(t', hash', address);
    SameKeysSameTriggers(t.bindings, address, KeysIn(t.slots, |t.slots|), KeysIn(t'.slots, |t'.slots|));
  }

  /** The list of triggers is determined by the bindings, whatever the hash function and the layout
      of the table, if only the newest ones share their time and these are equal; otherwise some
      order of the same entries gives another list. */
  lemma TriggersIgnoreTheHash(t: Table, hash: Key -> nat, t': Table, hash': Key -> nat, address: Key -> int)
    requires t.Consistent(hash) && t'.Consistent(hash') && t.bindings == t'.bindings
    ensures var e := Entries(t.slots, address, |t.slots|);
            if OrderFree(e)
            then InsertTriggers([], e) == InsertTriggers([], Entries(t'.slots, address, |t'.slots|))
            else exists e' :: multiset(e') == multiset(e) && InsertTriggers([], e') != InsertTriggers([], e)
  {
    hide Table.Consistent, Entries, OrderFree, InsertTriggers;
    var e := Entries(t.slots, address, |t.slots|);
    LayoutOnlyReorders(t, hash, t', hash', address);
    OrderMattersExactly(e);
  }

  /** A table of two slots, with `first` in the first and `second` in the second. */
  ghost function Pair(hash: Key -> nat, first: Key, second: Key, ts: int): Table {
    var home := Home(hash, first, 2);
    Table([Slot(first, ts, true), Slot(second, ts, true)], map[first := ts, second := ts],
          map[first := if home == 0 then 0 else 1, second := if home == 0 then 1 else 0])
  }

  lemma PairIsConsistent(hash: Key -> nat, first: Key, second: Key, ts: int)
    requires first != second && Home(hash, first, 2) == Home(hash, second, 2)
    ensures Pair(hash, first, second, ts).Consistent(hash)
  {
    var home, t := Home(hash, first, 2), Pair(hash, first, second, ts);
    assert Probe(home, 0, 2) == home && Probe(home, 1, 2) == Next(home, 2);
    hide Table.Consistent, Home, Probe;
    assert t.SlotFits(hash, 0) && t.SlotFits(hash, 1) && t.KeyFits(hash, first) && t.KeyFits(hash, second);
    t.Fits(hash);
  }

  /** The layout does matter for some tables: two addresses that collide and have one time can be in
      either order, and the list then has the one that comes first. */
  lemma LayoutMatters(hash: Key -> nat, a: Key, b: Key, ts: int, address: Key -> int)
    requires a != b && Home(hash, a, 2) == Home(hash, b, 2) && address(a) != address(b)
    ensures var t, t' := Pair(hash, a, b, ts), Pair(hash, b, a, ts);
            && t.Consistent(hash) && t'.Consistent(hash) && t.bindings == t'.bindings
            && InsertTriggers([], Entries(t.slots, address, 2)) == [Trigger(address(a), ts)]
            && InsertTriggers([], Entries(t'.slots, address, 2)) == [Trigger(address(b), ts)]
  {
    PairIsConsistent(hash, a, b, ts);
    PairIsConsistent(hash, b, a, ts);
    PairList(hash, a, b, ts, address);
    PairList(hash, b, a, ts, address);
  }

  lemma PairList(hash: Key -> nat, first: Key, second: Key, ts: int, address: Key -> int)
    ensures var e := Entries(Pair(hash, first, second, ts).slots, address, 2);
            InsertTriggers([], e) == [Trigger(address(first), ts)]
  {
    var slots := Pair(hash, first, second, ts).slots;
    var x, y := Trigger(address(first), ts), Trigger(address(second), ts);
    assert Entries(slots, address, 0) == [] && Entries(slots, address, 1) == [x];
    assert Entries(slots, address, 2) == [x] + [y];
    InsertOneMore([], [x], y);
    InsertOneMore([], [], x);
    assert [] + [x] == [x] && InsertTriggers([], []) == [];
  }
}
