/** The plan on disk: the rows that the analyzer writes, the groups that the prefetcher builds
    back from them, and the read-ahead requests made for one group. */
module PrefetchPlan {
  import opened Sequences

  /** A group is found by its mapped file and the offset of its trigger in it. */
  datatype Key = Key(md: int, bpOffset: int)

  /** One row without its key; `flag` is 0 for metadata and 1 for data. */
  datatype Entry = Entry(path: string, offset: int, length: int, flag: int)

  datatype Row = Row(key: Key, entry: Entry)

  datatype FetchGroup = FetchGroup(key: Key, entries: seq<Entry>)

  // ----- writing -----

  datatype Data = Data(path: string, offset: int, length: int)

  /** A list of the analyzer's chain: the files whose metadata it needs, and its reads. */
  datatype Section = Section(md: int, bpOffset: int, metas: seq<string>, data: seq<Data>)

  /** The rows of a list; metadata only goes out for rotating disks. */
  function Entries(hdd: bool, s: Section): seq<Entry> {
    (if hdd then seq(|s.metas|, i requires 0 <= i < |s.metas| => Entry(s.metas[i], 0, 0, 0)) else [])
    + seq(|s.data|, i requires 0 <= i < |s.data| => Entry(s.data[i].path, s.data[i].offset, s.data[i].length, 1))
  }

  /** What is written of each list. The first list of the chain is written with offset 0. */
  function Sent(hdd: bool, ss: seq<Section>, first: bool): (gs: seq<FetchGroup>)
    ensures |gs| == |ss|
    ensures forall i :: 0 <= i < |ss| ==> gs[i].entries == Entries(hdd, ss[i]) && gs[i].key.md == ss[i].md
    ensures forall i :: 0 <= i < |ss| ==> gs[i].key.bpOffset == if first && i == 0 then 0 else ss[i].bpOffset
  {
    if ss == [] then []
    else
      var key := Key(ss[0].md, if first then 0 else ss[0].bpOffset);
      [FetchGroup(key, Entries(hdd, ss[0]))] + Sent(hdd, ss[1..], false)
  }

  lemma EntriesAreMany(hdd: bool, s: Section)
    ensures |Entries(hdd, s)| >= |s.data|
  {
  }

  function RowsOf(g: FetchGroup): seq<Row> {
    seq(|g.entries|, i requires 0 <= i < |g.entries| => Row(g.key, g.entries[i]))
  }

  /** The rows of the plan file. */
  function Written(gs: seq<FetchGroup>): seq<Row> {
    if gs == [] then [] else Written(gs[..|gs| - 1]) + RowsOf(gs[|gs| - 1])
  }

  function Keys(gs: seq<FetchGroup>): (r: seq<Key>)
    ensures |r| == |gs|
  {
    seq(|gs|, i requires 0 <= i < |gs| => gs[i].key)
  }

  // ----- reading back -----

  /** The first group with this key, or the number of groups. */
  function FindGroup(gs: seq<FetchGroup>, key: Key): (i: nat)
    ensures i <= |gs| && (i < |gs| ==> gs[i].key == key)
    ensures forall j :: 0 <= j < i ==> gs[j].key != key
  {
    var keys := Keys(gs);
    assert forall j :: 0 <= j < |gs| ==> keys[j] == gs[j].key;
    FirstIndex(keys, key)
  }

  lemma FindIsBounded(gs: seq<FetchGroup>, key: Key)
    ensures FindGroup(gs, key) <= |gs|
  {
  }

  function AddRow(gs: seq<FetchGroup>, r: Row): seq<FetchGroup> {
    var i := FindGroup(gs, r.key);
    if i < |gs| then gs[i := gs[i].(entries := gs[i].entries + [r.entry])]
    else gs + [FetchGroup(r.key, [r.entry])]
  }

  function Loaded(rows: seq<Row>): seq<FetchGroup> {
    if rows == [] then [] else AddRow(Loaded(rows[..|rows| - 1]), rows[|rows| - 1])
  }

  /** The breakpoint file names every list; offset 0 is no breakpoint. */
  function LoadedOffsets(keys: seq<Key>): seq<Key> {
    if keys == [] then []
    else
      var r := LoadedOffsets(keys[..|keys| - 1]);
      if keys[|keys| - 1].bpOffset == 0 then r else r + [keys[|keys| - 1]]
  }

  // ----- the reference: groups seen from the rows -----

  /** The entries of one key, in the order of the file. */
  function EntriesFor(rows: seq<Row>, key: Key): seq<Entry> {
    if rows == [] then []
    else EntriesFor(rows[..|rows| - 1], key) + (if rows[|rows| - 1].key == key then [rows[|rows| - 1].entry] else [])
  }

  /** The first row with this key, or the number of rows. */
  function FirstRow(rows: seq<Row>, key: Key): (i: nat)
    ensures i <= |rows| && (i < |rows| ==> rows[i].key == key)
    ensures forall j :: 0 <= j < i ==> rows[j].key != key
  {
    var keys := seq(|rows|, i requires 0 <= i < |rows| => rows[i].key);
    assert forall j :: 0 <= j < |rows| ==> keys[j] == rows[j].key;
    FirstIndex(keys, key)
  }

  lemma FirstRowAppend(rows: seq<Row>, r: Row, key: Key)
    ensures FirstRow(rows, key) < |rows| ==> FirstRow(rows + [r], key) == FirstRow(rows, key)
    ensures FirstRow(rows, key) == |rows| ==> FirstRow(rows + [r], key) == if r.key == key then |rows| else |rows| + 1
  {
    var i, n := FirstRow(rows, key), FirstRow(rows + [r], key);
    assert forall j :: 0 <= j < |rows| ==> (rows + [r])[j] == rows[j];
    if i < |rows| {
      assert (rows + [r])[i].key == key;
    } else if r.key == key {
      assert (rows + [r])[|rows|].key == key;
    }
  }

  lemma EntriesForAppend(rows: seq<Row>, r: Row, key: Key)
    ensures EntriesFor(rows + [r], key) == EntriesFor(rows, key) + (if r.key == key then [r.entry] else [])
  {
    assert (rows + [r])[..|rows|] == rows;
  }

  /** One group for each key in the file, in the order of first appearance, with all rows of that
      key in order. */
  ghost predicate ByKey(rows: seq<Row>, gs: seq<FetchGroup>) {
    && (forall i, j :: 0 <= i < j < |gs| ==> FirstRow(rows, gs[i].key) < FirstRow(rows, gs[j].key))
    && (forall i :: 0 <= i < |gs| ==> FirstRow(rows, gs[i].key) < |rows|)
    && (forall i :: 0 <= i < |gs| ==> gs[i].entries == EntriesFor(rows, gs[i].key) != [])
    && (forall i :: 0 <= i < |rows| ==> FindGroup(gs, rows[i].key) < |gs|)
  }

  lemma KeysDiffer(rows: seq<Row>, gs: seq<FetchGroup>)
    requires ByKey(rows, gs)
    ensures Distinct(Keys(gs))
  {
  }

  lemma FindIs(gs: seq<FetchGroup>, k: nat)
    requires k < |gs| && Distinct(Keys(gs))
    ensures FindGroup(gs, gs[k].key) == k
  {
    var i := FindGroup(gs, gs[k].key);
    assert Keys(gs)[i] == Keys(gs)[k];
  }

  lemma AddKnown(rows: seq<Row>, r: Row, gs: seq<FetchGroup>)
    requires ByKey(rows, gs) && FindGroup(gs, r.key) < |gs|
    ensures ByKey(rows + [r], AddRow(gs, r))
  {
    hide FirstRow, EntriesFor, FindGroup;
    var k, after := FindGroup(gs, r.key), AddRow(gs, r);
    KeysDiffer(rows, gs);
    assert forall i :: 0 <= i < |gs| ==> after[i].key == gs[i].key;
    forall i | 0 <= i < |gs|
      ensures after[i].entries == EntriesFor(rows + [r], after[i].key) != []
      ensures FirstRow(rows + [r], after[i].key) == FirstRow(rows, gs[i].key)
    {
      FindIs(gs, i);
      EntriesForAppend(rows, r, gs[i].key);
      FirstRowAppend(rows, r, gs[i].key);
    }
    forall i | 0 <= i <= |rows|
      ensures FindGroup(after, (rows + [r])[i].key) < |after|
    {
      var j := if i < |rows| then FindGroup(gs, rows[i].key) else k;
      assert after[j].key == (rows + [r])[i].key;
    }
  }

  lemma NoRow(rows: seq<Row>, gs: seq<FetchGroup>, key: Key)
    requires ByKey(rows, gs) && FindGroup(gs, key) == |gs|
    ensures FirstRow(rows, key) == |rows|
  {
    assert forall i :: 0 <= i < |rows| ==> gs[FindGroup(gs, rows[i].key)].key == rows[i].key;
  }

  lemma OtherGroup(rows: seq<Row>, r: Row, gs: seq<FetchGroup>, i: nat)
    requires ByKey(rows, gs) && i < |gs| && gs[i].key != r.key
    ensures gs[i].entries == EntriesFor(rows + [r], gs[i].key) != []
    ensures FirstRow(rows + [r], gs[i].key) == FirstRow(rows, gs[i].key) < |rows|
  {
    EntriesForAppend(rows, r, gs[i].key);
    FirstRowAppend(rows, r, gs[i].key);
  }

  lemma FindInMore(gs: seq<FetchGroup>, g: FetchGroup, key: Key)
    requires FindGroup(gs, key) < |gs| || g.key == key
    ensures FindGroup(gs + [g], key) <= |gs|
  {
    var j, after := FindGroup(gs, key), gs + [g];
    assert after[j].key == key;
  }

  lemma AddNew(rows: seq<Row>, r: Row, gs: seq<FetchGroup>)
    requires ByKey(rows, gs) && FindGroup(gs, r.key) == |gs|
    ensures ByKey(rows + [r], AddRow(gs, r))
  {
    hide FirstRow, EntriesFor, FindGroup;
    var g, n := FetchGroup(r.key, [r.entry]), |gs|;
    var after, more := gs + [g], rows + [r];
    assert AddRow(gs, r) == after;
    hide AddRow;
    NoRow(rows, gs, r.key);
    NoEntries(rows, r.key);
    EntriesForAppend(rows, r, r.key);
    FirstRowAppend(rows, r, r.key);
    forall i | 0 <= i < n
      ensures after[i].entries == EntriesFor(more, after[i].key) != []
      ensures FirstRow(more, after[i].key) == FirstRow(rows, gs[i].key) < |rows|
    {
      OtherGroup(rows, r, gs, i);
    }
    assert FirstRow(more, after[n].key) == |rows| && after[n].entries == EntriesFor(more, r.key) != [];
    forall i | 0 <= i < |more|
      ensures FindGroup(after, more[i].key) < |after|
    {
      FindInMore(gs, g, more[i].key);
    }
  }

  lemma {:induction false} NoEntries(rows: seq<Row>, key: Key)
    ensures FirstRow(rows, key) == |rows| ==> EntriesFor(rows, key) == []
  {
    if rows != [] {
      NoEntries(rows[..|rows| - 1], key);
      FirstRowAppend(rows[..|rows| - 1], rows[|rows| - 1], key);
      assert rows[..|rows| - 1] + [rows[|rows| - 1]] == rows;
    }
  }

  /** The groups built from a file, seen from its rows. */
  lemma {:induction false} LoadedIsByKey(rows: seq<Row>)
    ensures ByKey(rows, Loaded(rows)) && Distinct(Keys(Loaded(rows)))
  {
    if rows != [] {
      var before, r := rows[..|rows| - 1], rows[|rows| - 1];
      LoadedIsByKey(before);
      assert rows == before + [r];
      if FindGroup(Loaded(before), r.key) < |Loaded(before)| {
        AddKnown(before, r, Loaded(before));
      } else {
        AddNew(before, r, Loaded(before));
      }
    }
    KeysDiffer(rows, Loaded(rows));
  }

  // ----- the round trip -----

  lemma {:induction false} LoadMore(rows: seq<Row>, k: Key, es: seq<Entry>)
    requires FindGroup(Loaded(rows), k) == |Loaded(rows)|
    ensures es != [] ==> Loaded(rows + RowsOf(FetchGroup(k, es))) == Loaded(rows) + [FetchGroup(k, es)]
  {
    hide FindGroup;
    var gs, all := Loaded(rows), rows + RowsOf(FetchGroup(k, es));
    if es != [] {
      var before, e := es[..|es| - 1], es[|es| - 1];
      LoadMore(rows, k, before);
      assert all[..|all| - 1] == rows + RowsOf(FetchGroup(k, before)) && all[|all| - 1] == Row(k, e);
      if before == [] {
        assert rows + RowsOf(FetchGroup(k, [])) == rows && es == [e];
      } else {
        var now := gs + [FetchGroup(k, before)];
        var i := FindGroup(now, k);
        assert now[|gs|].key == k && i == |gs| by {
          assert forall j :: 0 <= j < |gs| ==> now[j] == gs[j] && gs[j].key != k;
        }
        assert before + [e] == es;
      }
    }
  }

  lemma {:induction false} LoadWritten(gs: seq<FetchGroup>)
    requires Distinct(Keys(gs)) && forall i :: 0 <= i < |gs| ==> gs[i].entries != []
    ensures Loaded(Written(gs)) == gs
  {
    hide FindGroup, RowsOf, AddRow;
    if gs != [] {
      var before, g := gs[..|gs| - 1], gs[|gs| - 1];
      assert Distinct(Keys(before)) by {
        assert forall i :: 0 <= i < |before| ==> Keys(before)[i] == Keys(gs)[i];
      }
      LoadWritten(before);
      var i := FindGroup(before, g.key);
      assert i < |before| ==> Keys(gs)[i] == g.key == Keys(gs)[|before|];
      LoadMore(Written(before), g.key, g.entries);
      assert g == FetchGroup(g.key, g.entries) && before + [g] == gs;
    }
  }

  /** The prefetcher gets back exactly the analyzer's lists, if and only if no two have the same
      key and none is empty. */
  lemma {:induction false} RoundTripsExactly(gs: seq<FetchGroup>)
    ensures Loaded(Written(gs)) == gs <==>
            Distinct(Keys(gs)) && forall i :: 0 <= i < |gs| ==> gs[i].entries != []
  {
    LoadedIsByKey(Written(gs));
    if Distinct(Keys(gs)) && forall i :: 0 <= i < |gs| ==> gs[i].entries != [] {
      LoadWritten(gs);
    }
  }

  /** Metadata entries for `metas` come first, then data entries for `data`. */
  ghost predicate MetaThenData(es: seq<Entry>, metas: seq<string>, data: seq<Data>) {
    && |es| == |metas| + |data|
    && (forall i :: 0 <= i < |metas| ==> es[i] == Entry(metas[i], 0, 0, 0))
    && (forall i {:trigger data[i]} :: 0 <= i < |data| ==>
          es[|metas| + i] == Entry(data[i].path, data[i].offset, data[i].length, 1))
  }

  /** Of every list that is written, the metadata comes back first and the data after. */
  lemma {:induction false} RoundTripOfLists(hdd: bool, ss: seq<Section>, k: nat)
    requires k < |ss| && Distinct(Keys(Sent(hdd, ss, true)))
    requires forall i :: 0 <= i < |ss| ==> ss[i].data != []
    ensures var gs := Loaded(Written(Sent(hdd, ss, true)));
            |gs| == |ss| && MetaThenData(gs[k].entries, if hdd then ss[k].metas else [], ss[k].data)
  {
    hide Loaded, Written, Sent;
    var sent := Sent(hdd, ss, true);
    assert forall i :: 0 <= i < |sent| ==> |sent[i].entries| >= |ss[i].data|;
    LoadWritten(sent);
    assert sent[k].entries == Entries(hdd, ss[k]);
  }

  /** Every breakpoint that the prefetcher reads has its group, and offset 0 is never read. */
  lemma OffsetsHaveGroups(gs: seq<FetchGroup>, o: Key)
    requires forall i :: 0 <= i < |gs| ==> gs[i].entries != []
    ensures o in LoadedOffsets(Keys(gs)) <==> o in Keys(gs) && o.bpOffset != 0
    ensures o in LoadedOffsets(Keys(gs)) ==> FindGroup(Loaded(Written(gs)), o) < |Loaded(Written(gs))|
  {
    OffsetsAre(Keys(gs), o);
    if o in Keys(gs) {
      var i :| 0 <= i < |gs| && Keys(gs)[i] == o;
      WrittenHas(gs, i);
      LoadedIsByKey(Written(gs));
      var r := Row(o, gs[i].entries[0]);
      var j :| 0 <= j < |Written(gs)| && Written(gs)[j] == r;
    }
  }

  lemma {:induction false} OffsetsAre(keys: seq<Key>, o: Key)
    ensures o in LoadedOffsets(keys) <==> o in keys && o.bpOffset != 0
  {
    if keys != [] {
      OffsetsAre(keys[..|keys| - 1], o);
      assert keys == keys[..|keys| - 1] + [keys[|keys| - 1]];
    }
  }

  lemma {:induction false} WrittenHas(gs: seq<FetchGroup>, i: nat)
    requires i < |gs| && gs[i].entries != []
    ensures Row(gs[i].key, gs[i].entries[0]) in Written(gs)
  {
    if i < |gs| - 1 {
      WrittenHas(gs[..|gs| - 1], i);
    } else {
      assert RowsOf(gs[i])[0] == Row(gs[i].key, gs[i].entries[0]);
    }
  }

  /** Write the rows of one list: metadata first, on rotating disks only, then data. */
  method WriteList(hdd: bool, key: Key, s: Section) returns (rows: seq<Row>)
    ensures rows == RowsOf(FetchGroup(key, Entries(hdd, s)))
  {
    rows := [];
    ghost var all, m := RowsOf(FetchGroup(key, Entries(hdd, s))), if hdd then |s.metas| else 0;
    if hdd {
      for j := 0 to |s.metas|
        invariant rows == all[..j]
      {
        rows := rows + [Row(key, Entry(s.metas[j], 0, 0, 0))];
      }
    }
    for j := 0 to |s.data|
      invariant rows == all[..m + j]
    {
      rows := rows + [Row(key, Entry(s.data[j].path, s.data[j].offset, s.data[j].length, 1))];
    }
  }

  /** Write both files. */
  method Generate(hdd: bool, ss: seq<Section>) returns (bp: seq<Key>, pf: seq<Row>)
    ensures pf == Written(Sent(hdd, ss, true)) && bp == Keys(Sent(hdd, ss, true))
  {
    hide Sent, RowsOf, Entries;
    ghost var sent := Sent(hdd, ss, true);
    bp, pf := [], [];
    var i := 0;
    while i < |ss|
      invariant i <= |ss| && pf == Written(sent[..i]) && bp == Keys(sent[..i])
    {
      assert sent[..i + 1][..i] == sent[..i];
      var key := Key(ss[i].md, if i == 0 then 0 else ss[i].bpOffset);
      assert sent[i] == FetchGroup(key, Entries(hdd, ss[i]));
      var rows := WriteList(hdd, key, ss[i]);
      pf := pf + rows;
      bp := bp + [key];
      i := i + 1;
    }
    assert sent[..i] == sent;
  }

  // ----- the table in memory -----

  /** The place of the group with this key; the number of groups if there is none. */
  method GetPfList(groups: seq<FetchGroup>, key: Key) returns (i: nat)
    ensures i == FindGroup(groups, key)
  {
    i := 0;
    while i < |groups|
      invariant i <= |groups| && forall j :: 0 <= j < i ==> groups[j].key != key
    {
      if groups[i].key.md == key.md {
        if groups[i].key.bpOffset == key.bpOffset {
          return;
        }
      }
      i := i + 1;
    }
  }

  class PlanTable {
    var groups: seq<FetchGroup>
    var offsets: seq<Key>
    var total: nat

    constructor ()
      ensures groups == [] && offsets == [] && total == 0
    {
      groups, offsets, total := [], [], 0;
    }

    method AppendPfNode(i: nat, e: Entry)
      requires i < |groups|
      modifies this`groups
      ensures groups == old(groups)[i := old(groups)[i].(entries := old(groups)[i].entries + [e])]
    {
      groups := groups[i := groups[i].(entries := groups[i].entries + [e])];
    }

    /** Read both files. */
    method Load(bp: seq<Key>, pf: seq<Row>)
      requires groups == [] && offsets == [] && total == 0
      modifies this
      ensures groups == Loaded(pf) && offsets == LoadedOffsets(bp) && total == |offsets|
    {
      var j := 0;
      while j < |bp|
        invariant j <= |bp| && offsets == LoadedOffsets(bp[..j]) && total == |offsets| && groups == []
      {
        assert bp[..j + 1][..j] == bp[..j];
        var o := bp[j];
        j := j + 1;
        if o.bpOffset == 0 {
          continue;
        }
        offsets := offsets + [o];
        total := total + 1;
      }
      assert bp[..j] == bp;
      j := 0;
      while j < |pf|
        invariant j <= |pf| && groups == Loaded(pf[..j]) && offsets == LoadedOffsets(bp) && total == |offsets|
      {
        assert pf[..j + 1][..j] == pf[..j];
        var i := GetPfList(groups, pf[j].key);
        assert [] + [pf[j].entry] == [pf[j].entry];
        if i == |groups| {
          groups := groups + [FetchGroup(pf[j].key, [])];
        }
        AppendPfNode(i, pf[j].entry);
        j := j + 1;
      }
      assert pf[..j] == pf;
    }
  }

  // ----- read-ahead requests -----

  const MAX_READAHEAD: int := 536870912

  /** A request to read ahead; length 0 asks for the rest of the file. */
  datatype Advice = Advice(path: string, offset: int, length: int)

  predicate Asks(a: Advice, path: string, p: int) {
    a.path == path && a.offset <= p && (a.length == 0 || p < a.offset + a.length)
  }

  /** The requests made for one entry. */
  function Chunks(path: string, offset: int, length: int): seq<Advice>
    decreases length
  {
    if length > MAX_READAHEAD
    then [Advice(path, offset, MAX_READAHEAD)] + Chunks(path, offset + MAX_READAHEAD, length - MAX_READAHEAD)
    else [Advice(path, offset, length)]
  }

  /** The requests have the largest size but for the last, follow each other without gap or
      overlap, and end where the entry ends. */
  lemma {:induction false} ChunksTile(path: string, offset: int, length: int)
    ensures var c := Chunks(path, offset, length);
            && c != [] && c[0].offset == offset && c[|c| - 1].offset + c[|c| - 1].length == offset + length
            && (forall i :: 0 <= i < |c| ==> c[i].path == path && c[i].length <= 536870912)
            && (forall i :: 0 <= i < |c| - 1 ==>
                  c[i].length == 536870912 && c[i + 1].offset == c[i].offset + c[i].length)
            && (length > 0 ==> c[|c| - 1].length > 0)
    decreases length
  {
    if length > MAX_READAHEAD {
      ChunksTile(path, offset + MAX_READAHEAD, length - MAX_READAHEAD);
    }
  }

  /** Together they ask for exactly what the entry asks for. */
  lemma {:induction false} ChunksAsk(path: string, offset: int, length: int, q: string, p: int)
    ensures (exists a :: a in Chunks(path, offset, length) && Asks(a, q, p)) <==>
              Asks(Advice(path, offset, length), q, p)
    decreases length
  {
    var c := Chunks(path, offset, length);
    if length > MAX_READAHEAD {
      var rest := Chunks(path, offset + MAX_READAHEAD, length - MAX_READAHEAD);
      ChunksAsk(path, offset + MAX_READAHEAD, length - MAX_READAHEAD, q, p);
      assert c == [Advice(path, offset, MAX_READAHEAD)] + rest;
      assert forall a :: a in c <==> a == c[0] || a in rest;
      if Asks(Advice(path, offset, length), q, p) && p < offset + MAX_READAHEAD {
        assert Asks(c[0], q, p) && c[0] in c;
      }
    } else {
      assert c[0] == Advice(path, offset, length) && c[0] in c;
    }
  }

  function AllChunks(es: seq<Entry>): seq<Advice> {
    if es == [] then []
    else
      var e := es[|es| - 1];
      AllChunks(es[..|es| - 1]) + Chunks(e.path, e.offset, e.length)
  }

  /** The requests for a group are those for its entries, in their order. */
  lemma {:induction false} AllChunksInOrder(es: seq<Entry>, more: seq<Entry>)
    ensures AllChunks(es + more) == AllChunks(es) + AllChunks(more)
  {
    hide Chunks;
    if more == [] {
      assert es + more == es && AllChunks(es) + [] == AllChunks(es);
    } else {
      var before, e := more[..|more| - 1], more[|more| - 1];
      var c := Chunks(e.path, e.offset, e.length);
      AllChunksInOrder(es, before);
      assert (es + more)[..|es + more| - 1] == es + before && (es + more)[|es + more| - 1] == e;
      assert (AllChunks(es) + AllChunks(before)) + c == AllChunks(es) + (AllChunks(before) + c);
    }
  }

  lemma ChunksOfOne(e: Entry)
    ensures AllChunks([e]) == Chunks(e.path, e.offset, e.length)
  {
    hide Chunks;
    assert [e][..0] == [] && AllChunks([]) == [];
    assert [] + Chunks(e.path, e.offset, e.length) == Chunks(e.path, e.offset, e.length);
  }

  /** What is asked for a group is what its entries ask for. */
  lemma {:induction false} AllChunksAsk(es: seq<Entry>, q: string, p: int)
    ensures (exists a :: a in AllChunks(es) && Asks(a, q, p)) <==>
            exists i :: 0 <= i < |es| && Asks(Advice(es[i].path, es[i].offset, es[i].length), q, p)
  {
    if es != [] {
      var before, e := es[..|es| - 1], es[|es| - 1];
      AllChunksAsk(before, q, p);
      ChunksAsk(e.path, e.offset, e.length, q, p);
      assert forall a :: a in AllChunks(es) <==> a in AllChunks(before) || a in Chunks(e.path, e.offset, e.length);
      assert forall i :: 0 <= i < |before| ==> before[i] == es[i];
    }
  }

  /** How many metadata entries come first. */
  function Leading(es: seq<Entry>): (n: nat)
    ensures n <= |es| && (n < |es| ==> es[n].flag != 0)
    ensures forall i :: 0 <= i < n ==> es[i].flag == 0
  {
    if es == [] || es[0].flag != 0 then 0 else 1 + Leading(es[1..])
  }

  function Paths(es: seq<Entry>): (r: seq<string>)
    ensures |r| == |es|
  {
    seq(|es|, i requires 0 <= i < |es| => es[i].path)
  }

  /** Fetch a group. On a rotating disk the leading metadata entries are only looked up, and the
      loop that does so relies on a data entry to stop at. */
  method DoFetch(hdd: bool, es: seq<Entry>) returns (stats: seq<string>, calls: seq<Advice>)
    requires hdd ==> Leading(es) < |es|
    ensures var m := if hdd then Leading(es) else 0; stats == Paths(es[..m]) && calls == AllChunks(es[m..])
  {
    stats, calls := [], [];
    var n := 0;
    if hdd {
      while es[n].flag == 0
        invariant n <= Leading(es) && stats == Paths(es[..n])
        decreases |es| - n
      {
        stats := stats + [es[n].path];
        n := n + 1;
      }
    }
    assert hdd ==> n == Leading(es);
    calls := FetchData(es, n);
  }

  method FetchData(es: seq<Entry>, m: nat) returns (calls: seq<Advice>)
    requires m <= |es|
    ensures calls == AllChunks(es[m..])
  {
    calls := [];
    var n := m;
    while n < |es|
      invariant m <= n <= |es| && calls == AllChunks(es[m..n])
    {
      assert es[m..n + 1][..n - m] == es[m..n];
      var requests := FetchEntry(es[n]);
      calls := calls + requests;
      n := n + 1;
    }
    assert es[m..n] == es[m..];
  }

  method FetchEntry(e: Entry) returns (calls: seq<Advice>)
    ensures calls == Chunks(e.path, e.offset, e.length)
  {
    var offset, length := e.offset, e.length;
    calls := [];
    while true
      invariant calls + Chunks(e.path, offset, length) == Chunks(e.path, e.offset, e.length)
      decreases length
    {
      if length > MAX_READAHEAD {
        ghost var rest := Chunks(e.path, offset + MAX_READAHEAD, length - MAX_READAHEAD);
        Regroup(calls, Advice(e.path, offset, MAX_READAHEAD), rest);
        calls := calls + [Advice(e.path, offset, MAX_READAHEAD)];
        offset := offset + MAX_READAHEAD;
        length := length - MAX_READAHEAD;
      } else {
        calls := calls + [Advice(e.path, offset, length)];
        break;
      }
    }
  }

  lemma FetchShown(es: seq<Entry>, metas: seq<string>, data: seq<Data>, q: string, p: int)
    requires MetaThenData(es, metas, data) && data != []
    ensures Leading(es) == |metas| < |es| && Paths(es[..|metas|]) == metas
    ensures (exists a :: a in AllChunks(es[|metas|..]) && Asks(a, q, p)) <==>
            exists i :: 0 <= i < |data| && Asks(Advice(data[i].path, data[i].offset, data[i].length), q, p)
  {
    hide AllChunks, Asks;
    var m := |metas|;
    var e := data[0];
    assert es[m + 0].flag == 1;
    AllChunksAsk(es[m..], q, p);
    assert forall i :: 0 <= i < |data| ==> es[m..][i] == Entry(data[i].path, data[i].offset, data[i].length, 1);
  }

  /** What the analyzer wrote for a list is what gets fetched: its metadata paths are looked up,
      and its data is asked for exactly. */
  lemma {:induction false} FetchOfList(hdd: bool, ss: seq<Section>, k: nat, q: string, p: int)
    requires k < |ss| && Distinct(Keys(Sent(hdd, ss, true)))
    requires forall i :: 0 <= i < |ss| ==> ss[i].data != []
    ensures k < |Loaded(Written(Sent(hdd, ss, true)))|
    ensures var es := Loaded(Written(Sent(hdd, ss, true)))[k].entries;
            var m := if hdd then Leading(es) else 0;
            && m < |es| && Paths(es[..m]) == (if hdd then ss[k].metas else [])
            && ((exists a :: a in AllChunks(es[m..]) && Asks(a, q, p)) <==>
                var data := ss[k].data;
                exists i :: 0 <= i < |data| && Asks(Advice(data[i].path, data[i].offset, data[i].length), q, p))
  {
    hide Loaded, Written, Sent, AllChunks, MetaThenData, Asks;
    RoundTripOfLists(hdd, ss, k);
    FetchShown(Loaded(Written(Sent(hdd, ss, true)))[k].entries, if hdd then ss[k].metas else [], ss[k].data, q, p);
  }
}
