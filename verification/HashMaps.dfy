/** The bounded-probe hash map: linear probing over at most 8 slots, no tombstones, doubling
    when a key finds no slot. The hash is an arbitrary function of the key. */
module HashMaps {

  const MAX_CHAIN_LENGTH: nat := 8
  const UINT_LIMIT: nat := 0x1_0000_0000
  const LARGEST: nat := 0x8000_0000  // the largest power of two below the limit

  /** A byte string. */
  datatype Key = Key(text: string)

  /** A slot that is not in use is all zero. */
  datatype Slot = Slot(key: Key, data: int, inUse: bool)

  const BLANK := Slot(Key(""), 0, false)

  // ----- sizes -----

  predicate PowerOfTwo(n: nat) {
    n == 1 || (n > 1 && n % 2 == 0 && PowerOfTwo(n / 2))
  }

  /** Bitwise and. */
  function And(a: nat, b: nat): nat {
    if a == 0 || b == 0 then 0 else (a % 2) * (b % 2) + 2 * And(a / 2, b / 2)
  }

  lemma {:induction false} AndSelf(a: nat)
    ensures And(a, a) == a
  {
    if a != 0 { AndSelf(a / 2); }
  }

  /** The test of the source, `n & (n - 1)`, recognises the powers of two. */
  lemma {:induction false} AndTest(n: nat)
    requires 0 < n
    ensures And(n, n - 1) == 0 <==> PowerOfTwo(n)
  {
    if n == 1 {
    } else if n % 2 == 0 {
      assert (n - 1) / 2 == n / 2 - 1 && (n - 1) % 2 == 1;
      AndTest(n / 2);
    } else {
      assert (n - 1) / 2 == n / 2;
      AndSelf(n / 2);
    }
  }

  function Pow2(k: nat): (n: nat)
    ensures n > 0
  {
    if k == 0 then 1 else 2 * Pow2(k - 1)
  }

  lemma {:induction false} PowerGap(n: nat, k: nat)
    requires PowerOfTwo(n) && n < 2 * Pow2(k)
    ensures n <= Pow2(k)
  {
    if k > 0 && n > 1 {
      PowerGap(n / 2, k - 1);
    }
  }

  /** Doubling the size of a table either works out or wraps around to 0. */
  lemma DoublingWraps(n: nat)
    requires PowerOfTwo(n) && n < UINT_LIMIT
    ensures (2 * n) % UINT_LIMIT == if 2 * n < UINT_LIMIT then 2 * n else 0
    ensures 2 * n < UINT_LIMIT || n == LARGEST
  {
    assert Pow2(6) == 64 && Pow2(11) == 2048 && Pow2(16) == 0x1_0000;
    assert Pow2(21) == 0x20_0000 && Pow2(26) == 0x400_0000 && Pow2(31) == 0x8000_0000;
    PowerGap(n, 31);
  }

  lemma DoubleIsPower(n: nat)
    requires PowerOfTwo(n)
    ensures PowerOfTwo(2 * n)
  {
    assert 2 * n / 2 == n;
  }

  // ----- probing -----

  /** The d-th slot that is looked at for a key whose home slot is `home`. */
  function Probe(home: nat, d: nat, size: nat): (i: nat)
    requires home < size
    ensures i < size
  {
    if d == 0 then home else Next(Probe(home, d - 1, size), size)
  }

  function Next(i: nat, size: nat): (j: nat)
    requires i < size
    ensures j == if i + 1 < size then i + 1 else 0
  {
    assert i + 1 == size ==> size % size == 0;
    (i + 1) % size
  }

  function Home(hash: Key -> nat, key: Key, size: nat): (i: nat)
    requires 0 < size
    ensures i < size
  {
    hash(key) % size
  }

  /** In a table of at most 8 slots, every slot is among the first 8 probes. */
  lemma SmallTableIsNear(home: nat, i: nat, size: nat) returns (d: nat)
    requires home < size <= MAX_CHAIN_LENGTH && i < size
    ensures d < MAX_CHAIN_LENGTH && Probe(home, d, size) == i
  {
    d := if home <= i then i - home else i + size - home;
    ProbeAt(home, d, size);
  }

  lemma {:induction false} ProbeAt(home: nat, d: nat, size: nat)
    requires home < size && d < size
    ensures Probe(home, d, size) == if home + d < size then home + d else home + d - size
  {
    if d > 0 {
      ProbeAt(home, d - 1, size);
    }
  }

  /** How far slot `i` is behind the home of a key with this hash, going round the table. */
  lemma RingDistance(h: nat, i: nat, size: nat)
    requires i < size
    ensures var d := (i - h) % size; h % size + d == i || h % size + d == i + size
  {
    var d, q := (i - h) % size, h / size + (i - h) / size;
    assert i == h % size + d + size * q by {
      assert h == size * (h / size) + h % size && i - h == size * ((i - h) / size) + d;
    }
    AtLeastOnce(size, q);
  }

  lemma AtLeastOnce(n: int, q: int)
    requires 0 <= n
    ensures (q >= 1 ==> n * q >= n) && (q <= -2 ==> n * q <= -2 * n) && n * -1 == -n
  {
  }

  /** A slot is among the first 8 probes exactly if it is less than 8 places behind the home. */
  lemma NearIsProbed(h: nat, i: nat, size: nat)
    requires i < size
    ensures (i - h) % size < MAX_CHAIN_LENGTH <==>
            exists d: nat :: d < MAX_CHAIN_LENGTH && Probe(h % size, d, size) == i
  {
    var home, e := h % size, (i - h) % size;
    RingDistance(h, i, size);
    ProbeAt(home, e, size);
    if d: nat :| d < MAX_CHAIN_LENGTH && Probe(home, d, size) == i {
      if d < size {
        ProbeAt(home, d, size);
      }
    }
  }

  // ----- crowds -----

  /** The hashes are less than 8 apart, going round the largest table. */
  predicate Around(a: nat, b: nat) {
    (a - b) % LARGEST < MAX_CHAIN_LENGTH || (b - a) % LARGEST < MAX_CHAIN_LENGTH
  }

  ghost predicate CrowdOf(hash: Key -> nat, keys: set<Key>, k: Key, others: set<Key>) {
    && k in keys && others <= keys && k !in others && |others| == MAX_CHAIN_LENGTH
    && forall o :: o in others ==> Around(hash(k), hash(o))
  }

  /** Too many keys for the largest table: as many as it has slots, or eight around another one. */
  ghost predicate Crowded(hash: Key -> nat, keys: set<Key>) {
    |keys| >= LARGEST || exists k, others :: CrowdOf(hash, keys, k, others)
  }

  lemma CrowdedMore(hash: Key -> nat, keys: set<Key>, more: set<Key>)
    requires Crowded(hash, keys) && keys <= more
    ensures Crowded(hash, more)
  {
    if k, others :| CrowdOf(hash, keys, k, others) {
      assert CrowdOf(hash, more, k, others);
    } else {
      SubsetIsSmaller(keys, more);
    }
  }

  lemma SubsetIsSmaller<T>(s: set<T>, t: set<T>)
    requires s <= t
    ensures |s| <= |t|
  {
    assert t == s + (t - s);
  }

  lemma AroundByProbes(a: nat, b: nat, d: nat, e: nat)
    requires d < MAX_CHAIN_LENGTH && e < MAX_CHAIN_LENGTH
    requires Probe(a % LARGEST, d, LARGEST) == Probe(b % LARGEST, e, LARGEST)
    ensures Around(a, b)
  {
    var home, other := a % LARGEST, b % LARGEST;
    ProbeAt(home, d, LARGEST);
    ProbeAt(other, e, LARGEST);
    hide Probe, Around;
    if d <= e {
      Remainder(a, b, e - d);
    } else {
      Remainder(b, a, d - e);
    }
    IsAround(a, b);
  }

  lemma Remainder(a: nat, b: nat, x: int)
    requires 0 <= x < LARGEST
    requires var y := a % LARGEST - b % LARGEST - x; y == 0 || y == LARGEST || y + LARGEST == 0
    ensures (a - b) % LARGEST == x
  {
  }

  lemma IsAround(a: nat, b: nat)
    requires (a - b) % LARGEST < MAX_CHAIN_LENGTH || (b - a) % LARGEST < MAX_CHAIN_LENGTH
    ensures Around(a, b)
  {
  }

  // ----- slots and the map they stand for -----

  /** The slot where key `k` is, `d` probes from its home. */
  function Place(hash: Key -> nat, k: Key, d: nat, size: nat): (i: nat)
    requires 0 < size
    ensures i < size
  {
    Probe(Home(hash, k, size), d, size)
  }

  /** A snapshot of the slots, the bindings they stand for, and how many probes each key is
      away from its home. */
  datatype Table = Table(slots: seq<Slot>, bindings: map<Key, int>, at: map<Key, nat>) {

    ghost predicate InUse(i: int) {
      0 <= i < |slots| && slots[i].inUse
    }

    /** The slots hold exactly the bindings, each key once and less than 8 probes away. */
    ghost predicate Consistent(hash: Key -> nat) {
      && 0 < |slots| && at.Keys == bindings.Keys
      && (forall i :: InUse(i) ==>
            && slots[i].key in at && bindings[slots[i].key] == slots[i].data
            && Place(hash, slots[i].key, at[slots[i].key], |slots|) == i)
      && (forall k :: k in at ==>
            && at[k] < MAX_CHAIN_LENGTH
            && InUse(Place(hash, k, at[k], |slots|)) && slots[Place(hash, k, at[k], |slots|)].key == k)
      && (forall i :: 0 <= i < |slots| && !slots[i].inUse ==> slots[i] == BLANK)
    }

    ghost function Stored(i: nat, key: Key, value: int, d: nat): Table
      requires i < |slots|
    {
      Table(slots[i := Slot(key, value, true)], bindings[key := value], at[key := d])
    }

    ghost function Cleared(i: nat): Table
      requires i < |slots|
    {
      Table(slots[i := BLANK], bindings - {slots[i].key}, at - {slots[i].key})
    }

    /** What `Consistent` says of one slot, and of one key. */
    ghost predicate SlotFits(hash: Key -> nat, i: nat)
      requires i < |slots|
    {
      var k := slots[i].key;
      if slots[i].inUse
      then k in at && k in bindings && bindings[k] == slots[i].data && Place(hash, k, at[k], |slots|) == i
      else slots[i] == BLANK
    }

    ghost predicate KeyFits(hash: Key -> nat, k: Key)
      requires k in at && 0 < |slots|
    {
      var p := Place(hash, k, at[k], |slots|);
      at[k] < MAX_CHAIN_LENGTH && InUse(p) && slots[p].key == k
    }

    lemma Fits(hash: Key -> nat)
      requires 0 < |slots| && at.Keys == bindings.Keys
      requires forall i :: 0 <= i < |slots| ==> SlotFits(hash, i)
      requires forall k :: k in at ==> KeyFits(hash, k)
      ensures Consistent(hash)
    {
      hide Place;
      assert forall i :: InUse(i) ==> SlotFits(hash, i);
      assert forall i :: 0 <= i < |slots| && !slots[i].inUse ==> SlotFits(hash, i);
      assert forall k :: k in at ==> KeyFits(hash, k);
    }

    lemma Shape(hash: Key -> nat)
      requires Consistent(hash)
      ensures 0 < |slots| && at.Keys == bindings.Keys
    {
    }

    /** Each key in use has one slot. */
    lemma OneSlotEach(hash: Key -> nat, i: int, j: int)
      requires Consistent(hash) && InUse(i) && InUse(j) && i != j
      ensures slots[i].key != slots[j].key
    {
    }

    lemma StoredFits(hash: Key -> nat, i: nat, key: Key, value: int, d: nat)
      requires Consistent(hash) && d < MAX_CHAIN_LENGTH && i == Place(hash, key, d, |slots|)
      requires if slots[i].inUse then slots[i].key == key else key !in bindings
      ensures var t := Stored(i, key, value, d);
              && (forall j :: 0 <= j < |slots| ==> t.SlotFits(hash, j))
              && forall k :: k in t.at ==> t.KeyFits(hash, k)
    {
      hide Place;
      var t := Stored(i, key, value, d);
      forall j | 0 <= j < |slots|
        ensures t.SlotFits(hash, j)
      {
        if InUse(j) && j != i && InUse(i) { OneSlotEach(hash, i, j); }
      }
    }

    lemma StoredConsistent(hash: Key -> nat, i: nat, key: Key, value: int, d: nat)
      requires Consistent(hash) && d < MAX_CHAIN_LENGTH && i == Place(hash, key, d, |slots|)
      requires if slots[i].inUse then slots[i].key == key else key !in bindings
      ensures Stored(i, key, value, d).Consistent(hash)
      ensures |Stored(i, key, value, d).bindings| == |bindings| + if slots[i].inUse then 0 else 1
    {
      hide Place, Consistent, SlotFits, KeyFits;
      Shape(hash);
      StoredFits(hash, i, key, value, d);
      Stored(i, key, value, d).Fits(hash);
      if slots[i].inUse { HasBinding(hash, i); }
    }

    lemma ClearedFits(hash: Key -> nat, i: nat)
      requires Consistent(hash) && InUse(i)
      ensures var t := Cleared(i);
              && (forall j :: 0 <= j < |slots| ==> t.SlotFits(hash, j))
              && forall k :: k in t.at ==> t.KeyFits(hash, k)
    {
      hide Place;
      var t := Cleared(i);
      forall j | 0 <= j < |slots|
        ensures t.SlotFits(hash, j)
      {
        if InUse(j) && j != i { OneSlotEach(hash, i, j); }
      }
    }

    lemma ClearedConsistent(hash: Key -> nat, i: nat)
      requires Consistent(hash) && InUse(i)
      ensures Cleared(i).Consistent(hash)
      ensures |Cleared(i).bindings| == |bindings| - 1
    {
      hide Place, Consistent, SlotFits, KeyFits;
      Shape(hash);
      HasBinding(hash, i);
      ClearedFits(hash, i);
      Cleared(i).Fits(hash);
      RemovedKey(bindings, slots[i].key);
    }

    /** The keys in the first `n` slots from the home of `key` on, in the largest table. */
    lemma {:induction false} KeysAround(hash: Key -> nat, key: Key, n: nat) returns (others: set<Key>)
      requires Consistent(hash) && |slots| == LARGEST && key !in bindings && n <= MAX_CHAIN_LENGTH
      requires forall d: nat :: d < n ==> InUse(Place(hash, key, d, |slots|))
      ensures others <= bindings.Keys && |others| == n && forall o :: o in others ==> Around(hash(key), hash(o))
      ensures forall o :: o in others ==> exists d: nat :: d < n && slots[Place(hash, key, d, |slots|)].key == o
    {
      others := {};
      if n > 0 {
        var before := KeysAround(hash, key, n - 1);
        var i := Place(hash, key, n - 1, |slots|);
        var o := slots[i].key;
        HasBinding(hash, i);
        forall d: nat | d < n - 1
          ensures slots[Place(hash, key, d, |slots|)].key != o
        {
          ProbeAt(Home(hash, key, |slots|), d, |slots|);
          ProbeAt(Home(hash, key, |slots|), n - 1, |slots|);
          OneSlotEach(hash, Place(hash, key, d, |slots|), i);
        }
        HasPlace(hash, i);
        AroundByProbes(hash(key), hash(o), n - 1, at[o]);
        others := before + {o};
      }
    }

    lemma HasPlace(hash: Key -> nat, i: nat)
      requires Consistent(hash) && InUse(i)
      ensures slots[i].key in at && at[slots[i].key] < MAX_CHAIN_LENGTH
      ensures Place(hash, slots[i].key, at[slots[i].key], |slots|) == i
    {
    }

    /** A table whose slots are all taken holds at least as many bindings as slots. */
    lemma FullMeansMany(hash: Key -> nat)
      requires Consistent(hash) && forall i :: 0 <= i < |slots| ==> slots[i].inUse
      ensures |bindings| >= |slots|
    {
      var keys := KeysUpTo(hash, |slots|);
      assert bindings.Keys == keys + (bindings.Keys - keys);
    }

    lemma {:induction false} KeysUpTo(hash: Key -> nat, n: nat) returns (keys: set<Key>)
      requires Consistent(hash) && n <= |slots| && forall i :: 0 <= i < |slots| ==> slots[i].inUse
      ensures |keys| == n && keys <= bindings.Keys
      ensures forall k :: k in keys ==> exists i :: 0 <= i < n && slots[i].key == k
    {
      keys := {};
      if n > 0 {
        keys := KeysUpTo(hash, n - 1);
        assert forall i :: 0 <= i < n ==> InUse(i);
        keys := keys + {slots[n - 1].key};
      }
    }

    lemma HasBinding(hash: Key -> nat, i: int)
      requires Consistent(hash) && 0 <= i < |slots| && slots[i].inUse
      ensures InUse(i) && slots[i].key in bindings && bindings[slots[i].key] == slots[i].data
    {
    }

    lemma NoZeros(hash: Key -> nat)
      requires Consistent(hash)
      requires forall j :: 0 <= j < |slots| && slots[j].inUse ==> slots[j].data != 0
      ensures WithoutZeros(bindings) == bindings
    {
    }

    lemma NothingLeft(hash: Key -> nat)
      requires Consistent(hash) && forall i :: 0 <= i < |slots| ==> !slots[i].inUse
      ensures bindings == map[]
    {
      assert forall i :: !InUse(i);
    }
  }

  /** The bindings to a value that is not 0. */
  ghost function WithoutZeros(b: map<Key, int>): map<Key, int> {
    map k | k in b && b[k] != 0 :: b[k]
  }

  lemma RemovedKey(b: map<Key, int>, key: Key)
    requires key in b
    ensures |b - {key}| == |b| - 1
  {
    assert (b - {key}).Keys == b.Keys - {key};
    assert |(b - {key}).Keys| == |b.Keys| - 1;
  }

  // ----- memory -----

  /** Some table larger than `n` slots is refused. */
  ghost predicate RefusedAbove(grant: nat -> bool, n: nat) {
    exists size: nat :: size > n && !grant(size)
  }

  /** Twice the slots can be had. */
  predicate MayDouble(grant: nat -> bool, n: nat) {
    2 * n < UINT_LIMIT && grant(2 * n)
  }

  // ----- the table -----

  class HashMap {
    const hash: Key -> nat
    var tableSize: nat
    var size: nat
    var data: array<Slot>
    ghost var table: Table

    ghost function Bindings(): map<Key, int>
      reads this
    {
      table.bindings
    }

    ghost predicate Valid()
      reads this, data
    {
      && data.Length == tableSize < UINT_LIMIT && PowerOfTwo(tableSize)
      && size == |table.bindings|
      && data[..] == table.slots && table.Consistent(hash)
    }

    /** The table is not full, and the key is in it or one of the 8 slots from its home on is free. */
    ghost predicate HasRoom(key: Key)
      reads this, data
    {
      size < tableSize == data.Length && (key in Bindings() || FreeNear(key))
    }

    ghost predicate FreeNear(key: Key)
      requires tableSize == data.Length
      reads this, data
    {
      exists i :: 0 <= i < tableSize && !data[i].inUse && (i - hash(key)) % tableSize < MAX_CHAIN_LENGTH
    }

    constructor (hash: Key -> nat, tableSize: nat)
      requires PowerOfTwo(tableSize) && tableSize < UINT_LIMIT
      ensures Valid() && fresh(data) && Bindings() == map[]
      ensures this.tableSize == tableSize && this.hash == hash
    {
      this.hash := hash;
      this.tableSize, size := tableSize, 0;
      data := new Slot[tableSize](_ => BLANK);
      table := Table(seq(tableSize, _ => BLANK), map[], map[]);
    }

    /** Fails exactly if the size is not a power of two, or the memory is not granted. */
    static method Create(hash: Key -> nat, initialSize: nat, granted: bool) returns (m: HashMap?)
      requires initialSize < UINT_LIMIT
      ensures m == null <==> !PowerOfTwo(initialSize) || !granted
      ensures m != null ==> fresh(m) && fresh(m.data) && m.Valid() && m.Bindings() == map[]
      ensures m != null ==> m.tableSize == initialSize && m.hash == hash && PowerOfTwo(initialSize)
    {
      if initialSize > 0 { AndTest(initialSize); }
      if initialSize == 0 || And(initialSize, initialSize - 1) != 0 {
        return null;
      }
      if !granted {
        return null;
      }
      m := new HashMap(hash, initialSize);
    }

    /** The probing loop of get and remove: it looks at all 8 slots, in use or not. */
    method Locate(key: Key) returns (found: bool, curr: nat)
      requires 0 < data.Length == tableSize
      ensures found ==> curr < tableSize && data[curr].inUse && data[curr].key == key
      ensures !found ==> forall d :: 0 <= d < MAX_CHAIN_LENGTH ==>
                           IsNot(Probe(Home(hash, key, tableSize), d, tableSize), key)
    {
      curr := Home(hash, key, tableSize);
      ghost var home := curr;
      var i := 0;
      while i < MAX_CHAIN_LENGTH
        invariant 0 <= i <= MAX_CHAIN_LENGTH && curr == Probe(home, i, tableSize)
        invariant forall d :: 0 <= d < i ==> IsNot(Probe(home, d, tableSize), key)
      {
        if data[curr].inUse {
          if data[curr].key == key {
            return true, curr;
          }
        }
        curr := Next(curr, tableSize);
        i := i + 1;
      }
      found := false;
    }

    /** The stored value, and 0 if there is none: the two are not told apart. */
    method Get(key: Key) returns (value: int)
      requires Valid()
      ensures value == if key in Bindings() then Bindings()[key] else 0
    {
      var found, curr := Locate(key);
      if found {
        assert table.InUse(curr);
        return data[curr].data;
      }
      NotFound(key);
      return 0;
    }

    ghost predicate IsNot(i: nat, key: Key)
      reads this, data
    {
      i < data.Length && !(data[i].inUse && data[i].key == key)
    }

    /** A key that is in none of its 8 slots is not in the table. */
    lemma NotFound(key: Key)
      requires Valid()
      requires forall d :: 0 <= d < MAX_CHAIN_LENGTH ==> IsNot(Probe(Home(hash, key, tableSize), d, tableSize), key)
      ensures key !in Bindings()
    {
      forall i | table.InUse(i)
        ensures table.slots[i].key != key
      {
        var home, d := Home(hash, table.slots[i].key, tableSize), table.at[table.slots[i].key];
        assert Probe(home, d, tableSize) == i;
      }
    }

    /** Blank out slot `i`. */
    method Clear(i: nat)
      requires Valid() && table.InUse(i)
      modifies this`size, this`table, data
      ensures Valid() && table == old(table).Cleared(i)
    {
      hide Table.Consistent, PowerOfTwo;
      table.ClearedConsistent(hash, i);
      data[i] := BLANK;
      table := table.Cleared(i);
      size := size - 1;
    }

    method Remove(key: Key) returns (flag: int)
      requires Valid()
      modifies this`size, this`table, data
      ensures Valid() && flag == (if key in old(Bindings()) then 0 else 1)
      ensures Bindings() == old(Bindings()) - {key}
    {
      var found, curr := Locate(key);
      if found {
        assert table.InUse(curr);
        Clear(curr);
        return 0;
      }
      NotFound(key);
      return 1;
    }

    /** Find the slot that has the key, or else the first free one from its home on, `d` probes away.
        Fails exactly if the table is full, even when it has the key, or if all 8 slots are taken by
        other keys. */
    method FindSlot(key: Key) returns (found: bool, index: nat, ghost d: nat)
      requires Valid()
      ensures found ==> d < MAX_CHAIN_LENGTH && index == Place(hash, key, d, tableSize)
      ensures found ==> if data[index].inUse then data[index].key == key else key !in Bindings()
      ensures found ==> size < tableSize
      ensures found && !data[index].inUse ==> forall e: nat :: e < d ==> data[Place(hash, key, e, tableSize)].inUse
      ensures size < tableSize && tableSize <= MAX_CHAIN_LENGTH ==> found
      ensures size < tableSize && key in Bindings() ==> found
      ensures found <==> HasRoom(key)
      ensures found <==>
                && size < tableSize
                && (key in Bindings()
                    || exists i :: 0 <= i < tableSize && !data[i].inUse
                                   && (i - hash(key)) % tableSize < 8)
    {
      hide FreeNear, PowerOfTwo, Probe, Table.Consistent;
      RoomMeans(key);
      if size >= tableSize {
        return false, 0, 0;
      }
      table.Shape(hash);
      var start := Home(hash, key, tableSize);
      var totalInUse;
      found, index, d, totalInUse := FindKey(start, key);
      if found {
        table.HasBinding(hash, index);
        return;
      }
      NotFound(key);
      RoomIsFree(key);
      if totalInUse < MAX_CHAIN_LENGTH {
        found, index, d := FirstFree(start);
      } else {
        SmallTableHasRoom(start);
      }
    }

    lemma HasSlots()
      requires Valid()
      ensures 0 < tableSize == data.Length
    {
    }

    lemma FreeIsProbed(key: Key, i: nat) returns (d: nat)
      requires i < tableSize && (i - hash(key)) % tableSize < MAX_CHAIN_LENGTH
      ensures d < MAX_CHAIN_LENGTH && Probe(Home(hash, key, tableSize), d, tableSize) == i
    {
      hide Probe;
      NearIsProbed(hash(key), i, tableSize);
      d :| d < MAX_CHAIN_LENGTH && Probe(hash(key) % tableSize, d, tableSize) == i;
    }

    lemma ProbedIsNear(key: Key, d: nat)
      requires 0 < tableSize && d < MAX_CHAIN_LENGTH
      ensures (Probe(Home(hash, key, tableSize), d, tableSize) - hash(key)) % tableSize < MAX_CHAIN_LENGTH
    {
      hide Probe;
      NearIsProbed(hash(key), Probe(Home(hash, key, tableSize), d, tableSize), tableSize);
    }

    lemma RoomIsFree(key: Key)
      requires Valid()
      ensures 0 < tableSize
      ensures FreeNear(key) <==>
              exists d: nat :: d < MAX_CHAIN_LENGTH && !data[Probe(Home(hash, key, tableSize), d, tableSize)].inUse
    {
      hide Valid, Probe, Home;
      HasSlots();
      if i :| 0 <= i < tableSize && !data[i].inUse && (i - hash(key)) % tableSize < MAX_CHAIN_LENGTH {
        var d := FreeIsProbed(key, i);
      }
      if d: nat :| d < MAX_CHAIN_LENGTH && !data[Probe(Home(hash, key, tableSize), d, tableSize)].inUse {
        ProbedIsNear(key, d);
      }
    }

    lemma RoomMeans(key: Key)
      requires tableSize == data.Length
      ensures HasRoom(key) <==>
                && size < tableSize
                && (key in Bindings()
                    || exists i :: 0 <= i < tableSize && !data[i].inUse
                                   && (i - hash(key)) % tableSize < MAX_CHAIN_LENGTH)
    {
    }

    /** Where the largest table has no room for a key, there is a crowd. */
    lemma NoRoomMeansCrowd(key: Key)
      requires Valid() && !HasRoom(key) && tableSize == LARGEST
      ensures Crowded(hash, Bindings().Keys + {key})
    {
      hide FreeNear, PowerOfTwo, Probe, Table.Consistent, Around;
      var keys := Bindings().Keys + {key};
      if size >= tableSize {
        SubsetIsSmaller(Bindings().Keys, keys);
      } else {
        RoomIsFree(key);
        forall d: nat | d < MAX_CHAIN_LENGTH
          ensures table.InUse(Place(hash, key, d, |table.slots|))
        {
          assert data[Probe(Home(hash, key, tableSize), d, tableSize)].inUse;
        }
        var others := table.KeysAround(hash, key, MAX_CHAIN_LENGTH);
        assert CrowdOf(hash, keys, key, others);
      }
    }

    /** The first pass: look for the key and count the slots in use. */
    method FindKey(start: nat, key: Key) returns (found: bool, curr: nat, ghost d: nat, totalInUse: nat)
      requires start < tableSize == data.Length
      ensures found ==> d < MAX_CHAIN_LENGTH && curr == Probe(start, d, tableSize)
      ensures found ==> data[curr].inUse && data[curr].key == key
      ensures !found ==> forall d :: 0 <= d < MAX_CHAIN_LENGTH ==> IsNot(Probe(start, d, tableSize), key)
      ensures !found ==> totalInUse <= MAX_CHAIN_LENGTH
      ensures !found ==> (totalInUse == MAX_CHAIN_LENGTH <==>
                          forall d :: 0 <= d < MAX_CHAIN_LENGTH ==> data[Probe(start, d, tableSize)].inUse)
    {
      curr, d, totalInUse := start, 0, 0;
      var i := 0;
      while i < MAX_CHAIN_LENGTH
        invariant 0 <= i <= MAX_CHAIN_LENGTH && curr == Probe(start, i, tableSize) && d == i
        invariant forall d :: 0 <= d < i ==> IsNot(Probe(start, d, tableSize), key)
        invariant totalInUse <= i
        invariant totalInUse == i <==> forall d :: 0 <= d < i ==> data[Probe(start, d, tableSize)].inUse
      {
        totalInUse := totalInUse + if data[curr].inUse then 1 else 0;
        if data[curr].inUse && data[curr].key == key {
          return true, curr, d, totalInUse;
        }
        curr := Next(curr, tableSize);
        i, d := i + 1, d + 1;
      }
      found := false;
    }

    /** The second pass: the first slot that is not in use. */
    method FirstFree(start: nat) returns (found: bool, curr: nat, ghost d: nat)
      requires start < tableSize == data.Length
      ensures found <==> exists d :: 0 <= d < MAX_CHAIN_LENGTH && !data[Probe(start, d, tableSize)].inUse
      ensures found ==> d < MAX_CHAIN_LENGTH && curr == Probe(start, d, tableSize) && !data[curr].inUse
      ensures found ==> forall e: nat :: e < d ==> data[Probe(start, e, tableSize)].inUse
    {
      curr, d := start, 0;
      var i := 0;
      while i < MAX_CHAIN_LENGTH
        invariant 0 <= i <= MAX_CHAIN_LENGTH && curr == Probe(start, i, tableSize) && d == i
        invariant forall d :: 0 <= d < i ==> data[Probe(start, d, tableSize)].inUse
      {
        if !data[curr].inUse {
          return true, curr, d;
        }
        curr := Next(curr, tableSize);
        i, d := i + 1, d + 1;
      }
      found := false;
    }

    /** In a table of at most 8 slots that is not full, 8 probes find a free one. */
    lemma SmallTableHasRoom(start: nat)
      requires Valid() && start < tableSize
      requires forall d :: 0 <= d < MAX_CHAIN_LENGTH ==> data[Probe(start, d, tableSize)].inUse
      ensures size < tableSize ==> tableSize > MAX_CHAIN_LENGTH
    {
      if tableSize <= MAX_CHAIN_LENGTH {
        forall i | 0 <= i < tableSize
          ensures table.slots[i].inUse
        {
          var d := SmallTableIsNear(start, i, tableSize);
          assert table.slots[i] == data[Probe(start, d, tableSize)];
        }
        table.FullMeansMany(hash);
      }
    }

    /** Iterate over the slots in use and blank those whose value is 0. */
    method RemoveZeros()
      requires Valid()
      modifies this`size, this`table, data
      ensures Valid() && Bindings() == WithoutZeros(old(Bindings()))
    {
      hide Table.Consistent, PowerOfTwo;
      var i := 0;
      while i < tableSize
        invariant 0 <= i <= tableSize && Valid()
        invariant forall j :: 0 <= j < i && table.slots[j].inUse ==> table.slots[j].data != 0
        invariant WithoutZeros(Bindings()) == WithoutZeros(old(Bindings()))
      {
        assert data[i] == table.slots[i];
        if data[i].inUse {
          if data[i].data == 0 {
            table.HasBinding(hash, i);
            ghost var was := table;
            Clear(i);
            assert table.slots == was.slots[i := BLANK];
          }
        }
        i := i + 1;
      }
      table.NoZeros(hash);
    }

    // ----- inserting -----

    /** How far the table is from the largest size: what rehashing uses up. */
    ghost function Room(): nat
      requires Valid()
      reads this, data
    {
      UINT_LIMIT - tableSize
    }

    /** `b` has no binding that `this` did not have. */
    ghost predicate Within(b: map<Key, int>)
      reads this
    {
      Bindings().Keys <= b.Keys && forall k :: k in Bindings() ==> Bindings()[k] == b[k]
    }

    /** Insert or overwrite a binding; 0 means it has been done. The table grows exactly if there is no
        room for the key. A failed put leaves a table that may have lost bindings, but has no wrong
        ones; it fails only if memory was refused, or if the keys are too many for the largest table.
        No size is asked for twice in a put, and `grant` says what the answer is for each. */
    method Put(key: Key, value: int, grant: nat -> bool) returns (flag: int)
      requires Valid()
      modifies this, data
      ensures Valid() && (data == old(data) || fresh(data)) && tableSize >= old(tableSize)
      ensures flag == 0 || flag == 1
      ensures flag == 0 ==> Bindings() == old(Bindings())[key := value]
      ensures flag == 1 ==> Within(old(Bindings()))
      ensures old(size) < old(tableSize) <= MAX_CHAIN_LENGTH ==> flag == 0 && tableSize == old(tableSize)
      ensures old(HasRoom(key)) ==> flag == 0 && tableSize == old(tableSize)
      ensures flag == 0 && !old(HasRoom(key)) ==> tableSize > old(tableSize) && MayDouble(grant, old(tableSize))
      ensures flag == 1 ==> RefusedAbove(grant, old(tableSize)) || Crowded(hash, old(Bindings()).Keys + {key})
      decreases Room(), 1
    {
      hide Table.Consistent, PowerOfTwo, HasRoom, Crowded, FreeNear;
      table.Shape(hash);
      var found, index: nat;
      ghost var d: nat;
      found, index, d := FindSlot(key);
      while !found
        invariant Valid() && (data == old(data) || fresh(data)) && 0 < old(tableSize) <= tableSize
        invariant Bindings() == old(Bindings())
        invariant found ==> d < MAX_CHAIN_LENGTH && index == Place(hash, key, d, tableSize)
        invariant found ==> if data[index].inUse then data[index].key == key else key !in Bindings()
        invariant old(size) < old(tableSize) <= MAX_CHAIN_LENGTH ==> found && tableSize == old(tableSize)
        invariant found <==> HasRoom(key)
        invariant old(HasRoom(key)) ==> found && tableSize == old(tableSize)
        invariant tableSize == old(tableSize) ==> (found <==> old(HasRoom(key)))
        invariant tableSize > old(tableSize) ==> MayDouble(grant, old(tableSize))
        decreases UINT_LIMIT - tableSize, !found
      {
        if tableSize == LARGEST { NoRoomMeansCrowd(key); }
        ghost var keys := Bindings().Keys;
        var failed := Rehash(grant);
        if failed != 0 {
          if Crowded(hash, keys) {
            CrowdedMore(hash, keys, keys + {key});
          }
          return 1;
        }
        found, index, d := FindSlot(key);
      }
      Store(index, key, value, d);
      flag := 0;
    }

    method Store(index: nat, key: Key, value: int, ghost d: nat)
      requires Valid() && d < MAX_CHAIN_LENGTH && index == Place(hash, key, d, tableSize)
      requires if data[index].inUse then data[index].key == key else key !in Bindings()
      modifies this`size, this`table, data
      ensures Valid() && Bindings() == old(Bindings())[key := value]
    {
      hide Table.Consistent, PowerOfTwo, Place;
      assert data[index] == table.slots[index];
      table.StoredConsistent(hash, index, key, value, d);
      if !data[index].inUse {
        size := size + 1;
      }
      data[index] := Slot(key, value, true);
      table := table.Stored(index, key, value, d);
    }

    /** Move everything into a table of twice the size. The size wraps around at 2^32, and no
        table of size 0 is created. */
    method Rehash(grant: nat -> bool) returns (flag: int)
      requires Valid()
      modifies this, data
      ensures Valid() && (data == old(data) || fresh(data))
      ensures flag == 0 || flag == 1
      ensures flag == 0 ==> Bindings() == old(Bindings()) && tableSize > old(tableSize)
      ensures flag == 0 ==> MayDouble(grant, old(tableSize))
      ensures flag == 1 ==> Within(old(Bindings())) && tableSize == old(tableSize)
      ensures flag == 1 ==> || RefusedAbove(grant, old(tableSize)) || old(tableSize) == LARGEST
                            || Crowded(hash, old(Bindings()).Keys)
      decreases Room(), 0
    {
      hide Table.Consistent, PartOf, PowerOfTwo, Crowded;
      var newSize := (2 * tableSize) % UINT_LIMIT;
      DoublingWraps(tableSize);
      DoubleIsPower(tableSize);
      var newHash: HashMap?;
      newHash := Create(hash, newSize, grant(newSize));
      if newHash == null {
        return 1;
      }
      flag := MoveInto(newHash, grant);
      if flag != 0 {
        return flag;
      }
      tableSize, size, data := newHash.tableSize, newHash.size, newHash.data;
      table := newHash.table;
    }

    /** The first `i` slots have been moved into `other`. */
    ghost predicate Moved(i: nat, other: HashMap, all: map<Key, int>)
      reads this, data, other, other.data
    {
      && Valid() && other.Valid() && other != this && other.data != data && other.hash == hash
      && PartOf(Bindings(), other.Bindings(), all)
      && i <= tableSize && forall j :: 0 <= j < i ==> !table.slots[j].inUse
    }

    /** Iterate over the slots in use, putting each into `other` and blanking it here. Stops at
        the first put that fails; what has been moved by then is not moved back. */
    method MoveInto(other: HashMap, grant: nat -> bool) returns (flag: int)
      requires Valid() && other.Valid() && other != this && other.data != data
      requires other.hash == hash && other.Bindings() == map[]
      modifies this`size, this`table, data, other, other.data
      ensures Valid() && (flag == 0 || flag == 1)
      ensures flag == 0 ==> other.Valid() && other.Bindings() == old(Bindings())
      ensures flag == 0 ==> other.tableSize >= old(other.tableSize)
      ensures flag == 0 ==> other.data == old(other.data) || fresh(other.data)
      ensures flag == 1 ==> Within(old(Bindings()))
      ensures flag == 1 ==> RefusedAbove(grant, old(other.tableSize)) || Crowded(hash, old(Bindings()).Keys)
      decreases other.Room(), 4
    {
      hide Table.Consistent, PowerOfTwo, Crowded;
      var i := 0;
      while i < tableSize
        invariant Moved(i, other, old(Bindings()))
        invariant other.data == old(other.data) || fresh(other.data)
        invariant other.tableSize >= old(other.tableSize)
      {
        var r := VisitSlot(i, other, old(Bindings()), grant);
        if 0 < r {
          return 1;
        }
        i := i + 1;
      }
      table.NothingLeft(hash);
      flag := 0;
    }

    /** What the iteration does at slot `i`. */
    method VisitSlot(i: nat, other: HashMap, ghost all: map<Key, int>, grant: nat -> bool) returns (r: int)
      requires Moved(i, other, all) && i < tableSize
      modifies this`size, this`table, data, other, other.data
      ensures r == 0 || r == 1
      ensures r == 0 ==> Moved(i + 1, other, all)
      ensures r == 0 ==> other.data == old(other.data) || fresh(other.data)
      ensures r == 0 ==> other.tableSize >= old(other.tableSize)
      ensures r == 1 ==> Valid() && Bindings() == old(Bindings())
      ensures r == 1 ==> RefusedAbove(grant, old(other.tableSize)) || Crowded(hash, all.Keys)
      decreases other.Room(), 3
    {
      hide Table.Consistent, PartOf, PowerOfTwo, Crowded;
      r := 0;
      assert data[i] == table.slots[i];
      if data[i].inUse {
        ghost var here, there, key := Bindings(), other.Bindings(), data[i].key;
        table.HasBinding(hash, i);
        r := MoveSlot(i, other, grant);
        PartHas(here, there, all, key);
        if Crowded(hash, there.Keys + {key}) {
          CrowdedMore(hash, there.Keys + {key}, all.Keys);
        }
        if r == 0 {
          assert table.slots == old(table.slots)[i := BLANK];
          assert PartOf(Bindings(), other.Bindings(), all) by {
            PartMoves(here, there, all, key);
          }
        }
      }
      assert r == 0 ==> forall j :: 0 <= j < i + 1 ==> !table.slots[j].inUse;
    }

    /** What the iterator does to a slot in use. */
    method MoveSlot(i: nat, other: HashMap, grant: nat -> bool) returns (r: int)
      requires Valid() && other.Valid() && other != this && other.data != data && table.InUse(i)
      modifies this`size, this`table, data, other, other.data
      ensures r == 0 || r == 1
      ensures r == 0 ==> Valid() && other.Valid() && table == old(table).Cleared(i)
      ensures r == 0 ==> other.Bindings() == old(other.Bindings())[old(data[i].key) := old(data[i].data)]
      ensures r == 0 ==> other.data == old(other.data) || fresh(other.data)
      ensures r == 0 ==> other.tableSize >= old(other.tableSize)
      ensures r == 1 ==> Valid() && Bindings() == old(Bindings())
      ensures r == 1 ==> || RefusedAbove(grant, old(other.tableSize))
                         || Crowded(other.hash, old(other.Bindings()).Keys + {old(data[i].key)})
      decreases other.Room(), 2
    {
      hide Table.Consistent, PowerOfTwo, Crowded, HasRoom;
      r := other.Put(data[i].key, data[i].data, grant);
      if r == 0 {
        Clear(i);
      }
    }
  }

  /** The bindings of `all` are divided between `here` and `there`. */
  ghost predicate PartOf(here: map<Key, int>, there: map<Key, int>, all: map<Key, int>) {
    here.Keys !! there.Keys && all == here + there
  }

  lemma PartHas(here: map<Key, int>, there: map<Key, int>, all: map<Key, int>, key: Key)
    requires PartOf(here, there, all) && key in here
    ensures there.Keys + {key} <= all.Keys
  {
  }

  lemma PartMoves(here: map<Key, int>, there: map<Key, int>, all: map<Key, int>, key: Key)
    requires PartOf(here, there, all) && key in here
    ensures PartOf(here - {key}, there[key := here[key]], all)
  {
  }
}
