/** The open-addressing hash table keyed by strings (CsLox/TableNew.cs).

    Slots hold an optional key and a value. A slot with no key is either truly
    empty (its value is nil) or a tombstone left by a removal (its value is
    true). Lookups probe linearly from the key's home slot, pass over
    tombstones, and stop at a matching key or at the first truly empty slot;
    an insertion of an absent key reuses the first tombstone it passed.

    The slot array is an immutable sequence; the table's capacity is its
    length. The host's string hash is the parameter `hash`. */
module Tables {
  import opened Wrappers
  import opened Values

  datatype Entry = Entry(key: Option<string>, value: Value)

  /** A truly empty slot: no key and a nil value. Probing stops here. */
  predicate IsEmpty(x: Entry) { x.key.None? && IsNil(x.value) }

  /** A deleted slot: no key but a non-nil value. Probing passes over it. */
  predicate IsTombstone(x: Entry) { x.key.None? && !IsNil(x.value) }

  const EmptyEntry: Entry := Entry(None, NilVal)

  /** What a removal writes into the slot it frees. */
  const Tombstone: Entry := Entry(None, BoolVal(true))

  /** The host's string hash (process-randomised, so left as a parameter). */
  type Hash = string -> int

  /** Capacity of a freshly constructed table. */
  const InitialCapacity: nat := 10

  // ---------------------------------------------------------------------
  // Probe geometry
  // ---------------------------------------------------------------------

  /** The absolute value of the key's hash, where probing starts. */
  function AbsHash(hash: Hash, key: string): nat {
    var code := hash(key);
    if code < 0 then -code else code
  }

  /** The home slot of a key in an array of n slots. */
  function Home(hash: Hash, key: string, n: nat): (h: nat)
    requires n > 0
    ensures h < n
  {
    AbsHash(hash, key) % n
  }

  /** The slot visited j steps after start, wrapping around the end. */
  function Slot(start: nat, j: nat, n: nat): (s: nat)
    requires start < n && j < n
    ensures s < n
  {
    if start + j < n then start + j else start + j - n
  }

  /** How many probe steps lead from start to slot s: the inverse of Slot. */
  function Dist(start: nat, s: nat, n: nat): (j: nat)
    requires start < n && s < n
    ensures j < n && Slot(start, j, n) == s
  {
    if start <= s then s - start else s + n - start
  }

  lemma DistOfSlot(start: nat, j: nat, n: nat)
    requires start < n && j < n
    ensures Dist(start, Slot(start, j, n), n) == j
  {
  }

  // ---------------------------------------------------------------------
  // Probing
  // ---------------------------------------------------------------------

  ghost predicate HasEmpty(e: seq<Entry>) {
    exists i :: 0 <= i < |e| && IsEmpty(e[i])
  }

  /** Some truly empty slot lies at probe distance j or later. */
  ghost predicate EmptyAhead(e: seq<Entry>, start: nat, j: nat)
    requires start < |e|
  {
    exists m :: j <= m < |e| && IsEmpty(e[Slot(start, m, |e|)])
  }

  /** Every slot at probe distance below d is occupied and does not hold key. */
  ghost predicate PassedOver(e: seq<Entry>, key: string, start: nat, d: nat)
    requires start < |e| && d <= |e|
  {
    forall m :: 0 <= m < d ==>
      !IsEmpty(e[Slot(start, m, |e|)]) && e[Slot(start, m, |e|)].key != Some(key)
  }

  ghost predicate NoTombstoneBefore(e: seq<Entry>, start: nat, d: nat)
    requires start < |e| && d <= |e|
  {
    forall m :: 0 <= m < d ==> !IsTombstone(e[Slot(start, m, |e|)])
  }

  /** tomb records the first tombstone among the slots probed so far, if any. */
  ghost predicate FirstTombstoneSoFar(e: seq<Entry>, start: nat, j: nat, tomb: Option<nat>)
    requires start < |e| && j <= |e|
  {
    match tomb
    case None => NoTombstoneBefore(e, start, j)
    case Some(t) =>
      && t < |e|
      && Dist(start, t, |e|) < j
      && IsTombstone(e[t])
      && NoTombstoneBefore(e, start, Dist(start, t, |e|))
  }

  /** No truly empty slot interrupts the probe path from start to slot s. */
  ghost predicate ChainIntact(e: seq<Entry>, start: nat, s: nat)
    requires start < |e| && s < |e|
  {
    forall m :: 0 <= m < Dist(start, s, |e|) ==> !IsEmpty(e[Slot(start, m, |e|)])
  }

  /** The probe loop of findEntry from probe distance j on, with tomb the first
      tombstone seen so far. */
  function FindFrom(e: seq<Entry>, key: string, start: nat, j: nat, tomb: Option<nat>): (r: nat)
    requires start < |e| && j < |e|
    requires EmptyAhead(e, start, j)
    requires PassedOver(e, key, start, j)
    requires FirstTombstoneSoFar(e, start, j, tomb)
    ensures r < |e|
    ensures e[r].key == Some(key) || e[r].key.None?
    ensures PassedOver(e, key, start, Dist(start, r, |e|))
    ensures e[r].key.None? ==> NoTombstoneBefore(e, start, Dist(start, r, |e|))
    ensures e[r].key.None? ==>
      forall p :: 0 <= p < |e| && e[p].key == Some(key) && j <= Dist(start, p, |e|) ==>
        !ChainIntact(e, start, p)
    decreases |e| - j
  {
    var i := Slot(start, j, |e|);
    DistOfSlot(start, j, |e|);
    if e[i].key.None? then
      if IsNil(e[i].value) then
        if tomb.None? then i else tomb.value
      else
        FindFrom(e, key, start, j + 1, if tomb.None? then Some(i) else tomb)
    else if e[i].key.value == key then
      i
    else
      FindFrom(e, key, start, j + 1, tomb)
  }

  lemma EmptyAheadOfStart(e: seq<Entry>, start: nat)
    requires HasEmpty(e) && start < |e|
    ensures EmptyAhead(e, start, 0)
  {
    var i :| 0 <= i < |e| && IsEmpty(e[i]);
    var m := Dist(start, i, |e|);
    assert IsEmpty(e[Slot(start, m, |e|)]);
  }

  /** findEntry: the slot holding key, or else the slot an insertion of key
      would use: the first tombstone on the probe path, or the truly empty
      slot that ends it. It needs a truly empty slot to terminate. */
  function FindEntry(e: seq<Entry>, key: string, hash: Hash): (r: nat)
    requires HasEmpty(e)
    ensures r < |e|
    ensures e[r].key == Some(key) || e[r].key.None?
    ensures PassedOver(e, key, Home(hash, key, |e|), Dist(Home(hash, key, |e|), r, |e|))
    ensures e[r].key.None? ==> NoTombstoneBefore(e, Home(hash, key, |e|), Dist(Home(hash, key, |e|), r, |e|))
    ensures e[r].key.None? ==>
      forall p :: 0 <= p < |e| && e[p].key == Some(key) ==> !ChainIntact(e, Home(hash, key, |e|), p)
  {
    var start := Home(hash, key, |e|);
    EmptyAheadOfStart(e, start);
    FindFrom(e, key, start, 0, None)
  }

  // ---------------------------------------------------------------------
  // Counting and contents
  // ---------------------------------------------------------------------

  /** Number of slots that are not truly empty: live entries plus tombstones. */
  ghost function Occupied(e: seq<Entry>): (n: nat)
    ensures n <= |e|
  {
    if |e| == 0 then 0 else Occupied(e[..|e| - 1]) + (if IsEmpty(e[|e| - 1]) then 0 else 1)
  }

  /** Number of slots holding a key. */
  ghost function LiveCount(e: seq<Entry>): (n: nat)
    ensures n <= Occupied(e)
  {
    if |e| == 0 then 0 else LiveCount(e[..|e| - 1]) + (if e[|e| - 1].key.Some? then 1 else 0)
  }

  ghost predicate DistinctKeys(e: seq<Entry>) {
    forall i, j :: 0 <= i < |e| && 0 <= j < |e| && e[i].key.Some? && e[i].key == e[j].key ==> i == j
  }

  ghost predicate NoTombstones(e: seq<Entry>) {
    forall i :: 0 <= i < |e| ==> !IsTombstone(e[i])
  }

  /** Every live key can be reached from its home slot without crossing a
      truly empty slot. */
  ghost predicate ChainsIntact(e: seq<Entry>, hash: Hash)
    requires |e| > 0
  {
    forall s :: 0 <= s < |e| && e[s].key.Some? ==> ChainIntact(e, Home(hash, e[s].key.value, |e|), s)
  }

  /** The key-to-value map the slots represent. */
  ghost function Contents(e: seq<Entry>): map<string, Value>
    requires DistinctKeys(e)
  {
    map i | 0 <= i < |e| && e[i].key.Some? :: e[i].key.value := e[i].value
  }

  lemma ContentsAt(e: seq<Entry>, i: nat)
    requires DistinctKeys(e) && i < |e| && e[i].key.Some?
    ensures e[i].key.value in Contents(e) && Contents(e)[e[i].key.value] == e[i].value
  {
  }

  lemma InContents(e: seq<Entry>, k: string) returns (i: nat)
    requires DistinctKeys(e) && k in Contents(e)
    ensures i < |e| && e[i].key == Some(k) && Contents(e)[k] == e[i].value
  {
    i :| 0 <= i < |e| && e[i].key.Some? && e[i].key.value == k;
  }

  /** One slot counted towards Occupied. */
  function Weight(x: Entry): nat { if IsEmpty(x) then 0 else 1 }

  lemma {:induction false} OccupiedUpdate(e: seq<Entry>, i: nat, x: Entry)
    requires i < |e|
    ensures Occupied(e[i := x]) == Occupied(e) - Weight(e[i]) + Weight(x)
    decreases |e|
  {
    var e' := e[i := x];
    var n := |e| - 1;
    if i == n {
      assert e'[..n] == e[..n];
    } else {
      assert e'[..n] == e[..n][i := x];
      OccupiedUpdate(e[..n], i, x);
    }
  }

  lemma {:induction false} SpareSlotIsEmpty(e: seq<Entry>)
    requires Occupied(e) < |e|
    ensures HasEmpty(e)
    decreases |e|
  {
    var n := |e| - 1;
    if !IsEmpty(e[n]) {
      SpareSlotIsEmpty(e[..n]);
      var i :| 0 <= i < n && IsEmpty(e[..n][i]);
      assert IsEmpty(e[i]);
    }
  }

  lemma {:induction false} ContentsSnoc(e: seq<Entry>, n: nat)
    requires DistinctKeys(e) && n < |e|
    ensures DistinctKeys(e[..n]) && DistinctKeys(e[..n + 1])
    ensures e[n].key.Some? ==> e[n].key.value !in Contents(e[..n])
    ensures Contents(e[..n + 1]) ==
      if e[n].key.Some? then Contents(e[..n])[e[n].key.value := e[n].value] else Contents(e[..n])
  {
    PrefixKeysDistinct(e, n);
    PrefixKeysDistinct(e, n + 1);
    var a, b := e[..n], e[..n + 1];
    var want := if e[n].key.Some? then Contents(a)[e[n].key.value := e[n].value] else Contents(a);
    SnocWithin(e, n);
    forall k | k in want
      ensures k in Contents(b)
    {
      if k in Contents(a) {
        var i := InContents(a, k);
        assert a[i] == b[i];
        ContentsAt(b, i);
      } else {
        ContentsAt(b, n);
      }
    }
  }

  lemma PrefixKeysDistinct(e: seq<Entry>, n: nat)
    requires DistinctKeys(e) && n <= |e|
    ensures DistinctKeys(e[..n])
  {
    assert forall p :: 0 <= p < n ==> e[..n][p] == e[p];
  }

  /** Every binding of the longer prefix is a binding the shorter one, updated
      with slot n, predicts. */
  lemma SnocWithin(e: seq<Entry>, n: nat)
    requires DistinctKeys(e) && n < |e|
    ensures e[n].key.Some? ==> e[n].key.value !in Contents(e[..n])
    ensures var want := if e[n].key.Some? then Contents(e[..n])[e[n].key.value := e[n].value] else Contents(e[..n]);
      forall k :: k in Contents(e[..n + 1]) ==> k in want && Contents(e[..n + 1])[k] == want[k]
  {
    PrefixKeysDistinct(e, n);
    PrefixKeysDistinct(e, n + 1);
    var a, b := e[..n], e[..n + 1];
    if e[n].key.Some? {
      forall i | 0 <= i < n && a[i].key.Some?
        ensures a[i].key != e[n].key
      {
        assert a[i] == e[i];
      }
    }
    var want := if e[n].key.Some? then Contents(a)[e[n].key.value := e[n].value] else Contents(a);
    forall k | k in Contents(b)
      ensures k in want && Contents(b)[k] == want[k]
    {
      var i := InContents(b, k);
      if i < n {
        assert a[i] == b[i];
        ContentsAt(a, i);
      }
    }
  }

  lemma {:induction false} ContentsSize(e: seq<Entry>)
    requires DistinctKeys(e)
    ensures |Contents(e)| == LiveCount(e)
    decreases |e|
  {
    if |e| == 0 {
      assert Contents(e) == map[];
    } else {
      var n := |e| - 1;
      ContentsSnoc(e, n);
      assert e[..n + 1] == e;
      ContentsSize(e[..n]);
    }
  }

  /** LiveCount grows along prefixes, by one at each live slot. */
  lemma {:induction false} LiveCountPrefix(e: seq<Entry>, n: nat)
    requires n < |e|
    ensures LiveCount(e[..n + 1]) == LiveCount(e[..n]) + (if e[n].key.Some? then 1 else 0)
    ensures LiveCount(e[..n + 1]) <= LiveCount(e)
    decreases |e| - n
  {
    assert e[..n + 1][..n] == e[..n];
    if n + 1 < |e| {
      LiveCountPrefix(e, n + 1);
    } else {
      assert e[..n + 1] == e;
    }
  }

  // ---------------------------------------------------------------------
  // The table
  // ---------------------------------------------------------------------

  /** count covers live entries and tombstones alike; the capacity is the
      number of slots. */
  datatype Table = Table(count: nat, entries: seq<Entry>) {
    function Capacity(): nat { |entries| }
  }

  /** The table's invariant: the load stays at or below three quarters, count
      is exact, keys are distinct and every live key is reachable from its
      home slot. */
  ghost predicate Valid(t: Table, hash: Hash) {
    && InitialCapacity <= |t.entries|
    && 4 * t.count <= 3 * |t.entries|
    && t.count == Occupied(t.entries)
    && DistinctKeys(t.entries)
    && ChainsIntact(t.entries, hash)
  }

  /** A valid table always has a truly empty slot, so every probe ends. */
  lemma ValidHasEmpty(t: Table, hash: Hash)
    requires Valid(t, hash)
    ensures HasEmpty(t.entries)
  {
    SpareSlotIsEmpty(t.entries);
  }

  /** In a valid table findEntry lands on key's own slot exactly when key is
      present. */
  lemma FindInValid(t: Table, hash: Hash, key: string)
    requires Valid(t, hash) && HasEmpty(t.entries)
    ensures var i := FindEntry(t.entries, key, hash);
      && (t.entries[i].key.Some? <==> key in Contents(t.entries))
      && (key in Contents(t.entries) ==> Contents(t.entries)[key] == t.entries[i].value)
  {
    var e := t.entries;
    var i := FindEntry(e, key, hash);
    if key in Contents(e) {
      var p := InContents(e, key);
      assert ChainIntact(e, Home(hash, key, |e|), p);
    }
    if e[i].key.Some? {
      ContentsAt(e, i);
    }
  }

  /** Writing key into slot i, where key already lives or where key may be
      inserted, keeps the invariant's shape and updates the contents. */
  lemma Place(e: seq<Entry>, hash: Hash, key: string, v: Value, i: nat)
    requires 0 < |e| && i < |e| && DistinctKeys(e) && ChainsIntact(e, hash)
    requires e[i].key == Some(key) || (e[i].key.None? && key !in Contents(e))
    requires ChainIntact(e, Home(hash, key, |e|), i)
    ensures var e' := e[i := Entry(Some(key), v)];
      && DistinctKeys(e')
      && ChainsIntact(e', hash)
      && Contents(e') == Contents(e)[key := v]
      && Occupied(e') == Occupied(e) + (if IsEmpty(e[i]) then 1 else 0)
  {
    OccupiedUpdate(e, i, Entry(Some(key), v));
    PlaceKeepsKeysDistinct(e, key, v, i);
    PlaceKeepsChains(e, hash, key, v, i);
    PlaceUpdatesContents(e, key, v, i);
  }

  lemma PlaceKeepsKeysDistinct(e: seq<Entry>, key: string, v: Value, i: nat)
    requires i < |e| && DistinctKeys(e)
    requires e[i].key == Some(key) || (e[i].key.None? && key !in Contents(e))
    ensures DistinctKeys(e[i := Entry(Some(key), v)])
  {
    forall q | 0 <= q < |e| && e[q].key == Some(key)
      ensures q == i
    {
      ContentsAt(e, q);
    }
  }

  lemma PlaceKeepsChains(e: seq<Entry>, hash: Hash, key: string, v: Value, i: nat)
    requires 0 < |e| && i < |e| && ChainsIntact(e, hash)
    requires ChainIntact(e, Home(hash, key, |e|), i)
    ensures ChainsIntact(e[i := Entry(Some(key), v)], hash)
  {
    var e' := e[i := Entry(Some(key), v)];
    forall s | 0 <= s < |e'| && e'[s].key.Some?
      ensures ChainIntact(e', Home(hash, e'[s].key.value, |e'|), s)
    {
      var start := Home(hash, e'[s].key.value, |e|);
      forall m | 0 <= m < Dist(start, s, |e|)
        ensures !IsEmpty(e'[Slot(start, m, |e|)])
      {
        if s != i {
          assert ChainIntact(e, start, s);
        }
      }
    }
  }

  lemma PlaceUpdatesContents(e: seq<Entry>, key: string, v: Value, i: nat)
    requires i < |e| && DistinctKeys(e)
    requires e[i].key == Some(key) || (e[i].key.None? && key !in Contents(e))
    ensures DistinctKeys(e[i := Entry(Some(key), v)])
    ensures Contents(e[i := Entry(Some(key), v)]) == Contents(e)[key := v]
  {
    var e' := e[i := Entry(Some(key), v)];
    PlaceKeepsKeysDistinct(e, key, v, i);
    var want := Contents(e)[key := v];
    forall k | k in Contents(e')
      ensures k in want && Contents(e')[k] == want[k]
    {
      var q := InContents(e', k);
      if q != i {
        ContentsAt(e, q);
      }
    }
    forall k | k in want
      ensures k in Contents(e')
    {
      if k == key {
        ContentsAt(e', i);
      } else {
        var q := InContents(e, k);
        ContentsAt(e', q);
      }
    }
  }

  /** Rehashing: the loop of adjustCapacity, copying every live entry of src
      from index i on into the blank array acc, counting them. */
  function Rehash(src: seq<Entry>, hash: Hash, i: nat, acc: seq<Entry>, count: nat): (r: (seq<Entry>, nat))
    requires i <= |src| && DistinctKeys(src)
    requires LiveCount(src) < |acc|
    requires count == LiveCount(src[..i]) && Occupied(acc) == count
    requires NoTombstones(acc) && DistinctKeys(acc) && ChainsIntact(acc, hash)
    requires Contents(acc) == Contents(src[..i])
    ensures |r.0| == |acc|
    ensures r.1 == LiveCount(src) && Occupied(r.0) == r.1
    ensures NoTombstones(r.0) && DistinctKeys(r.0) && ChainsIntact(r.0, hash)
    ensures Contents(r.0) == Contents(src)
    decreases |src| - i
  {
    if i == |src| then
      assert src[..i] == src;
      (acc, count)
    else
      ContentsSnoc(src, i);
      LiveCountPrefix(src, i);
      if src[i].key.None? then
        Rehash(src, hash, i + 1, acc, count)
      else
        var key := src[i].key.value;
        SpareSlotIsEmpty(acc);
        var dest := FindEntry(acc, key, hash);
        assert IsEmpty(acc[dest]) by {
          if acc[dest].key.Some? {
            ContentsAt(acc, dest);
          }
        }
        Place(acc, hash, key, src[i].value, dest);
        assert Entry(Some(key), src[i].value) == src[i];
        Rehash(src, hash, i + 1, acc[dest := src[i]], count + 1)
  }

  /** adjustCapacity: a blank array of the given capacity holding exactly the
      live entries, no tombstones, and count reset to the number of live keys. */
  function AdjustCapacity(t: Table, hash: Hash, capacity: nat): (r: Table)
    requires Valid(t, hash) && t.count < capacity
    ensures |r.entries| == capacity
    ensures r.count == |Contents(t.entries)| && r.count == Occupied(r.entries)
    ensures NoTombstones(r.entries) && DistinctKeys(r.entries) && ChainsIntact(r.entries, hash)
    ensures Contents(r.entries) == Contents(t.entries)
  {
    var blank := seq(capacity, _ => EmptyEntry);
    AllEmpty(blank);
    assert t.entries[..0] == [];
    assert Contents(blank) == map[] == Contents(t.entries[..0]);
    ContentsSize(t.entries);
    var (entries, count) := Rehash(t.entries, hash, 0, blank, 0);
    Table(count, entries)
  }

  lemma {:induction false} AllEmpty(e: seq<Entry>)
    requires forall i :: 0 <= i < |e| ==> IsEmpty(e[i])
    ensures Occupied(e) == 0 && NoTombstones(e) && DistinctKeys(e)
    decreases |e|
  {
    if |e| > 0 {
      AllEmpty(e[..|e| - 1]);
    }
  }

  /** Table(): ten truly empty slots. */
  function NewTable(): (t: Table)
    ensures t.count == 0 && t.Capacity() == InitialCapacity
    ensures forall i :: 0 <= i < |t.entries| ==> IsEmpty(t.entries[i])
  {
    Table(0, seq(InitialCapacity, _ => EmptyEntry))
  }

  /** A new table is valid under any hash and maps nothing. */
  lemma NewTableValid(hash: Hash)
    ensures Valid(NewTable(), hash)
    ensures Contents(NewTable().entries) == map[]
  {
    AllEmpty(NewTable().entries);
  }

  /** The outcome of Get: the found flag and the out value. */
  datatype Lookup = Lookup(found: bool, value: Value)

  /** Get: whether key is present, and its value (nil when absent). */
  function Get(t: Table, hash: Hash, key: string): (r: Lookup)
    requires Valid(t, hash)
    ensures r.found <==> key in Contents(t.entries)
    ensures r.value == if r.found then Contents(t.entries)[key] else NilVal
  {
    if t.count == 0 then
      ContentsSize(t.entries);
      Lookup(false, NilVal)
    else
      ValidHasEmpty(t, hash);
      var i := FindEntry(t.entries, key, hash);
      FindInValid(t, hash, key);
      if t.entries[i].key.None? then Lookup(false, NilVal) else Lookup(true, t.entries[i].value)
  }

  /** Set: binds key to v, growing the table to twice its capacity first when
      one more entry would push the load past three quarters. The flag tells
      whether key was new. */
  function Set(t: Table, hash: Hash, key: string, v: Value): (r: (Table, bool))
    requires Valid(t, hash)
    ensures Valid(r.0, hash)
    ensures Contents(r.0.entries) == Contents(t.entries)[key := v]
    ensures r.1 <==> key !in Contents(t.entries)
    ensures r.0.Capacity() == t.Capacity() || r.0.Capacity() == 2 * t.Capacity()
    ensures r.0.Capacity() != t.Capacity() <==> 4 * (t.count + 1) > 3 * t.Capacity()
  {
    var t1 := if 4 * (t.count + 1) > 3 * |t.entries| then AdjustCapacity(t, hash, 2 * |t.entries|) else t;
    ContentsSize(t.entries);
    assert Valid(t1, hash) && 4 * (t1.count + 1) <= 3 * |t1.entries|;
    ValidHasEmpty(t1, hash);
    var i := FindEntry(t1.entries, key, hash);
    FindInValid(t1, hash, key);
    var isNewKey := t1.entries[i].key.None?;
    var count := if isNewKey && IsNil(t1.entries[i].value) then t1.count + 1 else t1.count;
    Place(t1.entries, hash, key, v, i);
    (Table(count, t1.entries[i := Entry(Some(key), v)]), isNewKey)
  }

  /** Remove: replaces key's entry by a tombstone; the flag tells whether key
      was present. count is unchanged, as the tombstone still occupies the slot. */
  function Remove(t: Table, hash: Hash, key: string): (r: (Table, bool))
    requires Valid(t, hash)
    ensures Valid(r.0, hash)
    ensures r.1 <==> key in Contents(t.entries)
    ensures Contents(r.0.entries) == Contents(t.entries) - {key}
  {
    if t.count == 0 then
      ContentsSize(t.entries);
      assert Contents(t.entries) == map[];
      (t, false)
    else
      ValidHasEmpty(t, hash);
      var i := FindEntry(t.entries, key, hash);
      FindInValid(t, hash, key);
      if t.entries[i].key.None? then
        assert key !in Contents(t.entries);
        assert Contents(t.entries) - {key} == Contents(t.entries);
        (t, false)
      else
        assert t.entries[i].key.value == key;
        Bury(t.entries, hash, i);
        (Table(t.count, t.entries[i := Tombstone]), true)
  }

  /** Turning a live slot into a tombstone keeps the invariant's shape and
      drops exactly that key. */
  lemma Bury(e: seq<Entry>, hash: Hash, i: nat)
    requires 0 < |e| && i < |e| && e[i].key.Some? && DistinctKeys(e) && ChainsIntact(e, hash)
    ensures var e' := e[i := Tombstone];
      && DistinctKeys(e')
      && ChainsIntact(e', hash)
      && Contents(e') == Contents(e) - {e[i].key.value}
      && Occupied(e') == Occupied(e)
  {
    OccupiedUpdate(e, i, Tombstone);
    BuryKeepsKeysDistinct(e, i);
    BuryKeepsChains(e, hash, i);
    BuryDropsKey(e, i);
  }

  lemma BuryKeepsKeysDistinct(e: seq<Entry>, i: nat)
    requires i < |e| && DistinctKeys(e)
    ensures DistinctKeys(e[i := Tombstone])
  {
    var e' := e[i := Tombstone];
    forall p, q | 0 <= p < |e'| && 0 <= q < |e'| && e'[p].key.Some? && e'[p].key == e'[q].key
      ensures p == q
    {
      assert e'[p] == e[p] && e'[q] == e[q];
    }
  }

  lemma BuryKeepsChains(e: seq<Entry>, hash: Hash, i: nat)
    requires 0 < |e| && i < |e| && ChainsIntact(e, hash)
    ensures ChainsIntact(e[i := Tombstone], hash)
  {
    var e' := e[i := Tombstone];
    forall s | 0 <= s < |e'| && e'[s].key.Some?
      ensures ChainIntact(e', Home(hash, e'[s].key.value, |e'|), s)
    {
      var start := Home(hash, e'[s].key.value, |e|);
      assert ChainIntact(e, start, s);
    }
  }

  lemma BuryDropsKey(e: seq<Entry>, i: nat)
    requires i < |e| && e[i].key.Some? && DistinctKeys(e)
    ensures DistinctKeys(e[i := Tombstone])
    ensures Contents(e[i := Tombstone]) == Contents(e) - {e[i].key.value}
  {
    var e' := e[i := Tombstone];
    BuryKeepsKeysDistinct(e, i);
    var want := Contents(e) - {e[i].key.value};
    forall k | k in Contents(e')
      ensures k in want && Contents(e')[k] == want[k]
    {
      var q := InContents(e', k);
      ContentsAt(e, q);
    }
    forall k | k in want
      ensures k in Contents(e')
    {
      var q := InContents(e, k);
      ContentsAt(e', q);
    }
  }

  /** tableAddAll: copies every live entry of from into to, in slot order. */
  method AddAll(from: Table, to: Table, hash: Hash) returns (r: Table)
    requires Valid(from, hash) && Valid(to, hash)
    ensures Valid(r, hash)
    ensures Contents(r.entries) == Contents(to.entries) + Contents(from.entries)
  {
    r := to;
    var i := 0;
    assert from.entries[..0] == [];
    while i < from.Capacity()
      invariant 0 <= i <= |from.entries|
      invariant Valid(r, hash)
      invariant Contents(r.entries) == Contents(to.entries) + Contents(from.entries[..i])
    {
      ContentsSnoc(from.entries, i);
      var entry := from.entries[i];
      if entry.key.Some? {
        var (next, _) := Set(r, hash, entry.key.value, entry.value);
        UnionSnoc(Contents(to.entries), Contents(from.entries[..i]), entry.key.value, entry.value);
        r := next;
      }
      i := i + 1;
    }
    assert from.entries[..i] == from.entries;
  }

  /** Get after Set: the key reads back as the value just set, and every
      other key reads as it did before. */
  lemma GetAfterSet(t: Table, hash: Hash, key: string, v: Value, other: string)
    requires Valid(t, hash)
    ensures Get(Set(t, hash, key, v).0, hash, key) == Lookup(true, v)
    ensures other != key ==> Get(Set(t, hash, key, v).0, hash, other) == Get(t, hash, other)
  {
  }

  /** Get after Remove: the key is gone, and every other key reads as it did
      before. */
  lemma GetAfterRemove(t: Table, hash: Hash, key: string, other: string)
    requires Valid(t, hash)
    ensures Get(Remove(t, hash, key).0, hash, key) == Lookup(false, NilVal)
    ensures other != key ==> Get(Remove(t, hash, key).0, hash, other) == Get(t, hash, other)
  {
  }

  /** A table whose count is zero holds nothing: Get misses with nil and
      Remove reports false. */
  lemma EmptyTableMisses(t: Table, hash: Hash, key: string)
    requires Valid(t, hash) && t.count == 0
    ensures Get(t, hash, key) == Lookup(false, NilVal)
    ensures !Remove(t, hash, key).1
  {
    ContentsSize(t.entries);
  }

  lemma UnionSnoc(a: map<string, Value>, b: map<string, Value>, k: string, v: Value)
    ensures (a + b)[k := v] == a + b[k := v]
  {
  }

  // ---------------------------------------------------------------------
  // The probe loop as the source spells it, and freshly allocated slots
  // ---------------------------------------------------------------------

  /** The findEntry loop as written, run for at most fuel iterations: the
      index is reduced modulo the capacity at the top of each iteration and
      incremented at its end. None means the loop has not returned yet. */
  function ProbeLoop(e: seq<Entry>, key: string, index: nat, tomb: Option<nat>, fuel: nat): Option<nat>
    requires |e| > 0
    decreases fuel
  {
    if fuel == 0 then None
    else
      var i := index % |e|;
      if e[i].key.None? then
        if IsNil(e[i].value) then
          Some(if tomb.None? then i else tomb.value)
        else
          ProbeLoop(e, key, i + 1, if tomb.None? then Some(i) else tomb, fuel - 1)
      else if e[i].key.value == key then
        Some(i)
      else
        ProbeLoop(e, key, i + 1, tomb, fuel - 1)
  }

  lemma {:induction false} ProbeLoopFrom(e: seq<Entry>, key: string, start: nat, j: nat, tomb: Option<nat>, index: nat, fuel: nat)
    requires start < |e| && j < |e|
    requires EmptyAhead(e, start, j)
    requires PassedOver(e, key, start, j)
    requires FirstTombstoneSoFar(e, start, j, tomb)
    requires index % |e| == Slot(start, j, |e|)
    requires fuel >= |e| - j
    ensures ProbeLoop(e, key, index, tomb, fuel) == Some(FindFrom(e, key, start, j, tomb))
    decreases |e| - j
  {
    var i := Slot(start, j, |e|);
    DistOfSlot(start, j, |e|);
    var n := |e|;
    if !IsEmpty(e[i]) && e[i].key != Some(key) {
      var tomb' := if e[i].key.None? && tomb.None? then Some(i) else tomb;
      ProbeStep(e, key, start, j, tomb);
      NextSlot(start, j, n);
      ProbeLoopFrom(e, key, start, j + 1, tomb', i + 1, fuel - 1);
    }
  }

  /** Passing over an occupied slot that does not hold key keeps the probe
      loop's preconditions one step further on. */
  lemma ProbeStep(e: seq<Entry>, key: string, start: nat, j: nat, tomb: Option<nat>)
    requires start < |e| && j < |e|
    requires EmptyAhead(e, start, j)
    requires PassedOver(e, key, start, j)
    requires FirstTombstoneSoFar(e, start, j, tomb)
    requires !IsEmpty(e[Slot(start, j, |e|)]) && e[Slot(start, j, |e|)].key != Some(key)
    ensures j + 1 < |e|
    ensures EmptyAhead(e, start, j + 1)
    ensures PassedOver(e, key, start, j + 1)
    ensures var i := Slot(start, j, |e|);
      FirstTombstoneSoFar(e, start, j + 1, if e[i].key.None? && tomb.None? then Some(i) else tomb)
  {
    DistOfSlot(start, j, |e|);
  }

  lemma NextSlot(start: nat, j: nat, n: nat)
    requires start < n && j + 1 < n
    ensures (Slot(start, j, n) + 1) % n == Slot(start, j + 1, n)
  {
    var i := Slot(start, j, n);
    if i + 1 < n {
      assert (i + 1) % n == i + 1;
    } else {
      assert (i + 1) % n == 0;
    }
  }

  /** The slot-and-distance formulation of findEntry is the source's loop:
      started at the absolute hash with no tombstone seen, the loop returns
      within capacity iterations, and returns FindEntry's slot. */
  lemma ProbeLoopIsFindEntry(e: seq<Entry>, key: string, hash: Hash)
    requires HasEmpty(e)
    ensures ProbeLoop(e, key, AbsHash(hash, key), None, |e|) == Some(FindEntry(e, key, hash))
  {
    EmptyAheadOfStart(e, Home(hash, key, |e|));
    ProbeLoopFrom(e, key, Home(hash, key, |e|), 0, None, AbsHash(hash, key), |e|);
  }

  /** What `new Entry[n]` holds in the source: no key and an all-zero Value
      struct, whose kind is the first enum member, ValBool. */
  const ZeroEntry: Entry := Entry(None, Value(ValBool, 0.0))

  /** A slot array as the source allocates it: every slot reads as a
      tombstone, so none is truly empty. */
  function AllocatedAsWritten(n: nat): (e: seq<Entry>)
    ensures |e| == n
    ensures forall i :: 0 <= i < n ==> IsTombstone(e[i])
    ensures !HasEmpty(e)
  {
    seq(n, _ => ZeroEntry)
  }

  /** On a freshly allocated array the source's probe loop never returns,
      however many iterations it is given. */
  lemma {:induction false} AsWrittenProbeNeverReturns(n: nat, key: string, index: nat, tomb: Option<nat>, fuel: nat)
    requires n > 0
    ensures ProbeLoop(AllocatedAsWritten(n), key, index, tomb, fuel) == None
    decreases fuel
  {
    if fuel > 0 {
      var i := index % n;
      AsWrittenProbeNeverReturns(n, key, i + 1, if tomb.None? then Some(i) else tomb, fuel - 1);
    }
  }
}
