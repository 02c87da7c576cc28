/**
 The expiring key-value storage. `FlatState` is the specification: a plain map from keys to
 records, each with the value's expiry and the moment at which the key is due to be evicted.
 The class keeps the source's dictionary, its heap of expirations with lazily deleted ("ghost")
 entries, and the dictionary that says which heap entry is current, and refines that map.
 Keys stand for any totally ordered type; times are reals.
 */
module TimedStorages {
  import opened Collections

  type Key = int

  datatype Timed<+V> = Timed(value: V, expiry: real)

  datatype Record<+V> = Record(value: V, expiry: real, evictAt: real)

  datatype Limit = Unlimited | AtMost(size: nat)

  predicate Over(limit: Limit, n: nat) {
    limit.AtMost? && n > limit.size
  }

  datatype FlatState<+V> = FlatState(records: map<Key, Record<V>>, frozen: bool, limit: Limit)

  // ----- the order of eviction

  datatype Entry = Entry(expiration: real, key: Key)

  /** Heap order: by expiration, then by key. */
  predicate Precedes(a: Entry, b: Entry) {
    a.expiration < b.expiration || (a.expiration == b.expiration && a.key < b.key)
  }

  function EntryOf<V>(m: map<Key, Record<V>>, k: Key): Entry
    requires k in m
  {
    Entry(m[k].evictAt, k)
  }

  /** k is due to leave before every other key. */
  predicate IsFirst<V>(m: map<Key, Record<V>>, k: Key) {
    k in m && forall j :: j in m && j != k ==> Precedes(EntryOf(m, k), EntryOf(m, j))
  }

  lemma {:induction false} FirstExists<V>(m: map<Key, Record<V>>)
    requires m != map[]
    ensures exists k :: IsFirst(m, k)
    decreases |m|
  {
    var k := SomeKey(m);
    var rest := m - {k};
    if rest == map[] {
      assert forall j :: j in m && j != k ==> j in rest;
      assert IsFirst(m, k);
    } else {
      assert rest.Keys == m.Keys - {k};
      FirstExists(rest);
      var f :| IsFirst(rest, f);
      if Precedes(EntryOf(m, k), EntryOf(m, f)) {
        forall j | j in m && j != k
          ensures Precedes(EntryOf(m, k), EntryOf(m, j))
        {
          assert j in rest && (j == f || Precedes(EntryOf(rest, f), EntryOf(rest, j)));
        }
        assert IsFirst(m, k);
      } else {
        forall j | j in m && j != f
          ensures Precedes(EntryOf(m, f), EntryOf(m, j))
        {
          assert j == k || (j in rest && Precedes(EntryOf(rest, f), EntryOf(rest, j)));
        }
        assert IsFirst(m, f);
      }
    }
  }

  function First<V>(m: map<Key, Record<V>>): (k: Key)
    requires m != map[]
    ensures IsFirst(m, k)
  {
    FirstExists(m);
    var k :| k in m && IsFirst(m, k);
    k
  }

  lemma FirstUnique<V>(m: map<Key, Record<V>>, k: Key)
    requires IsFirst(m, k)
    ensures m != map[] && First(m) == k
  {
    assert k in m;
  }

  // ----- the specification

  /** Evict the first key while it is overdue or there are too many. */
  function Purge<V>(m: map<Key, Record<V>>, limit: Limit, now: real): map<Key, Record<V>>
    decreases |m|
  {
    if m == map[] || (m[First(m)].evictAt >= now && !Over(limit, |m|)) then m
    else
      assert (m - {First(m)}).Keys == m.Keys - {First(m)};
      Purge(m - {First(m)}, limit, now)
  }

  function Purged<V>(s: FlatState<V>, now: real): FlatState<V> {
    if s.frozen then s else s.(records := Purge(s.records, s.limit, now))
  }

  /** Store a value. The guard and the purge read the clock separately. A refused value still
      reschedules the eviction of the key that it failed to replace. */
  function Store<V>(s: FlatState<V>, k: Key, v: V, expiry: real, now: real, later: real): (FlatState<V>, bool) {
    if expiry < now && !s.frozen then (s, false)
    else if k in s.records then
      if s.records[k].expiry < expiry then (s.(records := s.records[k := Record(v, expiry, expiry)]), true)
      else (s.(records := s.records[k := s.records[k].(evictAt := expiry)]), false)
    else (Purged(s.(records := s.records[k := Record(v, expiry, expiry)]), later), true)
  }

  function Lookup<V>(s: FlatState<V>, k: Key): Option<Timed<V>> {
    if k in s.records then Some(Timed(s.records[k].value, s.records[k].expiry)) else None
  }

  /** The key that is due to leave first, with its value. */
  function Head<V>(s: FlatState<V>): (r: Option<(Key, Timed<V>)>)
    ensures r.None? <==> s.records == map[]
    ensures r.Some? ==> IsFirst(s.records, r.value.0) && Lookup(s, r.value.0) == Some(r.value.1)
  {
    if s.records == map[] then None
    else var k := First(s.records); Some((k, Timed(s.records[k].value, s.records[k].expiry)))
  }

  function Remove<V>(s: FlatState<V>, k: Key): FlatState<V> {
    s.(records := s.records - {k})
  }

  // ----- what the specification guarantees

  /** No key outlives its value. */
  ghost predicate Bounded<V>(s: FlatState<V>) {
    forall k :: k in s.records ==> s.records[k].evictAt <= s.records[k].expiry
  }

  /** What a purge leaves: overdue keys are gone, the size is within the limit, the rest is
      unchanged, and a key that was not overdue is missing only if there was no room for it: then
      the limit is reached by keys due after it. */
  lemma {:induction false} PurgeMeaning<V>(m: map<Key, Record<V>>, limit: Limit, now: real)
    ensures var p := Purge(m, limit, now);
            && (forall k :: k in p ==> k in m && p[k] == m[k] && m[k].evictAt >= now)
            && !Over(limit, |p|)
            && (forall k :: k in m && k !in p && m[k].evictAt >= now ==>
                  && limit.AtMost? && |p| == limit.size
                  && forall j :: j in p ==> Precedes(EntryOf(m, k), EntryOf(m, j)))
    decreases |m|
  {
    if m == map[] {
    } else if m[First(m)].evictAt >= now && !Over(limit, |m|) {
    } else {
      var f := First(m);
      var rest := m - {f};
      assert rest.Keys == m.Keys - {f};
      PurgeMeaning(rest, limit, now);
      var p := Purge(rest, limit, now);
      if m[f].evictAt >= now {
        PurgeFills(rest, limit, now);
      }
    }
  }

  /** Once the first key is not overdue, a purge only makes room, one key at a time. */
  lemma {:induction false} PurgeFills<V>(m: map<Key, Record<V>>, limit: Limit, now: real)
    requires limit.AtMost? && |m| >= limit.size
    requires forall k :: k in m ==> m[k].evictAt >= now
    ensures |Purge(m, limit, now)| == limit.size
    decreases |m|
  {
    if Over(limit, |m|) {
      var rest := m - {First(m)};
      assert rest.Keys == m.Keys - {First(m)};
      PurgeFills(rest, limit, now);
    }
  }

  lemma UnlimitedPurge<V>(m: map<Key, Record<V>>, now: real)
    ensures Purge(m, Unlimited, now) == map k | k in m && m[k].evictAt >= now :: m[k]
  {
    PurgeMeaning(m, Unlimited, now);
    var kept := map k | k in m && m[k].evictAt >= now :: m[k];
    var p := Purge(m, Unlimited, now);
    forall k
      ensures k in p <==> k in kept
    {
      assert k in m && k !in p && m[k].evictAt >= now ==> Unlimited.AtMost?;
    }
  }

  lemma StoreBounded<V>(s: FlatState<V>, k: Key, v: V, expiry: real, now: real, later: real)
    requires Bounded(s)
    ensures Bounded(Store(s, k, v, expiry, now, later).0)
  {
    PurgeMeaning(s.records[k := Record(v, expiry, expiry)], s.limit, later);
  }

  /** The key holds this, or it had to leave: it was due before the purge, or the limit is reached. */
  ghost predicate HoldsOrLeft<V>(s: FlatState<V>, k: Key, held: Option<Timed<V>>, due: real, purge: real) {
    Lookup(s, k) ==
      (if k !in s.records && !s.frozen && (due < purge || (s.limit.AtMost? && |s.records| == s.limit.size)) then None
       else held)
  }

  /** A value is stored exactly if it comes in time, or to a frozen storage, and the key is new or held
      with an earlier expiration. Storing under a new key may make keys leave, the new one included.
      Otherwise only that key changes; a refused value leaves what every key holds. */
  lemma StoreAnswer<V>(s: FlatState<V>, k: Key, v: V, expiry: real, now: real, later: real)
    ensures var (s', stored) := Store(s, k, v, expiry, now, later);
            && s'.frozen == s.frozen && s'.limit == s.limit
            && (stored <==> (expiry >= now || s.frozen) && (k !in s.records || s.records[k].expiry < expiry))
            && (stored && k in s.records ==> Lookup(s', k) == Some(Timed(v, expiry)))
            && (!stored || k in s.records ==> forall j :: !stored || j != k ==> Lookup(s', j) == Lookup(s, j))
            && (stored && k !in s.records ==>
                  && HoldsOrLeft(s', k, Some(Timed(v, expiry)), expiry, later)
                  && (forall j :: j in s.records ==> HoldsOrLeft(s', j, Lookup(s, j), s.records[j].evictAt, later))
                  && (forall j :: j !in s.records && j != k ==> Lookup(s', j).None?))
  {
    PurgeMeaning(s.records[k := Record(v, expiry, expiry)], s.limit, later);
  }

  lemma StoredRecord<V>(s: FlatState<V>, k: Key, v: V, expiry: real, now: real, later: real)
    requires s.limit.Unlimited? && later <= expiry && Store(s, k, v, expiry, now, later).1
    ensures var s' := Store(s, k, v, expiry, now, later).0;
            s'.limit.Unlimited? && k in s'.records && s'.records[k] == Record(v, expiry, expiry)
  {
    UnlimitedPurge(s.records[k := Record(v, expiry, expiry)], later);
  }

  /** With room for every key a stored value is found until its expiration. */
  lemma StoredIsFound<V>(s: FlatState<V>, k: Key, v: V, expiry: real, now: real, later: real, t: real)
    requires s.limit.Unlimited? && later <= expiry && t <= expiry && Store(s, k, v, expiry, now, later).1
    ensures Lookup(Purged(Store(s, k, v, expiry, now, later).0, t), k) == Some(Timed(v, expiry))
  {
    var s' := Store(s, k, v, expiry, now, later).0;
    StoredRecord(s, k, v, expiry, now, later);
    UnlimitedPurge(s'.records, t);
  }

  /** An unfrozen lookup never returns an expired value, and leaves the size within the limit. */
  lemma LookupIsCurrent<V>(s: FlatState<V>, k: Key, now: real)
    requires Bounded(s) && !s.frozen
    ensures Bounded(Purged(s, now)) && !Over(s.limit, |Purged(s, now).records|)
    ensures Lookup(Purged(s, now), k).Some? ==> Lookup(Purged(s, now), k).value.expiry >= now
  {
    PurgeMeaning(s.records, s.limit, now);
  }

  /** The documented promise is that a stored value stays "at least until expiration_time". With
      room for every key, what the storage keeps after accepting or refusing a store to a key that
      it holds is available at a time t exactly if t is not past the expiration of that last store:
      the promise made to a refusing value is kept exactly if the refused one expires no earlier. */
  lemma RetentionExact<V>(s: FlatState<V>, k: Key, v: V, expiry: real, now: real, later: real, t: real)
    requires !s.frozen && s.limit.Unlimited? && k in s.records && expiry >= now
    ensures var (s', stored) := Store(s, k, v, expiry, now, later);
            && (Lookup(Purged(s', t), k).Some? <==> t <= expiry)
            && (!stored ==>
                  ((forall u :: u <= s.records[k].expiry ==> Lookup(Purged(s', u), k).Some?) <==>
                   expiry == s.records[k].expiry))
  {
    var (s', stored) := Store(s, k, v, expiry, now, later);
    forall u
      ensures Lookup(Purged(s', u), k).Some? <==> u <= expiry
    {
      UnlimitedPurge(s'.records, u);
    }
    assert Lookup(Purged(s', s.records[k].expiry), k).Some? <==> s.records[k].expiry <= expiry;
  }

  /** A refused store makes a value disappear before its time. */
  lemma RefusedStoreShortensLife()
    ensures var s := FlatState(map[1 := Record('a', 100.0, 100.0)], false, Unlimited);
            var (s', stored) := Store(s, 1, 'b', 10.0, 5.0, 5.0);
            !stored && Lookup(Purged(s, 50.0), 1) == Some(Timed('a', 100.0)) && Lookup(Purged(s', 50.0), 1) == None
  {
    var s := FlatState(map[1 := Record('a', 100.0, 100.0)], false, Unlimited);
    UnlimitedPurge(s.records, 50.0);
    UnlimitedPurge(Store(s, 1, 'b', 10.0, 5.0, 5.0).0.records, 50.0);
  }

  // ----- the heap, held in pop order

  ghost predicate InOrder(heap: seq<Entry>) {
    forall i, j :: 0 <= i < j < |heap| ==> heap[i] == heap[j] || Precedes(heap[i], heap[j])
  }

  function Push(heap: seq<Entry>, e: Entry): seq<Entry> {
    if heap == [] || !Precedes(heap[0], e) then [e] + heap else [heap[0]] + Push(heap[1..], e)
  }

  lemma {:induction false} PushOrdered(heap: seq<Entry>, e: Entry)
    requires InOrder(heap)
    ensures InOrder(Push(heap, e))
    ensures forall x :: x in Push(heap, e) <==> x == e || x in heap
  {
    if heap == [] {
    } else if !Precedes(heap[0], e) {
      assert forall i :: 1 <= i < |heap| ==> heap[0] == heap[i] || Precedes(heap[0], heap[i]);
    } else {
      PushOrdered(heap[1..], e);
      var r := Push(heap[1..], e);
      forall i | 0 <= i < |r|
        ensures heap[0] == r[i] || Precedes(heap[0], r[i])
      {
        assert r[i] in r;
        if r[i] != e {
          var j :| 0 <= j < |heap[1..]| && heap[1..][j] == r[i];
          assert heap[0] == heap[j + 1] || Precedes(heap[0], heap[j + 1]);
        }
      }
    }
  }

  // ----- the dictionary, the heap and the index of the storage

  /** Same keys in both dictionaries; each key's current entry is in the heap and is due no later
      than the value expires. */
  ghost predicate Agree<V>(data: map<Key, Timed<V>>, heap: seq<Entry>, current: map<Key, Entry>) {
    && data.Keys == current.Keys
    && InOrder(heap)
    && forall k :: k in data ==> current[k].key == k && current[k] in heap && current[k].expiration <= data[k].expiry
  }

  /** The flat map that they stand for. */
  function Records<V>(data: map<Key, Timed<V>>, current: map<Key, Entry>): map<Key, Record<V>>
    requires data.Keys == current.Keys
  {
    map k | k in data :: Record(data[k].value, data[k].expiry, current[k].expiration)
  }

  predicate IsCurrent(current: map<Key, Entry>, e: Entry) {
    e.key in current && current[e.key] == e
  }

  /** The root of the heap, if current, belongs to the key that is due first. */
  lemma RootIsFirst<V>(data: map<Key, Timed<V>>, heap: seq<Entry>, current: map<Key, Entry>)
    requires Agree(data, heap, current) && heap != [] && IsCurrent(current, heap[0])
    ensures IsFirst(Records(data, current), heap[0].key)
  {
    var m, k := Records(data, current), heap[0].key;
    forall j | j in m && j != k
      ensures Precedes(EntryOf(m, k), EntryOf(m, j))
    {
      var i :| 0 <= i < |heap| && heap[i] == current[j];
      assert heap[0] == heap[i] || Precedes(heap[0], heap[i]);
    }
  }

  lemma RootIsEarliest<V>(data: map<Key, Timed<V>>, heap: seq<Entry>, current: map<Key, Entry>, k: Key)
    requires Agree(data, heap, current) && k in data
    ensures heap != [] && heap[0].expiration <= current[k].expiration
  {
    var i :| 0 <= i < |heap| && heap[i] == current[k];
    assert i > 0 ==> heap[0] == heap[i] || Precedes(heap[0], heap[i]);
  }

  lemma RecordsSize<V>(data: map<Key, Timed<V>>, current: map<Key, Entry>)
    requires data.Keys == current.Keys
    ensures |Records(data, current)| == |data|
  {
    assert Records(data, current).Keys == data.Keys;
    assert |Records(data, current).Keys| == |data.Keys|;
  }

  /** Popping a current root drops the first key; popping a ghost changes nothing. */
  lemma PopAgrees<V>(data: map<Key, Timed<V>>, heap: seq<Entry>, current: map<Key, Entry>)
    requires Agree(data, heap, current) && heap != []
    ensures if IsCurrent(current, heap[0])
            then var k := heap[0].key;
                 && Agree(data - {k}, heap[1..], current - {k})
                 && Records(data - {k}, current - {k}) == Records(data, current) - {k}
            else Agree(data, heap[1..], current)
  {
    var k := heap[0].key;
    forall j | j in data && !(IsCurrent(current, heap[0]) && j == k)
      ensures current[j] in heap[1..]
    {
      assert current[j].key == j;
      var i :| 0 <= i < |heap| && heap[i] == current[j];
      assert i > 0 ==> heap[1..][i - 1] == current[j];
    }
    if IsCurrent(current, heap[0]) {
      assert (data - {k}).Keys == (current - {k}).Keys;
    }
  }

  /** A turn of the purge loop does not change what a purge at that time, or later, leaves. */
  lemma PopPurges<V>(data: map<Key, Timed<V>>, heap: seq<Entry>, current: map<Key, Entry>, limit: Limit, now: real)
    requires Agree(data, heap, current) && heap != [] && IsCurrent(current, heap[0])
    requires heap[0].expiration < now || Over(limit, |data|)
    ensures var m := Records(data, current); Purge(m, limit, now) == Purge(m - {heap[0].key}, limit, now)
  {
    var m := Records(data, current);
    RootIsFirst(data, heap, current);
    FirstUnique(m, heap[0].key);
    RecordsSize(data, current);
  }

  lemma Settled<V>(data: map<Key, Timed<V>>, heap: seq<Entry>, current: map<Key, Entry>, limit: Limit, now: real)
    requires Agree(data, heap, current) && (heap == [] || (heap[0].expiration >= now && !Over(limit, |data|)))
    ensures Purge(Records(data, current), limit, now) == Records(data, current)
  {
    var m := Records(data, current);
    RecordsSize(data, current);
    if m != map[] {
      RootIsEarliest(data, heap, current, First(m));
    }
  }

  /** Readings of a clock that does not go back. */
  ghost predicate Ticks(clock: nat -> real) {
    forall i, j :: 0 <= i <= j ==> clock(i) <= clock(j)
  }

  /** A purge at any time not before the first i readings leaves the same of both maps. */
  ghost predicate SameAfter<V>(m: map<Key, Record<V>>, m': map<Key, Record<V>>, limit: Limit, clock: nat -> real,
                               i: nat)
  {
    forall t :: (i > 0 ==> clock(i - 1) <= t) ==> Purge(m', limit, t) == Purge(m, limit, t)
  }

  lemma TurnPurges<V>(before: map<Key, Record<V>>, data: map<Key, Timed<V>>, heap: seq<Entry>, current: map<Key, Entry>,
                      limit: Limit, clock: nat -> real, i: nat)
    requires Agree(data, heap, current) && Ticks(clock) && SameAfter(before, Records(data, current), limit, clock, i)
    requires heap != [] && (heap[0].expiration < clock(i) || Over(limit, |data|))
    ensures var m := Records(data, current);
            SameAfter(before, if IsCurrent(current, heap[0]) then m - {heap[0].key} else m, limit, clock, i + 1)
  {
    var m := Records(data, current);
    forall t | clock(i) <= t
      ensures Purge(if IsCurrent(current, heap[0]) then m - {heap[0].key} else m, limit, t) == Purge(before, limit, t)
    {
      assert i > 0 ==> clock(i - 1) <= clock(i);
      if IsCurrent(current, heap[0]) {
        PopPurges(data, heap, current, limit, t);
      }
    }
  }

  /** Scheduling a key anew, with its value or a new one that expires no earlier. */
  lemma PutAgrees<V>(data: map<Key, Timed<V>>, heap: seq<Entry>, current: map<Key, Entry>, k: Key, t: Timed<V>,
                     due: real)
    requires Agree(data, heap, current) && due <= t.expiry
    ensures var e := Entry(due, k);
            && Agree(data[k := t], Push(heap, e), current[k := e])
            && Records(data[k := t], current[k := e]) == Records(data, current)[k := Record(t.value, t.expiry, due)]
  {
    PushOrdered(heap, Entry(due, k));
  }

  // ----- the storage

  class TimedStorage<V(==)> {
    const limit: Limit
    var data: map<Key, Timed<V>>
    var heap: seq<Entry>
    var current: map<Key, Entry>   // key_to_heap
    var frozen: bool

    ghost predicate Valid()
      reads this
    {
      Agree(data, heap, current)
    }

    ghost function Flat(): FlatState<V>
      requires data.Keys == current.Keys
      reads this
    {
      FlatState(Records(data, current), frozen, limit)
    }

    constructor (maxsize: Option<nat>)
      ensures Valid() && Flat() == FlatState(map[], false, limit)
      ensures limit == if maxsize.None? || maxsize.value == 0 then Unlimited else AtMost(maxsize.value)
    {
      limit := if maxsize.None? || maxsize.value == 0 then Unlimited else AtMost(maxsize.value);
      data, heap, current, frozen := map[], [], map[], false;
    }

    /** `_remove_outdated`. Every turn of the loop reads the clock anew; the last reading decides. */
    method RemoveOutdated(clock: nat -> real) returns (ghost last: nat)
      requires Valid() && Ticks(clock)
      modifies this`data, this`heap, this`current
      ensures Valid() && Flat() == Purged(old(Flat()), clock(last))
    {
      last := 0;
      if frozen {
        return;
      }
      ghost var before := Records(data, current);
      var i := 0;
      while heap != [] && (heap[0].expiration < clock(i) || Over(limit, |data|))
        invariant Valid() && !frozen
        invariant SameAfter(before, Records(data, current), limit, clock, i)
        decreases |heap|
      {
        TurnPurges(before, data, heap, current, limit, clock, i);
        PopRoot();
        i := i + 1;
      }
      last := i;
      Settled(data, heap, current, limit, clock(i));
    }

    /** One turn of the purge loop: pop the root and drop its key if the entry is current. */
    method PopRoot()
      requires Valid() && heap != []
      modifies this`data, this`heap, this`current
      ensures Valid() && heap == old(heap)[1..]
      ensures var root := old(heap)[0];
              if IsCurrent(old(current), root)
              then IsFirst(old(Flat()).records, root.key) && Flat().records == old(Flat()).records - {root.key}
              else Flat() == old(Flat())
    {
      PopAgrees(data, heap, current);
      var root := heap[0];
      if IsCurrent(current, root) {
        RootIsFirst(data, heap, current);
        data, current, heap := data - {root.key}, current - {root.key}, heap[1..];
      } else {
        heap := heap[1..];
      }
    }

    method StoreValue(k: Key, v: V, expiry: real, now: real, later: real) returns (stored: bool)
      requires Valid()
      modifies this`data, this`heap, this`current
      ensures Valid()
      ensures (Flat(), stored) == Store(old(Flat()), k, v, expiry, now, later)
    {
      if expiry < now && !frozen {
        return false;
      }
      var entry := Entry(expiry, k);
      stored := k !in data || data[k].expiry < expiry;
      var kept := if stored then Timed(v, expiry) else data[k];
      PutAgrees(data, heap, current, k, kept, expiry);
      var added := k !in data;
      ghost var put := Records(data, current)[k := Record(kept.value, kept.expiry, expiry)];
      assert !stored ==> data[k := kept] == data;
      current, heap, data := current[k := entry], Push(heap, entry), data[k := kept];
      assert Records(data, current) == put;
      if added {
        ghost var last := RemoveOutdated(_ => later);
      }
    }

    method Get(k: Key, now: real) returns (r: Option<Timed<V>>)
      requires Valid()
      modifies this`data, this`heap, this`current
      ensures Valid() && Flat() == Purged(old(Flat()), now) && r == Lookup(Flat(), k)
      ensures !frozen && r.Some? ==> r.value.expiry >= now
    {
      ghost var before := Flat();
      assert Bounded(before);
      if !frozen {
        LookupIsCurrent(before, k, now);
      }
      ghost var last := RemoveOutdated(_ => now);
      r := if k in data then Some(data[k]) else None;
    }

    /** The key due first. Ghost entries at the root are popped until a current one shows; the heap
        cannot run empty before that. */
    method Top(now: real) returns (r: Option<(Key, Timed<V>)>)
      requires Valid()
      modifies this`data, this`heap, this`current
      ensures Valid() && Flat() == Purged(old(Flat()), now) && r == Head(Flat())
    {
      ghost var last := RemoveOutdated(_ => now);
      ghost var before := Flat();
      if data == map[] {
        assert before.records == map[];
        return None;
      }
      ghost var some := SomeKey(data);
      RootIsEarliest(data, heap, current, some);
      ghost var kept := data;
      while !IsCurrent(current, heap[0])
        invariant Valid() && Flat() == before && data == kept && heap != []
        decreases |heap|
      {
        PopAgrees(data, heap, current);
        heap := heap[1..];
        RootIsEarliest(data, heap, current, some);
      }
      RootIsFirst(data, heap, current);
      FirstUnique(before.records, heap[0].key);
      r := Some((heap[0].key, data[heap[0].key]));
    }

    method Delete(k: Key)
      requires Valid()
      modifies this`data, this`current
      ensures Valid() && Flat() == Remove(old(Flat()), k)
    {
      ghost var before := Flat();
      if k in current {
        data, current := data - {k}, current - {k};
      }
      assert Flat().records == before.records - {k};
    }

    /** Entering or leaving a `freeze()` block. */
    method SetFrozen(on: bool) returns (was: bool)
      requires Valid()
      modifies this`frozen
      ensures Valid() && Flat() == old(Flat()).(frozen := on) && was == old(frozen)
    {
      was := frozen;
      frozen := on;
    }
  }

  // ----- whole runs

  datatype Op<+V> =
    | StoreOp(key: Key, value: V, expiry: real, now: real, later: real)
    | GetOp(key: Key, now: real)
    | TopOp(now: real)
    | DeleteOp(key: Key)
    | FreezeOp(on: bool)

  datatype Answer<+V> =
    | Stored(ok: bool)
    | Found(entry: Option<Timed<V>>)
    | Leaving(first: Option<(Key, Timed<V>)>)
    | Done
    | WasFrozen(on: bool)

  /** One operation on the flat map. */
  function Step<V>(s: FlatState<V>, op: Op<V>): (FlatState<V>, Answer<V>) {
    match op
    case StoreOp(k, v, expiry, now, later) => var (s', ok) := Store(s, k, v, expiry, now, later); (s', Stored(ok))
    case GetOp(k, now) => var s' := Purged(s, now); (s', Found(Lookup(s', k)))
    case TopOp(now) => var s' := Purged(s, now); (s', Leaving(Head(s')))
    case DeleteOp(k) => (Remove(s, k), Done)
    case FreezeOp(on) => (s.(frozen := on), WasFrozen(s.frozen))
  }

  function Answers<V>(s: FlatState<V>, ops: seq<Op<V>>): seq<Answer<V>> {
    if ops == [] then []
    else Answers(s, ops[..|ops| - 1]) + [Step(After(s, ops[..|ops| - 1]), ops[|ops| - 1]).1]
  }

  function After<V>(s: FlatState<V>, ops: seq<Op<V>>): FlatState<V> {
    if ops == [] then s else Step(After(s, ops[..|ops| - 1]), ops[|ops| - 1]).0
  }

  /** Under every sequence of operations, at any clock readings, the storage answers exactly as
      the flat map does. */
  method Replay<V>(storage: TimedStorage<V>, ops: seq<Op<V>>) returns (answers: seq<Answer<V>>)
    requires storage.Valid()
    modifies storage
    ensures storage.Valid()
    ensures answers == Answers(old(storage.Flat()), ops) && storage.Flat() == After(old(storage.Flat()), ops)
  {
    ghost var start := storage.Flat();
    answers := [];
    var i := 0;
    assert ops[..0] == [];
    while i < |ops|
      invariant 0 <= i <= |ops| && storage.Valid()
      invariant answers == Answers(start, ops[..i]) && storage.Flat() == After(start, ops[..i])
    {
      var answer;
      match ops[i] {
        case StoreOp(k, v, expiry, now, later) =>
          var ok := storage.StoreValue(k, v, expiry, now, later);
          answer := Stored(ok);
        case GetOp(k, now) =>
          var r := storage.Get(k, now);
          answer := Found(r);
        case TopOp(now) =>
          var r := storage.Top(now);
          answer := Leaving(r);
        case DeleteOp(k) =>
          storage.Delete(k);
          answer := Done;
        case FreezeOp(on) =>
          var was := storage.SetFrozen(on);
          answer := WasFrozen(was);
      }
      assert ops[..i + 1][..i] == ops[..i];
      answers := answers + [answer];
      i := i + 1;
    }
    assert ops[..i] == ops;
  }

  /** In every reachable state no key outlives its value. */
  lemma {:induction false} RunBounded<V>(s: FlatState<V>, ops: seq<Op<V>>)
    requires Bounded(s)
    ensures Bounded(After(s, ops))
    decreases ops
  {
    if ops != [] {
      var init, op := ops[..|ops| - 1], ops[|ops| - 1];
      RunBounded(s, init);
      var mid := After(s, init);
      match op {
        case StoreOp(k, v, expiry, now, later) => StoreBounded(mid, k, v, expiry, now, later);
        case GetOp(_, now) => PurgeMeaning(mid.records, mid.limit, now);
        case TopOp(now) => PurgeMeaning(mid.records, mid.limit, now);
        case DeleteOp(_) =>
        case FreezeOp(_) =>
      }
    }
  }

  // ----- what stores answer, and what lookups find

  lemma {:induction false} AnswersAt<V>(s: FlatState<V>, ops: seq<Op<V>>, i: nat)
    requires i < |ops|
    ensures |Answers(s, ops)| == |ops| && Answers(s, ops)[i] == Step(After(s, ops[..i]), ops[i]).1
    decreases ops
  {
    var init := ops[..|ops| - 1];
    if i < |init| {
      AnswersAt(s, init, i);
      assert ops[..i] == init[..i];
    } else if init != [] {
      AnswersAt(s, init, 0);
    }
  }

  /** The i-th operation stored this value under the key. */
  ghost predicate StoredAt<V>(s: FlatState<V>, ops: seq<Op<V>>, k: Key, i: nat)
    requires i < |ops|
  {
    ops[i].StoreOp? && ops[i].key == k && Step(After(s, ops[..i]), ops[i]).1 == Stored(true)
  }

  /** In every run the answer to a store is true exactly if it comes in time, or while the storage is
      frozen, and what the operations before it left under the key, if anything, expires earlier. */
  lemma RunStores<V>(s: FlatState<V>, ops: seq<Op<V>>, i: nat)
    requires i < |ops| && ops[i].StoreOp?
    ensures var before, op := After(s, ops[..i]), ops[i];
            && |Answers(s, ops)| == |ops| && Answers(s, ops)[i].Stored?
            && (Answers(s, ops)[i].ok <==> StoredAt(s, ops, op.key, i))
            && (Answers(s, ops)[i].ok <==>
                && (op.expiry >= op.now || before.frozen)
                && (Lookup(before, op.key).None? || Lookup(before, op.key).value.expiry < op.expiry))
  {
    AnswersAt(s, ops, i);
    StoreAnswer(After(s, ops[..i]), ops[i].key, ops[i].value, ops[i].expiry, ops[i].now, ops[i].later);
  }

  /** The clock readings of an operation. */
  function Readings<V>(op: Op<V>): seq<real> {
    match op
    case StoreOp(_, _, _, now, later) => [now, later]
    case GetOp(_, now) => [now]
    case TopOp(now) => [now]
    case _ => []
  }

  /** Neither a store nor a deletion of the key, and no reading past the time. */
  ghost predicate Spares<V>(op: Op<V>, k: Key, t: real) {
    && !(op.DeleteOp? && op.key == k) && !(op.StoreOp? && op.key == k)
    && forall i :: 0 <= i < |Readings(op)| ==> Readings(op)[i] <= t
  }

  lemma SparedStays<V>(s: FlatState<V>, op: Op<V>, k: Key, t: real)
    requires s.limit.Unlimited? && k in s.records && s.records[k].evictAt >= t && Spares(op, k, t)
    ensures var s' := Step(s, op).0; s'.limit.Unlimited? && k in s'.records && s'.records[k] == s.records[k]
  {
    match op {
      case StoreOp(j, v, expiry, now, later) =>
        assert Readings(op)[1] == later;
        UnlimitedPurge(s.records[j := Record(v, expiry, expiry)], later);
      case GetOp(_, now) =>
        assert Readings(op)[0] == now;
        UnlimitedPurge(s.records, now);
      case TopOp(now) =>
        assert Readings(op)[0] == now;
        UnlimitedPurge(s.records, now);
      case DeleteOp(_) =>
      case FreezeOp(_) =>
    }
  }

  lemma {:induction false} StaysAfter<V>(s: FlatState<V>, ops: seq<Op<V>>, i: nat)
    requires s.limit.Unlimited? && i < |ops| && ops[i].StoreOp? && StoredAt(s, ops, ops[i].key, i)
    requires ops[i].later <= ops[i].expiry
    requires forall n :: i < n < |ops| ==> Spares(ops[n], ops[i].key, ops[i].expiry)
    ensures var s', op := After(s, ops), ops[i];
            && s'.limit.Unlimited? && op.key in s'.records
            && s'.records[op.key] == Record(op.value, op.expiry, op.expiry)
    decreases |ops|
  {
    var init, last := ops[..|ops| - 1], ops[|ops| - 1];
    LimitStays(s, init);
    if i == |init| {
      var op := ops[i];
      StoredRecord(After(s, init), op.key, op.value, op.expiry, op.now, op.later);
    } else {
      assert init[..i] == ops[..i];
      StaysAfter(s, init, i);
      SparedStays(After(s, init), last, ops[i].key, ops[i].expiry);
    }
  }

  lemma {:induction false} LimitStays<V>(s: FlatState<V>, ops: seq<Op<V>>)
    ensures After(s, ops).limit == s.limit
    decreases ops
  {
    if ops != [] {
      LimitStays(s, ops[..|ops| - 1]);
    }
  }

  /** In every run on an unlimited storage, frozen or not, a stored value is found by every lookup no
      later than its expiration, unless the key has been stored to or deleted in between. */
  lemma StoredStays<V>(s: FlatState<V>, ops: seq<Op<V>>, i: nat, j: nat)
    requires s.limit.Unlimited? && i < j < |ops| && ops[i].StoreOp? && ops[j].GetOp? && ops[j].key == ops[i].key
    requires |Answers(s, ops)| == |ops| && Answers(s, ops)[i] == Stored(true) && ops[i].later <= ops[i].expiry
    requires forall n :: i < n <= j ==> Spares(ops[n], ops[i].key, ops[i].expiry)
    ensures Answers(s, ops)[j] == Found(Some(Timed(ops[i].value, ops[i].expiry)))
  {
    AnswersAt(s, ops, i);
    AnswersAt(s, ops, j);
    var before, op := ops[..j], ops[i];
    assert before[..i] == ops[..i];
    assert forall n :: i < n < j ==> before[n] == ops[n];
    StaysAfter(s, before, i);
    assert Readings(ops[j])[0] == ops[j].now;
    UnlimitedPurge(After(s, before).records, ops[j].now);
  }

  /** The i-th operation stored this value, and none since then has replaced or deleted it. */
  ghost predicate Origin<V>(s: FlatState<V>, ops: seq<Op<V>>, k: Key, t: Timed<V>, i: nat) {
    && i < |ops| && StoredAt(s, ops, k, i) && ops[i].value == t.value && ops[i].expiry == t.expiry
    && forall n :: i < n < |ops| ==> !(ops[n].DeleteOp? && ops[n].key == k) && !StoredAt(s, ops, k, n)
  }

  /** In every run on a new storage of any limit, what a key holds is the value last stored under it,
      and has not been deleted since. */
  lemma {:induction false} HeldWasStored<V>(limit: Limit, ops: seq<Op<V>>, k: Key) returns (i: nat)
    requires Lookup(After(FlatState(map[], false, limit), ops), k).Some?
    ensures Origin(FlatState(map[], false, limit), ops, k,
                   Lookup(After(FlatState(map[], false, limit), ops), k).value, i)
    decreases ops
  {
    var start: FlatState<V> := FlatState(map[], false, limit);
    var init, op := ops[..|ops| - 1], ops[|ops| - 1];
    var s := After(start, init);
    StepHolds(s, op, k);
    if StoredAt(start, ops, k, |init|) {
      i := |init|;
    } else {
      i := HeldWasStored(limit, init, k);
      var t := Lookup(s, k).value;
      assert forall n :: 0 <= n < |init| ==> init[..n] == ops[..n] && init[n] == ops[n];
      assert forall n :: 0 <= n < |init| ==> StoredAt(start, ops, k, n) == StoredAt(start, init, k, n);
    }
  }

  lemma StepHolds<V>(s: FlatState<V>, op: Op<V>, k: Key)
    requires Lookup(Step(s, op).0, k).Some?
    ensures !(op.DeleteOp? && op.key == k)
    ensures if op.StoreOp? && op.key == k && Step(s, op).1 == Stored(true)
            then Lookup(Step(s, op).0, k) == Some(Timed(op.value, op.expiry))
            else Lookup(Step(s, op).0, k) == Lookup(s, k)
  {
    match op {
      case StoreOp(j, v, expiry, now, later) => StoreAnswer(s, j, v, expiry, now, later);
      case GetOp(_, now) => PurgeMeaning(s.records, s.limit, now);
      case TopOp(now) => PurgeMeaning(s.records, s.limit, now);
      case DeleteOp(_) =>
      case FreezeOp(_) =>
    }
  }

  // ----- how long a key stays

  /** Nothing is frozen, and no reading is past t, nor before an earlier one. */
  ghost predicate Unfrozen<V>(ops: seq<Op<V>>, t: real)
    decreases ops
  {
    ops != [] ==>
      var init, op := ops[..|ops| - 1], ops[|ops| - 1];
      && !op.FreezeOp?
      && (forall i :: 0 <= i < |Readings(op)| ==> Readings(op)[i] <= t)
      && (if Readings(op) == [] then Unfrozen(init, t) else Unfrozen(init, Readings(op)[0]))
      && (op.StoreOp? ==> op.now <= op.later)
  }

  /** The expiration of the last store to the key that was not too late when it came, accepted or
      refused, if the key has not been deleted since. */
  function LastStore<V>(ops: seq<Op<V>>, k: Key): Option<real>
    decreases ops
  {
    if ops == [] then None
    else
      var init, op := ops[..|ops| - 1], ops[|ops| - 1];
      match op
      case StoreOp(j, _, expiry, now, _) => if j == k && expiry >= now then Some(expiry) else LastStore(init, k)
      case DeleteOp(j) => if j == k then None else LastStore(init, k)
      case _ => LastStore(init, k)
  }

  /** A key held is due when its last store said; one that is not held is no longer due at t. */
  ghost predicate DueAsStored<V>(s: FlatState<V>, ops: seq<Op<V>>, t: real) {
    && s.limit.Unlimited? && !s.frozen
    && (forall k :: k in s.records ==> LastStore(ops, k) == Some(s.records[k].evictAt))
    && (forall k :: k !in s.records ==> LastStore(ops, k).None? || LastStore(ops, k).value < t)
  }

  lemma PurgedDue<V>(s: FlatState<V>, ops: seq<Op<V>>, now: real)
    requires DueAsStored(s, ops, now)
    ensures DueAsStored(Purged(s, now), ops, now)
  {
    UnlimitedPurge(s.records, now);
  }

  lemma {:induction false} RunDue<V>(ops: seq<Op<V>>, t: real)
    requires Unfrozen(ops, t)
    ensures DueAsStored(After(FlatState(map[], false, Unlimited), ops), ops, t)
    decreases ops
  {
    if ops != [] {
      var init, op := ops[..|ops| - 1], ops[|ops| - 1];
      var start: FlatState<V> := FlatState(map[], false, Unlimited);
      var s := After(start, init);
      var now := if Readings(op) == [] then t else Readings(op)[0];
      RunDue(init, now);
      StepDue(s, init, op, ops, now, t);
    }
  }

  lemma StepDue<V>(s: FlatState<V>, init: seq<Op<V>>, op: Op<V>, ops: seq<Op<V>>, now: real, t: real)
    requires ops == init + [op] && !op.FreezeOp? && DueAsStored(s, init, now)
    requires now == if Readings(op) == [] then t else Readings(op)[0]
    requires forall i :: 0 <= i < |Readings(op)| ==> Readings(op)[i] <= t
    requires op.StoreOp? ==> op.now <= op.later
    ensures DueAsStored(Step(s, op).0, ops, t)
  {
    assert ops[..|ops| - 1] == init;
    match op {
      case StoreOp(k, v, expiry, _, later) =>
        assert Readings(op)[1] == later;
        StoreDue(s, init, op, ops, t);
      case GetOp(_, _) =>
        PurgedDue(s, init, now);
        assert forall j :: LastStore(ops, j) == LastStore(init, j);
      case TopOp(_) =>
        PurgedDue(s, init, now);
        assert forall j :: LastStore(ops, j) == LastStore(init, j);
      case DeleteOp(_) =>
    }
  }

  lemma StoreDue<V>(s: FlatState<V>, init: seq<Op<V>>, op: Op<V>, ops: seq<Op<V>>, t: real)
    requires ops == init + [op] && op.StoreOp? && DueAsStored(s, init, op.now) && op.now <= op.later <= t
    ensures DueAsStored(Store(s, op.key, op.value, op.expiry, op.now, op.later).0, ops, t)
  {
    assert ops[..|ops| - 1] == init;
    if op.expiry >= op.now && op.key !in s.records {
      var put := s.(records := s.records[op.key := Record(op.value, op.expiry, op.expiry)]);
      assert DueAsStored(put, ops, op.later);
      PurgedDue(put, ops, op.later);
    }
  }

  /** In every run on an unlimited storage that is not frozen, with a clock that does not go back, a
      key is found at a later time t exactly if the last store to it that was not too late expires no
      earlier than t and the key was not deleted since. So a refused store, too, sets the time at which
      the value that refused it goes. */
  lemma RunRetention<V>(ops: seq<Op<V>>, k: Key, t: real)
    requires Unfrozen(ops, t)
    ensures var s := After(FlatState(map[], false, Unlimited), ops);
            Lookup(Purged(s, t), k).Some? <==> LastStore(ops, k).Some? && LastStore(ops, k).value >= t
  {
    var s := After(FlatState(map[], false, Unlimited), ops);
    RunDue(ops, t);
    UnlimitedPurge(s.records, t);
  }
}
