/**
 The DHT node's local storage on top of the expiring storage: a key holds a binary value or a
 dictionary of sub-keys with their own expirations. Specifications are functions on flat states;
 the class mutates a TimedStorage.
 */
module LocalStorages {
  import opened Collections
  import opened TimedStorages

  type Bytes = seq<nat>

  /** `DictionaryDHTValue`: sub-key records and the latest expiration ever offered to it (None is
      minus infinity). */
  datatype Dictionary = Dictionary(items: FlatState<Bytes>, latest: Option<real>)

  datatype DhtValue = Binary(bytes: Bytes) | Nested(dictionary: Dictionary)

  const EMPTY_DICTIONARY := Dictionary(FlatState(map[], false, Unlimited), None)

  function Later(a: Option<real>, b: real): Option<real> {
    if a.Some? && a.value >= b then a else Some(b)
  }

  /** `DictionaryDHTValue.store`. */
  function StoreItem(d: Dictionary, sub: Key, v: Bytes, expiry: real, now: real, later: real): (Dictionary, bool) {
    var (items, ok) := Store(d.items, sub, v, expiry, now, later);
    (Dictionary(items, Later(d.latest, expiry)), ok)
  }

  /** The entries a caller sees. */
  function View(d: Dictionary): map<Key, Timed<Bytes>> {
    map k | k in d.items.records :: Timed(d.items.records[k].value, d.items.records[k].expiry)
  }

  /** Store a candidate's items one by one. */
  function MergeItems(d: Dictionary, items: seq<(Key, Timed<Bytes>)>, now: real): Dictionary {
    if items == [] then d
    else
      var (k, t) := items[|items| - 1];
      StoreItem(MergeItems(d, items[..|items| - 1], now), k, t.value, t.expiry, now, now).0
  }

  /** The items of a dictionary in some iteration order. */
  ghost predicate Enumerates(items: seq<(Key, Timed<Bytes>)>, m: map<Key, Timed<Bytes>>) {
    && (forall i, j :: 0 <= i < j < |items| ==> items[i].0 != items[j].0)
    && (forall i :: 0 <= i < |items| ==> items[i].0 in m && m[items[i].0] == items[i].1)
    && KeysOf(items) == m.Keys
  }

  ghost function KeysOf(items: seq<(Key, Timed<Bytes>)>): set<Key> {
    set i | 0 <= i < |items| :: items[i].0
  }

  lemma EnumeratesMore(items: seq<(Key, Timed<Bytes>)>, m: map<Key, Timed<Bytes>>, k: Key, t: Timed<Bytes>)
    requires Enumerates(items, m) && k !in m
    ensures Enumerates(items + [(k, t)], m[k := t])
  {
    var more := items + [(k, t)];
    forall j | j in m[k := t]
      ensures j in KeysOf(more)
    {
      if j == k {
        assert more[|items|].0 == k;
      } else {
        var i :| 0 <= i < |items| && items[i].0 == j;
        assert more[i].0 == j;
      }
    }
  }

  function Purify(d: Dictionary, now: real): Dictionary {
    d.(items := Purged(d.items, now))
  }

  // ----- sending a dictionary

  /** `unpackb`: a frozen dictionary, into which the received items are stored one by one, and then
      the received latest expiration; the freeze ends with the call. */
  function Unpacked(limit: Limit, latest: Option<real>, items: seq<(Key, Timed<Bytes>)>, now: real): Dictionary {
    var d := MergeItems(Dictionary(FlatState(map[], true, limit), None), items, now);
    Dictionary(d.items.(frozen := false), latest)
  }

  /** What a receiver rebuilds from entries: each is due to leave at its own expiration. */
  function Rebuilt(limit: Limit, latest: Option<real>, m: map<Key, Timed<Bytes>>): Dictionary {
    Dictionary(FlatState(map k | k in m :: Record(m[k].value, m[k].expiry, m[k].expiry), false, limit), latest)
  }

  /** The order of the items and the clock do not matter to the receiver. */
  lemma UnpackedIsRebuilt(limit: Limit, latest: Option<real>, items: seq<(Key, Timed<Bytes>)>,
                          m: map<Key, Timed<Bytes>>, now: real)
    requires Enumerates(items, m)
    ensures Unpacked(limit, latest, items, now) == Rebuilt(limit, latest, m)
  {
    FrozenMerge(limit, items, now);
    var records := MergeItems(Dictionary(FlatState(map[], true, limit), None), items, now).items.records;
    forall k | k in m
      ensures k in records && records[k] == Record(m[k].value, m[k].expiry, m[k].expiry)
    {
      assert k in KeysOf(items);
      var i :| 0 <= i < |items| && items[i].0 == k;
    }
    assert records == map k | k in m :: Record(m[k].value, m[k].expiry, m[k].expiry);
  }

  lemma {:induction false} FrozenMerge(limit: Limit, items: seq<(Key, Timed<Bytes>)>, now: real)
    requires forall i, j :: 0 <= i < j < |items| ==> items[i].0 != items[j].0
    ensures var d := MergeItems(Dictionary(FlatState(map[], true, limit), None), items, now);
            && d.items.frozen && d.items.limit == limit && d.items.records.Keys == KeysOf(items)
            && forall i :: 0 <= i < |items| ==>
                 items[i].0 in d.items.records
                 && d.items.records[items[i].0] == Record(items[i].1.value, items[i].1.expiry, items[i].1.expiry)
    decreases items
  {
    if items != [] {
      var n := |items| - 1;
      FrozenMerge(limit, items[..n], now);
      assert items[n].0 !in KeysOf(items[..n]);
      KeysOfLast(items);
    }
  }

  lemma KeysOfLast(items: seq<(Key, Timed<Bytes>)>)
    requires items != []
    ensures KeysOf(items) == KeysOf(items[..|items| - 1]) + {items[|items| - 1].0}
  {
    var init := items[..|items| - 1];
    forall k | k in KeysOf(items)
      ensures k in KeysOf(init) || k == items[|items| - 1].0
    {
      var i :| 0 <= i < |items| && items[i].0 == k;
      assert i < |init| ==> init[i].0 == k;
    }
    forall k | k in KeysOf(init)
      ensures k in KeysOf(items)
    {
      var i :| 0 <= i < |init| && init[i].0 == k;
      assert items[i].0 == k;
    }
  }

  /** The loop of `unpackb`. */
  method Unpack(limit: Limit, latest: Option<real>, items: seq<(Key, Timed<Bytes>)>, now: real) returns (d: Dictionary)
    ensures d == Unpacked(limit, latest, items, now)
  {
    d := Dictionary(FlatState(map[], true, limit), None);
    var i := 0;
    assert items[..0] == [];
    while i < |items|
      invariant 0 <= i <= |items|
      invariant d == MergeItems(Dictionary(FlatState(map[], true, limit), None), items[..i], now)
    {
      var (k, t) := items[i];
      d := StoreItem(d, k, t.value, t.expiry, now, now).0;
      assert items[..i + 1][..i] == items[..i];
      i := i + 1;
    }
    assert items[..i] == items;
    d := Dictionary(d.items.(frozen := false), latest);
  }

  // ----- the storage of a node

  /** Replace the value of a key in place, as a call on the dictionary object stored there does. */
  function Swap<V>(s: FlatState<V>, k: Key, v: V): FlatState<V> {
    if k in s.records then s.(records := s.records[k := s.records[k].(value := v)]) else s
  }

  lemma SwapAgrees<V>(data: map<Key, Timed<V>>, heap: seq<Entry>, current: map<Key, Entry>, k: Key, v: V)
    requires Agree(data, heap, current) && k in data
    ensures var data' := data[k := data[k].(value := v)];
            && Agree(data', heap, current)
            && Records(data', current) == Records(data, current)[k := Records(data, current)[k].(value := v)]
  {
  }

  /** The clock readings of `store_subkey`: the last one of the lookup's purge, and those of the guard
      and of the purge in the store to the dictionary and in the store of the dictionary. */
  datatype Moments = Moments(lookup: real, item: real, itemPurge: real, outer: real, outerPurge: real)

  /** `DHTLocalStorage.store_subkey`. */
  function StoreSubkey(s: FlatState<DhtValue>, k: Key, sub: Key, v: Bytes, expiry: real,
                       t: Moments): (FlatState<DhtValue>, bool)
  {
    var s := Purged(s, t.lookup);
    var previous: Option<Timed<DhtValue>> := Lookup(s, k);
    match previous
    case Some(Timed(Nested(d), _)) =>
      var later := d.latest.None? || expiry > d.latest.value;
      var refreshed := if later then Store(s, k, Nested(d), expiry, t.outer, t.outerPurge).0 else s;
      var (d', ok) := StoreItem(d, sub, v, expiry, t.item, t.itemPurge);
      (Swap(refreshed, k, Nested(d')), ok)
    case Some(Timed(Binary(_), until)) =>
      if expiry > until then StoreFresh(s, k, sub, v, expiry, t) else (s, false)
    case None => StoreFresh(s, k, sub, v, expiry, t)
  }

  /** Put a new one-entry dictionary under the key. */
  function StoreFresh(s: FlatState<DhtValue>, k: Key, sub: Key, v: Bytes, expiry: real,
                      t: Moments): (FlatState<DhtValue>, bool)
  {
    var d := StoreItem(EMPTY_DICTIONARY, sub, v, expiry, t.item, t.itemPurge).0;
    Store(s, k, Nested(d), expiry, t.outer, t.outerPurge)
  }

  /** No dictionary and no later regular value under the key: the store is accepted exactly if it comes in
      time, or to a frozen storage. Then until its expiration the key holds a dictionary with this entry
      alone, due with it. */
  lemma SubkeyStartsDictionary(s: FlatState<DhtValue>, k: Key, sub: Key, v: Bytes, expiry: real, t: Moments)
    requires var held := Lookup(Purged(s, t.lookup), k);
             held.None? || (held.value.value.Binary? && held.value.expiry < expiry)
    ensures var (s', stored) := StoreSubkey(s, k, sub, v, expiry, t);
            && (stored <==> expiry >= t.outer || s.frozen)
            && (!stored ==> s' == Purged(s, t.lookup))
            && (stored && s.limit.Unlimited? && t.outerPurge <= expiry && t.item <= expiry && t.itemPurge <= expiry ==>
                  var r := Lookup(s', k);
                  && r.Some? && r.value.expiry == expiry && r.value.value.Nested?
                  && View(r.value.value.dictionary) == map[sub := Timed(v, expiry)]
                  && r.value.value.dictionary.latest == Some(expiry))
  {
    var p := Purged(s, t.lookup);
    var d := StoreItem(EMPTY_DICTIONARY, sub, v, expiry, t.item, t.itemPurge).0;
    StoreAnswer(p, k, Nested(d), expiry, t.outer, t.outerPurge);
    FirstItem(sub, v, expiry, t.item, t.itemPurge);
  }

  lemma FirstItem(sub: Key, v: Bytes, expiry: real, now: real, later: real)
    ensures var d := StoreItem(EMPTY_DICTIONARY, sub, v, expiry, now, later).0;
            d.latest == Some(expiry) && (now <= expiry && later <= expiry ==> View(d) == map[sub := Timed(v, expiry)])
  {
    UnlimitedPurge(EMPTY_DICTIONARY.items.records[sub := Record(v, expiry, expiry)], later);
  }

  /** A regular value that does not expire earlier refuses every sub-key, and stays. */
  lemma SubkeyRefused(s: FlatState<DhtValue>, k: Key, sub: Key, v: Bytes, expiry: real, t: Moments)
    requires var held := Lookup(Purged(s, t.lookup), k);
             held.Some? && held.value.value.Binary? && held.value.expiry >= expiry
    ensures StoreSubkey(s, k, sub, v, expiry, t) == (Purged(s, t.lookup), false)
  {
  }

  /** A dictionary takes an entry exactly if it comes in time, or to a frozen dictionary, and the sub-key is
      new or held with an earlier expiration. Other entries stay as they are, unless the purge that
      follows a new sub-key drops them; a refused entry changes no entry. */
  lemma ItemJoins(d: Dictionary, sub: Key, v: Bytes, expiry: real, now: real, later: real)
    ensures var (d', stored) := StoreItem(d, sub, v, expiry, now, later);
            && (stored <==> (expiry >= now || d.items.frozen) && (sub !in View(d) || View(d)[sub].expiry < expiry))
            && d'.latest == (if d.latest.Some? && d.latest.value > expiry then d.latest else Some(expiry))
            && (!stored ==> View(d') == View(d))
            && (stored && (sub in View(d) || d.items.frozen) ==> View(d') == View(d)[sub := Timed(v, expiry)])
            && (forall j :: j in View(d') ==> j in View(d)[sub := Timed(v, expiry)]
                                              && (stored ==> View(d')[j] == View(d)[sub := Timed(v, expiry)][j]))
  {
    StoreAnswer(d.items, sub, v, expiry, now, later);
    PurgeMeaning(d.items.records[sub := Record(v, expiry, expiry)], d.items.limit, later);
  }

  /** A sub-key store to a key with a dictionary stores into that dictionary, and answers as it does. No
      other key changes, and the key's own expiration grows exactly if the store comes in time and
      expires after everything offered to the dictionary and after the key. */
  lemma SubkeyJoinsDictionary(s: FlatState<DhtValue>, k: Key, sub: Key, v: Bytes, expiry: real, t: Moments)
    requires var held := Lookup(Purged(s, t.lookup), k); held.Some? && held.value.value.Nested?
    ensures var p := Purged(s, t.lookup);
            var held, (s', stored) := Lookup(p, k).value, StoreSubkey(s, k, sub, v, expiry, t);
            var d, until := held.value.dictionary, held.expiry;
            var grows := (d.latest.None? || expiry > d.latest.value) && expiry > until
                && (expiry >= t.outer || s.frozen);
            var (d', taken) := StoreItem(d, sub, v, expiry, t.item, t.itemPurge);
            && stored == taken
            && Lookup(s', k) == Some(Timed(Nested(d'), if grows then expiry else until))
            && (forall j :: j != k ==> Lookup(s', j) == Lookup(p, j))
  {
    var p := Purged(s, t.lookup);
    StoreAnswer(p, k, Lookup(p, k).value.value, expiry, t.outer, t.outerPurge);
  }

  class LocalStorage {
    const storage: TimedStorage<DhtValue>

    constructor ()
      ensures fresh(storage) && storage.Valid() && storage.Flat() == FlatState(map[], false, Unlimited)
    {
      storage := new TimedStorage(None);
    }

    method Overwrite(k: Key, v: DhtValue)
      requires storage.Valid()
      modifies storage`data
      ensures storage.Valid() && storage.Flat() == Swap(old(storage.Flat()), k, v)
    {
      if k in storage.data {
        SwapAgrees(storage.data, storage.heap, storage.current, k, v);
        storage.data := storage.data[k := storage.data[k].(value := v)];
      }
    }

    method StoreUnder(k: Key, sub: Key, v: Bytes, expiry: real, t: Moments) returns (stored: bool)
      requires storage.Valid()
      modifies storage
      ensures storage.Valid()
      ensures (storage.Flat(), stored) == StoreSubkey(old(storage.Flat()), k, sub, v, expiry, t)
    {
      var previous := storage.Get(k, t.lookup);
      match previous {
        case Some(Timed(Nested(d), _)) =>
          if d.latest.None? || expiry > d.latest.value {
            var _ := storage.StoreValue(k, Nested(d), expiry, t.outer, t.outerPurge);
          }
          var (d', ok) := StoreItem(d, sub, v, expiry, t.item, t.itemPurge);
          Overwrite(k, Nested(d'));
          stored := ok;
        case Some(Timed(Binary(_), until)) =>
          if expiry > until {
            var d := StoreItem(EMPTY_DICTIONARY, sub, v, expiry, t.item, t.itemPurge).0;
            stored := storage.StoreValue(k, Nested(d), d.latest.value, t.outer, t.outerPurge);
          } else {
            stored := false;
          }
        case None =>
          var d := StoreItem(EMPTY_DICTIONARY, sub, v, expiry, t.item, t.itemPurge).0;
          stored := storage.StoreValue(k, Nested(d), d.latest.value, t.outer, t.outerPurge);
      }
    }

    /** `DHTLocalStorage.store`. */
    method StoreAny(k: Key, v: Bytes, expiry: real, sub: Option<Key>, t: Moments) returns (stored: bool)
      requires storage.Valid()
      modifies storage
      ensures storage.Valid()
      ensures (storage.Flat(), stored) ==
              if sub.Some? then StoreSubkey(old(storage.Flat()), k, sub.value, v, expiry, t)
              else Store(old(storage.Flat()), k, Binary(v), expiry, t.outer, t.outerPurge)
    {
      if sub.Some? {
        stored := StoreUnder(k, sub.value, v, expiry, t);
      } else {
        stored := storage.StoreValue(k, Binary(v), expiry, t.outer, t.outerPurge);
      }
    }
  }
}
