/**
 `_SearchState`: the merging of GET answers from several replicas, as functions on values and as a
 class that refines them.
 */
module SearchStates {
  import opened Collections
  import opened TimedStorages
  import opened LocalStorages

  type Source = nat

  datatype Outcome = Nothing | Value(bytes: Bytes, expiry: real) | Entries(entries: map<Key, Timed<Bytes>>, until: real)

  datatype Progress = Progress(value: Option<DhtValue>, expiration: Option<real>, source: Option<Source>,
                               outcome: Option<Outcome>)

  /** `e > (self.expiration_time or float("-inf"))`: None and 0.0 both count as minus infinity. */
  predicate Exceeds(e: real, current: Option<real>) {
    current.None? || current.value == 0.0 || e > current.value
  }

  function LargerLimit(a: Limit, b: Limit): Limit {
    if a.Unlimited? || b.Unlimited? then Unlimited else if a.size >= b.size then a else b
  }

  /** Merged dictionaries have room for whatever one of the two had room for. */
  lemma LargerLimitIsRoomier(a: Limit, b: Limit, n: nat)
    ensures Over(LargerLimit(a, b), n) <==> Over(a, n) && Over(b, n)
  {
  }

  /** `finish_search`. */
  function Conclude(s: Progress, now: real): Progress {
    if s.outcome.Some? then s
    else if s.expiration.None? then s.(outcome := Some(Nothing))
    else if s.value.None? then s
    else
      match s.value.value
      case Binary(bytes) => s.(outcome := Some(Value(bytes, s.expiration.value)))
      case Nested(d) => s.(value := Some(Nested(Purify(d, now))),
                           outcome := Some(Entries(View(Purify(d, now)), s.expiration.value)))
  }

  /** Finishing is final; it fails to give an outcome only if a date is known but no value; no date
      means nothing was found; a regular value is returned as it is held; a dictionary is returned with
      exactly the entries that a purge leaves, which are entries of the dictionary, none of them
      overdue, and all of those if it has room. */
  lemma ConcludeMeaning(s: Progress, now: real, later: real)
    ensures Conclude(Conclude(s, now), later) == Conclude(s, now)
    ensures s.outcome.Some? ==> Conclude(s, now) == s
    ensures Conclude(s, now).outcome.None? <==> s.outcome.None? && s.expiration.Some? && s.value.None?
    ensures s.outcome.None? ==> (Conclude(s, now).outcome == Some(Nothing) <==> s.expiration.None?)
    ensures s.outcome.None? && s.expiration.Some? && s.value.Some? && s.value.value.Binary? ==>
              Conclude(s, now).outcome == Some(Value(s.value.value.bytes, s.expiration.value))
    ensures s.outcome.None? && s.expiration.Some? && s.value.Some? && s.value.value.Nested? ==>
              var d, o := s.value.value.dictionary.items, Conclude(s, now).outcome;
              && o.Some? && o.value.Entries? && o.value.until == s.expiration.value
              && (forall k :: k in o.value.entries ==>
                    && k in d.records && o.value.entries[k] == Timed(d.records[k].value, d.records[k].expiry)
                    && (!d.frozen ==> d.records[k].evictAt >= now))
              && (!d.frozen && d.limit.Unlimited? ==>
                    forall k :: k in d.records && d.records[k].evictAt >= now ==> k in o.value.entries)
  {
    if s.outcome.None? && s.expiration.Some? && s.value.Some? && s.value.value.Nested? {
      var d := s.value.value.dictionary.items;
      PurgeMeaning(d.records, d.limit, now);
      if d.limit.Unlimited? {
        UnlimitedPurge(d.records, now);
      }
    }
  }

  /** `add_candidate`, given the iteration order of the candidate's items. */
  function Absorb(sufficient: real, s: Progress, candidate: Option<Timed<DhtValue>>, source: Option<Source>,
                  order: seq<(Key, Timed<Bytes>)>, now: real): Progress
  {
    if s.outcome.Some? || candidate.None? then s
    else
      var c := candidate.value;
      var merged :=
        if c.value.Nested? && s.value.Some? && s.value.value.Nested? then
          var d := s.value.value.dictionary;
          var wide := d.(items := d.items.(limit := LargerLimit(d.items.limit, c.value.dictionary.items.limit)));
          s.(value := Some(Nested(MergeItems(wide, order, now))))
        else if Exceeds(c.expiry, s.expiration) then s.(value := Some(c.value))
        else s;
      if Exceeds(c.expiry, s.expiration) then
        var dated := merged.(expiration := Some(c.expiry), source := source);
        if c.expiry >= sufficient then Conclude(dated, now) else dated
      else merged
  }

  /** An empty answer changes nothing, and no answer changes a finished search. */
  lemma AbsorbNothing(sufficient: real, s: Progress, candidate: Option<Timed<DhtValue>>, source: Option<Source>,
                      order: seq<(Key, Timed<Bytes>)>, now: real)
    requires candidate.None? || s.outcome.Some?
    ensures Absorb(sufficient, s, candidate, source, order, now) == s
  {
  }

  class SearchState {
    const sufficient: real
    var binaryValue: Option<DhtValue>
    var expiration: Option<real>
    var source: Option<Source>
    var outcome: Option<Outcome>   // the result of the future, once done

    function Model(): Progress
      reads this
    {
      Progress(binaryValue, expiration, source, outcome)
    }

    constructor (sufficient: real)
      ensures this.sufficient == sufficient && Model() == Progress(None, None, None, None)
    {
      this.sufficient := sufficient;
      binaryValue, expiration, source, outcome := None, None, None, None;
    }

    method AddCandidate(candidate: Option<Timed<DhtValue>>, from: Option<Source>, now: real)
      returns (ghost order: seq<(Key, Timed<Bytes>)>)
      modifies this
      ensures Model() == Absorb(sufficient, old(Model()), candidate, from, order, now)
      ensures candidate.Some? && candidate.value.value.Nested? ==>
                Enumerates(order, View(Purify(candidate.value.value.dictionary, now)))
    {
      order := if candidate.Some? && candidate.value.value.Nested?
               then SomeOrder(View(Purify(candidate.value.value.dictionary, now))) else [];
      if outcome.Some? || candidate.None? {
        return;
      }
      var c := candidate.value;
      if c.value.Nested? && binaryValue.Some? && binaryValue.value.Nested? {
        var d := binaryValue.value.dictionary;
        var wide := d.(items := d.items.(limit := LargerLimit(d.items.limit, c.value.dictionary.items.limit)));
        var d';
        d', order := Merge(wide, View(Purify(c.value.dictionary, now)), now);
        binaryValue := Some(Nested(d'));
      } else if Exceeds(c.expiry, expiration) {
        binaryValue := Some(c.value);
      }
      if Exceeds(c.expiry, expiration) {
        expiration := Some(c.expiry);
        source := from;
        if c.expiry >= sufficient {
          FinishSearch(now);
        }
      }
    }

    method FinishSearch(now: real)
      modifies this`binaryValue, this`outcome
      ensures Model() == Conclude(old(Model()), now)
      ensures old(outcome).Some? ==> Model() == old(Model())
      ensures outcome.None? <==> old(outcome.None? && expiration.Some? && binaryValue.None?)
    {
      ConcludeMeaning(Model(), now, now);
      if outcome.None? {
        if expiration.None? {
          outcome := Some(Nothing);
        } else if binaryValue.Some? {
          match binaryValue.value {
            case Binary(bytes) =>
              outcome := Some(Value(bytes, expiration.value));
            case Nested(d) =>
              binaryValue := Some(Nested(Purify(d, now)));
              outcome := Some(Entries(View(Purify(d, now)), expiration.value));
          }
        }
      }
    }
  }

  /** Store every entry of m, in an arbitrary order. */
  method Merge(d: Dictionary, m: map<Key, Timed<Bytes>>, now: real)
    returns (d': Dictionary, ghost order: seq<(Key, Timed<Bytes>)>)
    ensures Enumerates(order, m) && d' == MergeItems(d, order, now)
  {
    d', order := d, [];
    var left := m.Keys;
    while left != {}
      invariant left <= m.Keys && Enumerates(order, m - left)
      invariant d' == MergeItems(d, order, now)
      decreases left
    {
      ghost var some := SomeElement(left);
      var k: Key :| k in left;
      EnumeratesMore(order, m - left, k, m[k]);
      PutBack(m, left, k);
      d' := StoreItem(d', k, m[k].value, m[k].expiry, now, now).0;
      ghost var before := order;
      order := order + [(k, m[k])];
      assert order[..|order| - 1] == before;
      left := left - {k};
    }
    assert m - {} == m;
  }

  lemma PutBack(m: map<Key, Timed<Bytes>>, left: set<Key>, k: Key)
    requires left <= m.Keys && k in left
    ensures m - (left - {k}) == (m - left)[k := m[k]]
  {
    assert (m - (left - {k})).Keys == (m - left)[k := m[k]].Keys;
  }

  lemma {:induction false} OrderExists(m: map<Key, Timed<Bytes>>) returns (order: seq<(Key, Timed<Bytes>)>)
    ensures Enumerates(order, m)
    decreases |m|
  {
    if m == map[] {
      order := [];
    } else {
      var k := SomeKey(m);
      var rest := m - {k};
      assert rest.Keys == m.Keys - {k};
      var before := OrderExists(rest);
      order := before + [(k, m[k])];
      EnumeratesMore(before, rest, k, m[k]);
      assert rest[k := m[k]] == m;
    }
  }

  ghost function SomeOrder(m: map<Key, Timed<Bytes>>): (order: seq<(Key, Timed<Bytes>)>)
    ensures Enumerates(order, m)
  {
    assert exists order :: Enumerates(order, m) by {
      var order := OrderExists(m);
    }
    var order :| Enumerates(order, m);
    order
  }
}
