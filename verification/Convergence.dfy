/**
 Replica convergence: however a set of sub-key stores was distributed over replicas and ordered at
 each of them, and in whatever order their answers are merged, every sub-key ends with the record
 of greatest expiration that any of the replicas received.
 */
module Convergence {
  import opened Collections
  import opened TimedStorages
  import opened LocalStorages
  import opened SearchStates
  import opened MixedAnswers

  /** One store request for a sub-key. */
  datatype Offer = Offer(sub: Key, value: Bytes, expiry: real)

  /** No two different values compete for a sub-key with the same expiration. */
  ghost predicate TieFree(R: set<Offer>) {
    forall a, b :: a in R && b in R && a.sub == b.sub && a.expiry == b.expiry ==> a.value == b.value
  }

  /** Every sub-key offered is present, with an offered record that expires no earlier than any
      other offer for it. */
  ghost predicate IsBest(m: map<Key, Timed<Bytes>>, R: set<Offer>) {
    && (forall o :: o in R ==> o.sub in m && m[o.sub].expiry >= o.expiry)
    && (forall k :: k in m ==> Offer(k, m[k].value, m[k].expiry) in R)
  }

  lemma BestUnique(m: map<Key, Timed<Bytes>>, n: map<Key, Timed<Bytes>>, R: set<Offer>)
    requires TieFree(R) && IsBest(m, R) && IsBest(n, R)
    ensures m == n
  {
    forall k | k in m
      ensures k in n && n[k] == m[k]
    {
      var o := Offer(k, m[k].value, m[k].expiry);
      assert o in R && k in n;
      var o' := Offer(k, n[k].value, n[k].expiry);
      assert o' in R;
    }
    forall k | k in n
      ensures k in m
    {
      assert Offer(k, n[k].value, n[k].expiry) in R;
    }
  }

  /** Last expiration wins. */
  function Put(m: map<Key, Timed<Bytes>>, o: Offer): map<Key, Timed<Bytes>> {
    if o.sub in m && m[o.sub].expiry >= o.expiry then m else m[o.sub := Timed(o.value, o.expiry)]
  }

  lemma PutBest(m: map<Key, Timed<Bytes>>, R: set<Offer>, o: Offer)
    requires IsBest(m, R)
    ensures IsBest(Put(m, o), R + {o})
  {
  }

  // ----- a dictionary that nothing expires from

  /** Until `horizon` the dictionary loses nothing. */
  ghost predicate Calm(d: Dictionary, horizon: real) {
    && d.items.limit == Unlimited && !d.items.frozen
    && forall k :: k in d.items.records ==> d.items.records[k].evictAt >= horizon
  }

  lemma CalmPurge<V>(s: FlatState<V>, now: real)
    requires s.limit == Unlimited && forall k :: k in s.records ==> s.records[k].evictAt >= now
    ensures Purged(s, now) == s
  {
    if !s.frozen {
      UnlimitedPurge(s.records, now);
      assert (map k | k in s.records && s.records[k].evictAt >= now :: s.records[k]) == s.records;
    }
  }

  lemma StoreItemPuts(d: Dictionary, o: Offer, now: real, later: real, horizon: real)
    requires Calm(d, horizon) && now <= horizon <= o.expiry && later <= horizon
    ensures var d' := StoreItem(d, o.sub, o.value, o.expiry, now, later).0;
            Calm(d', horizon) && View(d') == Put(View(d), o) && d'.latest == Later(d.latest, o.expiry)
  {
    var d' := StoreItem(d, o.sub, o.value, o.expiry, now, later).0;
    if o.sub !in d.items.records {
      CalmPurge(d.items.(records := d.items.records[o.sub := Record(o.value, o.expiry, o.expiry)]), later);
    }
    assert View(d') == Put(View(d), o);
  }

  // ----- one replica

  /** Offers arriving at a replica, each with the clock readings of its arrival. */
  ghost function Received(s: FlatState<DhtValue>, k: Key, offers: seq<(Offer, Moments)>): FlatState<DhtValue> {
    if offers == [] then s
    else
      var (o, t) := offers[|offers| - 1];
      StoreSubkey(Received(s, k, offers[..|offers| - 1]), k, o.sub, o.value, o.expiry, t).0
  }

  ghost function OffersOf(offers: seq<(Offer, Moments)>): set<Offer> {
    set i | 0 <= i < |offers| :: offers[i].0
  }

  ghost predicate Before(t: Moments, horizon: real) {
    t.lookup <= horizon && t.item <= horizon && t.itemPurge <= horizon && t.outer <= horizon && t.outerPurge <= horizon
  }

  /** Every arrival is before every expiration. */
  ghost predicate Timely(offers: seq<(Offer, Moments)>, horizon: real) {
    forall i :: 0 <= i < |offers| ==> Before(offers[i].1, horizon) && horizon <= offers[i].0.expiry
  }

  /** The greatest expiration among the offers. */
  ghost predicate IsLatest(e: real, R: set<Offer>) {
    (exists o :: o in R && o.expiry == e) && forall o :: o in R ==> o.expiry <= e
  }

  /** The storage holds, under k, the dictionary that the offers R should produce. */
  ghost predicate HoldsBest(s: FlatState<DhtValue>, k: Key, R: set<Offer>, horizon: real) {
    && s.limit == Unlimited && !s.frozen
    && (forall j :: j in s.records ==> s.records[j].evictAt >= horizon)
    && k in s.records && s.records[k].value.Nested?
    && var d := s.records[k].value.dictionary;
    && Calm(d, horizon) && IsBest(View(d), R)
    && d.latest == Some(s.records[k].expiry) && s.records[k].evictAt == s.records[k].expiry
    && IsLatest(s.records[k].expiry, R)
  }

  lemma FirstOffer(s: FlatState<DhtValue>, k: Key, o: Offer, t: Moments, horizon: real)
    requires s.limit == Unlimited && !s.frozen && k !in s.records && Before(t, horizon) && horizon <= o.expiry
    requires forall j :: j in s.records ==> s.records[j].evictAt >= horizon
    ensures HoldsBest(StoreSubkey(s, k, o.sub, o.value, o.expiry, t).0, k, {o}, horizon)
  {
    CalmPurge(s, t.lookup);
    StoreItemPuts(EMPTY_DICTIONARY, o, t.item, t.itemPurge, horizon);
    var d := StoreItem(EMPTY_DICTIONARY, o.sub, o.value, o.expiry, t.item, t.itemPurge).0;
    CalmPurge(s.(records := s.records[k := Record(Nested(d), o.expiry, o.expiry)]), t.outerPurge);
  }

  lemma NextOffer(s: FlatState<DhtValue>, k: Key, R: set<Offer>, o: Offer, t: Moments, horizon: real)
    requires HoldsBest(s, k, R, horizon) && Before(t, horizon) && horizon <= o.expiry
    ensures HoldsBest(StoreSubkey(s, k, o.sub, o.value, o.expiry, t).0, k, R + {o}, horizon)
  {
    CalmPurge(s, t.lookup);
    var d := s.records[k].value.dictionary;
    StoreItemPuts(d, o, t.item, t.itemPurge, horizon);
    PutBest(View(d), R, o);
    LatestGrows(s.records[k].expiry, R, o);
  }

  lemma LatestGrows(e: real, R: set<Offer>, o: Offer)
    requires IsLatest(e, R)
    ensures IsLatest(if o.expiry > e then o.expiry else e, R + {o})
  {
    var m :| m in R && m.expiry == e;
    assert m in R + {o} && o in R + {o};
  }

  /** A replica holds the best of whatever it received, in whatever order. */
  lemma {:induction false} ReplicaHoldsBest(s: FlatState<DhtValue>, k: Key, offers: seq<(Offer, Moments)>,
                                            horizon: real)
    requires s.limit == Unlimited && !s.frozen && k !in s.records
    requires forall j :: j in s.records ==> s.records[j].evictAt >= horizon
    requires offers != [] && Timely(offers, horizon)
    ensures HoldsBest(Received(s, k, offers), k, OffersOf(offers), horizon)
    decreases offers
  {
    var init := offers[..|offers| - 1];
    var (o, t) := offers[|offers| - 1];
    assert offers[|offers| - 1].0 == o;
    if init == [] {
      FirstOffer(s, k, o, t, horizon);
      assert OffersOf(offers) == {o};
    } else {
      ReplicaHoldsBest(s, k, init, horizon);
      NextOffer(Received(s, k, init), k, OffersOf(init), o, t, horizon);
      OffersGrow(offers);
    }
  }

  lemma OffersGrow(offers: seq<(Offer, Moments)>)
    requires offers != []
    ensures OffersOf(offers) == OffersOf(offers[..|offers| - 1]) + {offers[|offers| - 1].0}
  {
    var init := offers[..|offers| - 1];
    forall o | o in OffersOf(offers)
      ensures o in OffersOf(init) + {offers[|offers| - 1].0}
    {
      var i :| 0 <= i < |offers| && offers[i].0 == o;
      assert i < |init| ==> init[i].0 == o;
    }
    forall o | o in OffersOf(init)
      ensures o in OffersOf(offers)
    {
      var i :| 0 <= i < |init| && init[i].0 == o;
      assert offers[i].0 == o;
    }
  }

  // ----- merging the answers

  /** `d'` is what arrives when a replica packs its dictionary before the horizon, after dropping what
      is overdue, with the items in some order, and the receiver unpacks them at some time. */
  ghost predicate Transfers(d: Dictionary, d': Dictionary, horizon: real) {
    exists packedAt: real, items, unpackedAt: real ::
      && packedAt <= horizon
      && Enumerates(items, View(Purify(d, packedAt)))
      && d' == Unpacked(d.items.limit, d.latest, items, unpackedAt)
  }

  /** The reply carries the best of the offers R, before anything expires. */
  ghost predicate Carries(r: Reply, R: set<Offer>, horizon: real) {
    && r.value.Nested? && r.now <= horizon
    && Calm(r.value.dictionary, horizon)
    && (forall o :: o in R ==> o.expiry >= horizon)
    && IsBest(View(r.value.dictionary), R)
    && IsLatest(r.expiry, R)
    && Enumerates(r.order, View(Purify(r.value.dictionary, r.now)))
  }

  /** The search holds the best of the offers R, and goes on. */
  ghost predicate MergedBest(p: Progress, R: set<Offer>, horizon: real) {
    && p.outcome.None? && p.value.Some? && p.value.value.Nested? && p.expiration.Some?
    && Calm(p.value.value.dictionary, horizon)
    && IsBest(View(p.value.value.dictionary), R)
  }

  ghost function ItemOffers(items: seq<(Key, Timed<Bytes>)>): set<Offer> {
    set i | 0 <= i < |items| :: Offer(items[i].0, items[i].1.value, items[i].1.expiry)
  }

  lemma {:induction false} MergeItemsBest(d: Dictionary, R: set<Offer>, items: seq<(Key, Timed<Bytes>)>, now: real,
                                          horizon: real)
    requires Calm(d, horizon) && IsBest(View(d), R) && now <= horizon
    requires forall i :: 0 <= i < |items| ==> items[i].1.expiry >= horizon
    ensures Calm(MergeItems(d, items, now), horizon)
    ensures IsBest(View(MergeItems(d, items, now)), R + ItemOffers(items))
    decreases items
  {
    if items == [] {
      assert R + ItemOffers(items) == R;
    } else {
      var init := items[..|items| - 1];
      var (k, t) := items[|items| - 1];
      MergeItemsBest(d, R, init, now, horizon);
      var o := Offer(k, t.value, t.expiry);
      StoreItemPuts(MergeItems(d, init, now), o, now, now, horizon);
      PutBest(View(MergeItems(d, init, now)), R + ItemOffers(init), o);
      ItemOffersGrow(items);
      assert R + ItemOffers(init) + {o} == R + ItemOffers(items);
    }
  }

  lemma ItemOffersGrow(items: seq<(Key, Timed<Bytes>)>)
    requires items != []
    ensures var last := items[|items| - 1];
            ItemOffers(items) == ItemOffers(items[..|items| - 1]) + {Offer(last.0, last.1.value, last.1.expiry)}
  {
    var init := items[..|items| - 1];
    forall o | o in ItemOffers(items)
      ensures o in ItemOffers(init) || o == Offer(items[|items| - 1].0, items[|items| - 1].1.value,
                                                  items[|items| - 1].1.expiry)
    {
      var i :| 0 <= i < |items| && o == Offer(items[i].0, items[i].1.value, items[i].1.expiry);
      assert i < |init| ==> init[i] == items[i];
    }
    forall o | o in ItemOffers(init)
      ensures o in ItemOffers(items)
    {
      var i :| 0 <= i < |init| && o == Offer(init[i].0, init[i].1.value, init[i].1.expiry);
      assert items[i] == init[i];
    }
  }

  /** The items of a dictionary that is best for R stand for all of R. */
  lemma ItemsStandFor(m: map<Key, Timed<Bytes>>, items: seq<(Key, Timed<Bytes>)>, R: set<Offer>,
                      best: map<Key, Timed<Bytes>>, S: set<Offer>)
    requires Enumerates(items, m) && IsBest(m, R) && IsBest(best, S + ItemOffers(items))
    ensures IsBest(best, S + R)
  {
    forall o | o in R
      ensures o.sub in best && best[o.sub].expiry >= o.expiry
    {
      assert o.sub in KeysOf(items);
      var i :| 0 <= i < |items| && items[i].0 == o.sub;
      var p := Offer(items[i].0, items[i].1.value, items[i].1.expiry);
      assert p in S + ItemOffers(items);
    }
    forall k | k in best
      ensures Offer(k, best[k].value, best[k].expiry) in S + R
    {
      var o := Offer(k, best[k].value, best[k].expiry);
      assert o in S + ItemOffers(items);
      if o !in S {
        var i :| 0 <= i < |items| && o == Offer(items[i].0, items[i].1.value, items[i].1.expiry);
        assert items[i].0 in m && m[items[i].0] == items[i].1;
      }
    }
  }

  /** The expiration of a search after an answer. */
  function Dated(was: Option<real>, expiry: real): Option<real> {
    if Exceeds(expiry, was) then Some(expiry) else was
  }

  /** The search was ended by an answer: its outcome is the best of the offers R, dated by that answer. */
  ghost predicate EndedBest(p: Progress, R: set<Offer>, until: real) {
    && p.outcome.Some? && p.outcome.value.Entries? && p.outcome.value.until == until
    && IsBest(p.outcome.value.entries, R)
  }

  /** What a dictionary answer does to a search that already holds a dictionary. Its expiration becomes
      the greater of the two exactly unless it was 0 and the answer's is negative: 0 counts as none.
      An answer that sets it to a sufficient one ends the search with what has been merged. */
  lemma AbsorbNested(sufficient: real, p: Progress, r: Reply)
    requires p.outcome.None? && p.value.Some? && p.value.value.Nested? && p.expiration.Some? && r.value.Nested?
    requires p.value.value.dictionary.items.limit == Unlimited
    ensures var p', was := Heard(sufficient, p, r), p.expiration.value;
            var merged := MergeItems(p.value.value.dictionary, r.order, r.now);
            && p'.expiration == Dated(p.expiration, r.expiry)
            && (p'.expiration == Some(if r.expiry > was then r.expiry else was) <==> !(was == 0.0 && r.expiry < 0.0))
            && if Exceeds(r.expiry, p.expiration) && r.expiry >= sufficient
               then p'.outcome == Some(Entries(View(Purify(merged, r.now)), r.expiry))
               else p'.outcome.None? && p'.value == Some(Nested(merged))
  {
    var d := p.value.value.dictionary;
    assert d.(items := d.items.(limit := Unlimited)) == d;
  }

  /** Merging one more answer gives the best of both sets of offers, whether it ends the search or not. */
  lemma NextReply(sufficient: real, p: Progress, S: set<Offer>, r: Reply, R: set<Offer>, horizon: real)
    requires MergedBest(p, S, horizon) && Carries(r, R, horizon)
    ensures var p' := Heard(sufficient, p, r);
            if Exceeds(r.expiry, p.expiration) && r.expiry >= sufficient then EndedBest(p', S + R, r.expiry)
            else MergedBest(p', S + R, horizon)
  {
    var d := p.value.value.dictionary;
    var merged := MergeItems(d, r.order, r.now);
    CalmPurge(r.value.dictionary.items, r.now);
    assert Purify(r.value.dictionary, r.now) == r.value.dictionary;
    ItemsTimely(r, R, horizon);
    MergeItemsBest(d, S, r.order, r.now, horizon);
    ItemsStandFor(View(r.value.dictionary), r.order, R, View(merged), S);
    CalmPurge(merged.items, r.now);
    assert Purify(merged, r.now) == merged;
    AbsorbNested(sufficient, p, r);
  }

  lemma FirstReply(sufficient: real, r: Reply, R: set<Offer>, horizon: real)
    requires Carries(r, R, horizon)
    ensures var p' := Heard(sufficient, Progress(None, None, None, None), r);
            && p'.expiration == Some(r.expiry)
            && if r.expiry >= sufficient then EndedBest(p', R, r.expiry) else MergedBest(p', R, horizon)
  {
    CalmPurge(r.value.dictionary.items, r.now);
    assert Purify(r.value.dictionary, r.now) == r.value.dictionary;
  }

  lemma ItemsTimely(r: Reply, R: set<Offer>, horizon: real)
    requires Carries(r, R, horizon) && Purify(r.value.dictionary, r.now) == r.value.dictionary
    ensures forall i :: 0 <= i < |r.order| ==> r.order[i].1.expiry >= horizon
  {
    forall i | 0 <= i < |r.order|
      ensures r.order[i].1.expiry >= horizon
    {
      var k, m := r.order[i].0, View(r.value.dictionary);
      assert k in m && m[k] == r.order[i].1;
      assert Offer(k, m[k].value, m[k].expiry) in R;
    }
  }

  ghost function Union(sets: seq<set<Offer>>): set<Offer> {
    if sets == [] then {} else Union(sets[..|sets| - 1]) + sets[|sets| - 1]
  }

  /** Each answer carries the best of its own offers. */
  ghost predicate AllCarry(replies: seq<Reply>, sets: seq<set<Offer>>, horizon: real) {
    |replies| == |sets| &&
    (replies != [] ==>
       var n := |replies| - 1;
       Carries(replies[n], sets[n], horizon) && AllCarry(replies[..n], sets[..n], horizon))
  }

  lemma {:induction false} PrefixCarries(replies: seq<Reply>, sets: seq<set<Offer>>, horizon: real, n: nat)
    requires AllCarry(replies, sets, horizon) && n <= |replies|
    ensures AllCarry(replies[..n], sets[..n], horizon)
    decreases |replies|
  {
    if n == |replies| {
      assert replies[..n] == replies && sets[..n] == sets;
    } else {
      var m := |replies| - 1;
      PrefixCarries(replies[..m], sets[..m], horizon, n);
      assert replies[..m][..n] == replies[..n] && sets[..m][..n] == sets[..n];
    }
  }

  /** Without a sufficient answer the search goes on with the best of all offers. */
  lemma {:induction false} MergingGivesBest(sufficient: real, replies: seq<Reply>, sets: seq<set<Offer>>, horizon: real)
    requires replies != [] && AllCarry(replies, sets, horizon) && Insufficient(sufficient, replies)
    ensures MergedBest(Absorbed(sufficient, replies), Union(sets), horizon)
    ensures Absorbed(sufficient, replies).expiration == LastDate(replies)
    decreases replies
  {
    var n := |replies| - 1;
    if n == 0 {
      OnlyReply(sufficient, replies, sets, horizon);
    } else {
      var p, S := Absorbed(sufficient, replies[..n]), Union(sets[..n]);
      MergingGivesBest(sufficient, replies[..n], sets[..n], horizon);
      NextReply(sufficient, p, S, replies[n], sets[n], horizon);
      AbsorbNested(sufficient, p, replies[n]);
    }
  }

  lemma OnlyReply(sufficient: real, replies: seq<Reply>, sets: seq<set<Offer>>, horizon: real)
    requires |replies| == |sets| == 1 && Carries(replies[0], sets[0], horizon)
    ensures Absorbed(sufficient, replies).expiration == LastDate(replies) == Some(replies[0].expiry)
    ensures var p := Absorbed(sufficient, replies);
            if replies[0].expiry >= sufficient then EndedBest(p, Union(sets), replies[0].expiry)
            else MergedBest(p, Union(sets), horizon)
  {
    var none: seq<Reply> := [];
    assert replies[..0] == none && sets[..0] == [];
    assert Absorbed(sufficient, none) == Progress(None, None, None, None) && LastDate(none) == None;
    assert Union(sets) == {} + sets[0] == sets[0];
    FirstReply(sufficient, replies[0], sets[0], horizon);
  }

  // ----- the expiration of the search

  /** The expiration that a search ends with, from those of its answers. */
  ghost function LastDate(replies: seq<Reply>): Option<real> {
    if replies == [] then None else Dated(LastDate(replies[..|replies| - 1]), replies[|replies| - 1].expiry)
  }

  /** A search ends with the greatest expiration of its answers exactly if that is not 0, or the last
      answer has it: after it, every answer with a negative expiration would replace it. */
  lemma {:induction false} GreatestKeptIff(replies: seq<Reply>, e: real)
    requires replies != [] && IsGreatest(e, replies)
    ensures LastDate(replies).Some? && LastDate(replies).value <= e
    ensures LastDate(replies) == Some(e) <==> e != 0.0 || replies[|replies| - 1].expiry == 0.0
    decreases replies
  {
    var n := |replies| - 1;
    var init, last := replies[..n], replies[n].expiry;
    if n > 0 {
      var e' := GreatestExists(init);
      GreatestStep(replies, e', e);
      GreatestKeptIff(init, e');
    }
  }

  lemma {:induction false} GreatestExists(replies: seq<Reply>) returns (e: real)
    requires replies != []
    ensures IsGreatest(e, replies)
    decreases replies
  {
    var n := |replies| - 1;
    e := replies[n].expiry;
    if n > 0 {
      var e' := GreatestExists(replies[..n]);
      var i :| 0 <= i < n && replies[..n][i].expiry == e';
      assert replies[i].expiry == e';
      e := if e' > e then e' else e;
      assert forall j :: 0 <= j < n ==> replies[j].expiry == replies[..n][j].expiry;
    }
  }

  lemma GreatestStep(replies: seq<Reply>, e': real, e: real)
    requires |replies| >= 2 && IsGreatest(e', replies[..|replies| - 1]) && IsGreatest(e, replies)
    ensures e == if replies[|replies| - 1].expiry > e' then replies[|replies| - 1].expiry else e'
  {
    var n := |replies| - 1;
    var i :| 0 <= i < n && replies[..n][i].expiry == e';
    assert replies[i].expiry == e';
    var j :| 0 <= j < |replies| && replies[j].expiry == e;
    assert j < n ==> replies[..n][j].expiry == e;
  }

  /** The latest of all offers is the greatest expiration of the replies. */
  lemma {:induction false} LatestIsGreatest(replies: seq<Reply>, sets: seq<set<Offer>>, horizon: real, e: real)
    requires replies != [] && AllCarry(replies, sets, horizon) && IsGreatest(e, replies)
    ensures IsLatest(e, Union(sets))
    decreases replies
  {
    var n := |replies| - 1;
    if n == 0 {
      assert sets[..0] == [];
      assert Union(sets) == {} + sets[0] == sets[0];
    } else {
      var e' := GreatestExists(replies[..n]);
      GreatestStep(replies, e', e);
      LatestIsGreatest(replies[..n], sets[..n], horizon, e');
      LatestMerges(e', Union(sets[..n]), replies[n].expiry, sets[n]);
    }
  }

  lemma LatestMerges(e: real, S: set<Offer>, f: real, R: set<Offer>)
    requires IsLatest(e, S) && IsLatest(f, R)
    ensures IsLatest(if f > e then f else e, S + R)
  {
    var a :| a in S && a.expiry == e;
    var b :| b in R && b.expiry == f;
    assert a in S + R && b in S + R;
  }

  /** An answer that expires at time 0 is forgotten by the next one, although that expires earlier. */
  lemma ZeroIsForgotten(sufficient: real, r: Reply, r': Reply)
    requires 0.0 == r.expiry < sufficient && r'.expiry == -1.0
    ensures Absorbed(sufficient, [r, r']).expiration == Some(-1.0) && IsGreatest(0.0, [r, r'])
  {
    var none: seq<Reply> := [];
    assert [r][..0] == none && [r, r'][..1] == [r];
    assert Absorbed(sufficient, none) == Progress(None, None, None, None);
    assert Absorbed(sufficient, [r]) == Progress(Some(r.value), Some(0.0), r.source, None);
    assert [r, r'][0].expiry == 0.0;
  }

  // ----- the end of the search

  /** The first sufficient answer ends the search. */
  lemma EndsAt(sufficient: real, replies: seq<Reply>, sets: seq<set<Offer>>, horizon: real)
    requires replies != [] && AllCarry(replies, sets, horizon)
    requires Insufficient(sufficient, replies[..|replies| - 1]) && replies[|replies| - 1].expiry >= sufficient
    ensures EndedBest(Absorbed(sufficient, replies), Union(sets), replies[|replies| - 1].expiry)
  {
    var n := |replies| - 1;
    if n == 0 {
      OnlyReply(sufficient, replies, sets, horizon);
    } else {
      var p, S := Absorbed(sufficient, replies[..n]), Union(sets[..n]);
      MergingGivesBest(sufficient, replies[..n], sets[..n], horizon);
      DateInsufficient(sufficient, replies[..n]);
      NextReply(sufficient, p, S, replies[n], sets[n], horizon);
    }
  }

  lemma DateInsufficient(sufficient: real, replies: seq<Reply>)
    requires replies != [] && Insufficient(sufficient, replies)
    ensures LastDate(replies).Some? && LastDate(replies).value < sufficient
  {
    var e := GreatestExists(replies);
    GreatestKeptIff(replies, e);
  }

  lemma HeededEnds(sufficient: real, replies: seq<Reply>)
    requires replies != []
    ensures var n := Heeded(sufficient, replies);
            && replies[..n][n - 1] == replies[n - 1]
            && Insufficient(sufficient, replies[..n][..n - 1])
            && (replies[n - 1].expiry < sufficient ==> n == |replies| && Insufficient(sufficient, replies))
  {
  }

  lemma SufficientEnds(sufficient: real, replies: seq<Reply>, sets: seq<set<Offer>>, horizon: real, n: nat)
    requires AllCarry(replies, sets, horizon) && 1 <= n <= |replies| && replies[n - 1].expiry >= sufficient
    requires replies[..n][n - 1] == replies[n - 1] && Insufficient(sufficient, replies[..n][..n - 1])
    ensures EndedBest(Absorbed(sufficient, replies[..n]), Union(sets[..n]), replies[n - 1].expiry)
    ensures Absorbed(sufficient, replies) == Absorbed(sufficient, replies[..n])
  {
    PrefixCarries(replies, sets, horizon, n);
    EndsAt(sufficient, replies[..n], sets[..n], horizon);
    OutcomeIsFinal(sufficient, replies, n);
  }

  /** A search ends at its first sufficient answer, with the best of the answers up to that one;
      without a sufficient answer it goes on with the best of all of them. */
  lemma HeededGivesBest(sufficient: real, replies: seq<Reply>, sets: seq<set<Offer>>, horizon: real)
    requires replies != [] && AllCarry(replies, sets, horizon)
    ensures var p, n := Absorbed(sufficient, replies), Heeded(sufficient, replies);
            if replies[n - 1].expiry >= sufficient then EndedBest(p, Union(sets[..n]), replies[n - 1].expiry)
            else n == |replies| && MergedBest(p, Union(sets), horizon) && p.expiration == LastDate(replies)
  {
    var n := Heeded(sufficient, replies);
    HeededEnds(sufficient, replies);
    if replies[n - 1].expiry >= sufficient {
      SufficientEnds(sufficient, replies, sets, horizon, n);
    } else {
      MergingGivesBest(sufficient, replies, sets, horizon);
    }
  }

  // ----- the theorem

  /** The reply is the dictionary that a replica built from this history, as transferred. */
  ghost predicate AnswersFrom(r: Reply, k: Key, history: seq<(Offer, Moments)>, horizon: real) {
    && history != [] && Timely(history, horizon)
    && r.value.Nested? && r.now <= horizon
    && var s := Received(FlatState(map[], false, Unlimited), k, history);
    && k in s.records && s.records[k].value.Nested?
    && Transfers(s.records[k].value.dictionary, r.value.dictionary, horizon)
    && r.expiry == s.records[k].expiry
    && Enumerates(r.order, View(Purify(r.value.dictionary, r.now)))
  }

  lemma AnswerCarries(r: Reply, k: Key, history: seq<(Offer, Moments)>, horizon: real)
    requires AnswersFrom(r, k, history, horizon)
    ensures Carries(r, OffersOf(history), horizon)
  {
    var s := Received(FlatState(map[], false, Unlimited), k, history);
    ReplicaHoldsBest(FlatState(map[], false, Unlimited), k, history, horizon);
    TransferLosesNothing(s.records[k].value.dictionary, r.value.dictionary, OffersOf(history), horizon);
  }

  /** Before the horizon, packing and unpacking loses no entry. */
  lemma TransferLosesNothing(d: Dictionary, d': Dictionary, R: set<Offer>, horizon: real)
    requires Calm(d, horizon) && Transfers(d, d', horizon)
    requires IsBest(View(d), R) && forall o :: o in R ==> o.expiry >= horizon
    ensures Calm(d', horizon) && View(d') == View(d) && d'.latest == d.latest
  {
    var packedAt: real, items, unpackedAt: real :|
      && packedAt <= horizon
      && Enumerates(items, View(Purify(d, packedAt)))
      && d' == Unpacked(d.items.limit, d.latest, items, unpackedAt);
    CalmPurge(d.items, packedAt);
    assert Purify(d, packedAt) == d;
    UnpackedIsRebuilt(d.items.limit, d.latest, items, View(d), unpackedAt);
    forall k | k in d'.items.records
      ensures d'.items.records[k].evictAt >= horizon
    {
      assert Offer(k, View(d)[k].value, View(d)[k].expiry) in R;
    }
  }

  ghost function OfferSets(histories: seq<seq<(Offer, Moments)>>): (sets: seq<set<Offer>>)
    ensures |sets| == |histories| && forall i :: 0 <= i < |sets| ==> sets[i] == OffersOf(histories[i])
  {
    seq(|histories|, i requires 0 <= i < |histories| => OffersOf(histories[i]))
  }

  /** All offers that some replica received. */
  ghost function AllOffers(histories: seq<seq<(Offer, Moments)>>): set<Offer> {
    Union(OfferSets(histories))
  }

  lemma OffersPrefix(histories: seq<seq<(Offer, Moments)>>, n: nat)
    requires n <= |histories|
    ensures OfferSets(histories[..n]) == OfferSets(histories)[..n]
  {
  }

  /** The date of a search against the latest of its offers: it is that exactly unless that is 0 and
      the last answer is negative, and so always if none is. */
  ghost predicate DatedLatest(date: real, R: set<Offer>, last: real, horizon: real) {
    exists latest ::
      && IsLatest(latest, R)
      && (date == latest <==> latest != 0.0 || last == 0.0)
      && (horizon >= 0.0 ==> date == latest)
  }

  lemma LatestDated(replies: seq<Reply>, sets: seq<set<Offer>>, horizon: real)
    requires replies != [] && AllCarry(replies, sets, horizon)
    ensures LastDate(replies).Some?
    ensures DatedLatest(LastDate(replies).value, Union(sets), replies[|replies| - 1].expiry, horizon)
  {
    var latest := GreatestExists(replies);
    GreatestKeptIff(replies, latest);
    LatestIsGreatest(replies, sets, horizon, latest);
    ReplyNotBefore(replies[|replies| - 1], sets[|replies| - 1], horizon);
  }

  lemma CallerEnds(p: Progress, R: set<Offer>, horizon: real, now: real)
    requires MergedBest(p, R, horizon) && now <= horizon
    ensures EndedBest(Conclude(p, now), R, p.expiration.value)
  {
    CalmPurge(p.value.value.dictionary.items, now);
    assert Purify(p.value.value.dictionary, now) == p.value.value.dictionary;
  }

  /** Concluding a search, however it ended, before anything expires. */
  lemma ConcludedBest(sufficient: real, replies: seq<Reply>, sets: seq<set<Offer>>, horizon: real, now: real)
    requires replies != [] && AllCarry(replies, sets, horizon) && now <= horizon
    ensures var n := Heeded(sufficient, replies);
            && LastDate(replies[..n]).Some?
            && EndedBest(Conclude(Absorbed(sufficient, replies), now), Union(sets[..n]), LastDate(replies[..n]).value)
  {
    var n, p := Heeded(sufficient, replies), Absorbed(sufficient, replies);
    HeededGivesBest(sufficient, replies, sets, horizon);
    var latest := GreatestExists(replies[..n]);
    GreatestKeptIff(replies[..n], latest);
    if replies[n - 1].expiry >= sufficient {
      LastIsGreatest(sufficient, replies, latest);
    } else {
      assert replies[..n] == replies && sets[..n] == sets;
      CallerEnds(p, Union(sets), horizon, now);
    }
  }

  /** A sufficient answer is the greatest of those that count. */
  lemma LastIsGreatest(sufficient: real, replies: seq<Reply>, e: real)
    requires replies != [] && IsGreatest(e, replies[..Heeded(sufficient, replies)])
    ensures var n := Heeded(sufficient, replies); replies[n - 1].expiry >= sufficient ==> e == replies[n - 1].expiry
  {
    var n := Heeded(sufficient, replies);
    var i :| 0 <= i < n && replies[..n][i].expiry == e;
    assert replies[..n][n - 1].expiry <= e;
  }

  lemma ReplyNotBefore(r: Reply, R: set<Offer>, horizon: real)
    requires Carries(r, R, horizon)
    ensures r.expiry >= horizon
  {
    var o :| o in R && o.expiry == r.expiry;
  }

  lemma {:induction false} AnswersCarry(k: Key, histories: seq<seq<(Offer, Moments)>>, replies: seq<Reply>,
                                        horizon: real)
    requires |histories| == |replies|
    requires forall i :: 0 <= i < |replies| ==> AnswersFrom(replies[i], k, histories[i], horizon)
    ensures AllCarry(replies, OfferSets(histories), horizon)
    decreases replies
  {
    if replies != [] {
      var n := |replies| - 1;
      AnswersCarry(k, histories[..n], replies[..n], horizon);
      AnswerCarries(replies[n], k, histories[n], horizon);
      OffersPrefix(histories, n);
    }
  }

  /** What a search returns that is finished, by an answer or by its caller: the best of the offers R,
      dated by the latest of them. */
  ghost predicate ReturnsBest(outcome: Option<Outcome>, R: set<Offer>, last: real, horizon: real) {
    && outcome.Some? && outcome.value.Entries?
    && IsBest(outcome.value.entries, R)
    && DatedLatest(outcome.value.until, R, last, horizon)
  }

  lemma EndedReturns(p: Progress, R: set<Offer>, until: real, last: real, horizon: real)
    requires EndedBest(p, R, until) && DatedLatest(until, R, last, horizon)
    ensures ReturnsBest(p.outcome, R, last, horizon)
  {
  }

  lemma AnswersConverge(sufficient: real, replies: seq<Reply>, sets: seq<set<Offer>>, horizon: real, now: real)
    requires replies != [] && AllCarry(replies, sets, horizon) && now <= horizon
    ensures var n, p := Heeded(sufficient, replies), Absorbed(sufficient, replies);
            ReturnsBest(Conclude(p, now).outcome, Union(sets[..n]), replies[n - 1].expiry, horizon)
  {
    var n, p := Heeded(sufficient, replies), Absorbed(sufficient, replies);
    var counted, R := replies[..n], Union(sets[..n]);
    ConcludedBest(sufficient, replies, sets, horizon, now);
    PrefixCarries(replies, sets, horizon, n);
    LatestDated(counted, sets[..n], horizon);
    assert counted[n - 1] == replies[n - 1];
    EndedReturns(Conclude(p, now), R, LastDate(counted).value, replies[n - 1].expiry, horizon);
  }

  /** Replicas that each received some of the offers, in their own order, before any expiration; their
      answers merged in any order; the search ended by its first sufficient answer or, at some time
      before any expiration, by its caller. What it returns is the greatest-expiration record of each
      sub-key over all replicas whose answers counted. Its expiration is the latest of their offers
      exactly unless that is 0 and the last of these answers is negative; so always if none is. */
  lemma ReplicasConverge(sufficient: real, k: Key, histories: seq<seq<(Offer, Moments)>>, replies: seq<Reply>,
                         horizon: real, now: real)
    requires |histories| == |replies| && replies != [] && now <= horizon
    requires forall i :: 0 <= i < |replies| ==> AnswersFrom(replies[i], k, histories[i], horizon)
    ensures var n, p := Heeded(sufficient, replies), Absorbed(sufficient, replies);
            && (p.outcome.Some? <==> replies[n - 1].expiry >= sufficient)
            && ReturnsBest(Conclude(p, now).outcome, AllOffers(histories[..n]), replies[n - 1].expiry, horizon)
  {
    var n := Heeded(sufficient, replies);
    var sets := OfferSets(histories);
    AnswersCarry(k, histories, replies, horizon);
    OffersPrefix(histories, n);
    HeededGivesBest(sufficient, replies, sets, horizon);
    AnswersConverge(sufficient, replies, sets, horizon, now);
  }

  lemma LatestUnique(e: real, f: real, R: set<Offer>)
    requires IsLatest(e, R) && IsLatest(f, R)
    ensures e == f
  {
  }

  /** Two searches whose answers that counted come from replicas with the same offers, without ties,
      return the same entries, and the same expiration if none is negative. */
  lemma SearchesAgree(k: Key, horizon: real,
                      sufficient: real, histories: seq<seq<(Offer, Moments)>>, replies: seq<Reply>, now: real,
                      sufficient': real, histories': seq<seq<(Offer, Moments)>>, replies': seq<Reply>, now': real)
    requires |histories| == |replies| && replies != [] && now <= horizon
    requires |histories'| == |replies'| && replies' != [] && now' <= horizon
    requires forall i :: 0 <= i < |replies| ==> AnswersFrom(replies[i], k, histories[i], horizon)
    requires forall i :: 0 <= i < |replies'| ==> AnswersFrom(replies'[i], k, histories'[i], horizon)
    requires var R := AllOffers(histories[..Heeded(sufficient, replies)]);
             TieFree(R) && R == AllOffers(histories'[..Heeded(sufficient', replies')])
    ensures var o := Conclude(Absorbed(sufficient, replies), now).outcome;
            var o' := Conclude(Absorbed(sufficient', replies'), now').outcome;
            && o.Some? && o.value.Entries? && o'.Some? && o'.value.Entries?
            && o.value.entries == o'.value.entries
            && (horizon >= 0.0 ==> o == o')
  {
    var o := Conclude(Absorbed(sufficient, replies), now).outcome;
    var o' := Conclude(Absorbed(sufficient', replies'), now').outcome;
    var R := AllOffers(histories[..Heeded(sufficient, replies)]);
    ReplicasConverge(sufficient, k, histories, replies, horizon, now);
    ReplicasConverge(sufficient', k, histories', replies', horizon, now');
    BestUnique(o.value.entries, o'.value.entries, R);
    if horizon >= 0.0 {
      LatestUnique(o.value.until, o'.value.until, R);
    }
  }
}
