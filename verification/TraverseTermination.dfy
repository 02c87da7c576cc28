/**
 Total correctness of the concurrent beam search: if peers report nodes of a finite set only, every
 run is finite, with an explicit bound on its events, and a run that cannot go on has finished
 every query.
 */
module TraversalTermination {
  import opened Collections
  import opened XorMetric
  import opened Ranking
  import opened Traversal
  import opened TraversalProofs

  // ----- the potential of a state

  /** What a node can still cost one query: it may yet become known, yet be visited, and, as a
      candidate, yet be popped. `n` is the number of workers. */
  function Weight(n: nat, s: Search, x: Id): nat {
    (if x in s.known then 0 else n + 2) + (if x in s.visited then 0 else n + 2) + (if x in s.candidates then 1 else 0)
  }

  /** What the nodes of `us` can still cost. */
  function Cost(us: seq<Id>, n: nat, s: Search): nat {
    if us == [] then 0 else Weight(n, s, us[0]) + Cost(us[1..], n, s)
  }

  function Costs(us: seq<Id>, n: nat, searches: map<Id, Search>): map<Id, nat> {
    map q | q in searches :: Cost(us, n, searches[q])
  }

  function Total(costs: map<Id, nat>, qs: seq<Id>): nat {
    if qs == [] then 0 else (if qs[0] in costs then costs[qs[0]] else 0) + Total(costs, qs[1..])
  }

  /** A returning call makes its own worker ready and may wake all the others. */
  function Effort(w: Worker, n: nat): nat {
    match w
    case Ready => 1
    case Calling(_, _) => n + 1
    case _ => 0
  }

  function Load(ws: seq<Worker>, n: nat): nat {
    if ws == [] then 0 else Effort(ws[0], n) + Load(ws[1..], n)
  }

  /** `us` and `qs` list the nodes and the queries. */
  function Potential(us: seq<Id>, qs: seq<Id>, st: State): nat {
    Total(Costs(us, |st.workers|, st.searches), qs) + Load(st.workers, |st.workers|)
  }

  // ----- one query

  ghost predicate Inside(us: seq<Id>, s: Search) {
    s.candidates <= s.known && forall x :: x in s.known ==> x in us
  }

  lemma {:induction false} CostDrops(us: seq<Id>, n: nat, s: Search, s': Search, x: Id, drop: nat)
    requires forall u :: Weight(n, s', u) <= Weight(n, s, u)
    requires Weight(n, s', x) + drop <= Weight(n, s, x)
    ensures Cost(us, n, s') + (if x in us then drop else 0) <= Cost(us, n, s)
    decreases us
  {
    if us != [] {
      CostDrops(us[1..], n, s, s', x, drop);
    }
  }

  lemma {:induction false} SameCost(us: seq<Id>, n: nat, s: Search, s': Search)
    requires s'.known == s.known && s'.visited == s.visited && s'.candidates == s.candidates
    ensures Cost(us, n, s') == Cost(us, n, s)
    decreases us
  {
    if us != [] {
      SameCost(us[1..], n, s, s');
    }
  }

  lemma DiscoverCost(q: Id, beam: nat, us: seq<Id>, n: nat, s: Search, x: Id)
    requires beam >= 1 && Inside(us, s) && x in us
    ensures var s' := Discover(q, beam, s, x); Inside(us, s') && Cost(us, n, s') <= Cost(us, n, s)
  {
    CostDrops(us, n, s, Discover(q, beam, s, x), x, 0);
  }

  lemma {:induction false} DiscoverAllCost(q: Id, beam: nat, us: seq<Id>, n: nat, s: Search, xs: seq<Id>)
    requires beam >= 1 && Inside(us, s) && forall x :: x in xs ==> x in us
    ensures var s' := DiscoverAll(q, beam, s, xs); Inside(us, s') && Cost(us, n, s') <= Cost(us, n, s)
    decreases xs
  {
    if xs != [] {
      DiscoverCost(q, beam, us, n, s, xs[0]);
      DiscoverAllCost(q, beam, us, n, Discover(q, beam, s, xs[0]), xs[1..]);
    }
  }

  lemma PopCost(us: seq<Id>, n: nat, s: Search, x: Id)
    requires Inside(us, s) && x in s.candidates
    ensures var s' := s.(candidates := s.candidates - {x}); Inside(us, s') && Cost(us, n, s') < Cost(us, n, s)
  {
    CostDrops(us, n, s, s.(candidates := s.candidates - {x}), x, 1);
  }

  /** A peer that is visited for the first time pays for the call and for a ready worker. */
  lemma CalledCost(us: seq<Id>, n: nat, s: Search, peer: Id, chosen: bool, called: bool)
    requires Inside(us, s) && peer in us
    ensures var s' := Called(s, peer, chosen, called);
            && Inside(us, s')
            && Cost(us, n, s') + (if called && peer !in s.visited then n + 2 else 0) <= Cost(us, n, s)
  {
    CostDrops(us, n, s, Called(s, peer, chosen, called), peer, if called && peer !in s.visited then n + 2 else 0);
  }

  // ----- sums

  ghost predicate NoDearer(costs: map<Id, nat>, costs': map<Id, nat>) {
    costs'.Keys == costs.Keys && forall q :: q in costs ==> costs'[q] <= costs[q]
  }

  lemma {:induction false} TotalDrops(costs: map<Id, nat>, costs': map<Id, nat>, qs: seq<Id>, q: Id, drop: nat)
    requires NoDearer(costs, costs') && q in costs && costs'[q] + drop <= costs[q]
    ensures Total(costs', qs) + (if q in qs then drop else 0) <= Total(costs, qs)
    decreases qs
  {
    if qs != [] {
      TotalDrops(costs, costs', qs[1..], q, drop);
    }
  }

  lemma OneCost(us: seq<Id>, n: nat, searches: map<Id, Search>, q: Id, s: Search)
    requires q in searches && Cost(us, n, s) <= Cost(us, n, searches[q])
    ensures NoDearer(Costs(us, n, searches), Costs(us, n, searches[q := s]))
  {
  }

  /** Counters and records of finished searches cost nothing. */
  lemma SameCosts(us: seq<Id>, n: nat, searches: map<Id, Search>, searches': map<Id, Search>)
    requires searches'.Keys == searches.Keys
    requires forall q :: q in searches ==>
      && searches'[q].known == searches[q].known && searches'[q].visited == searches[q].visited
      && searches'[q].candidates == searches[q].candidates
    ensures Costs(us, n, searches') == Costs(us, n, searches)
  {
    forall q | q in searches
      ensures Cost(us, n, searches'[q]) == Cost(us, n, searches[q])
    {
      SameCost(us, n, searches[q], searches'[q]);
    }
  }

  lemma {:induction false} LoadUpdate(ws: seq<Worker>, i: nat, w: Worker, n: nat)
    requires i < |ws|
    ensures Load(ws[i := w], n) == Load(ws, n) - Effort(ws[i], n) + Effort(w, n)
    decreases ws
  {
    if i == 0 {
      assert ws[0 := w][1..] == ws[1..];
    } else {
      assert ws[i := w][1..] == ws[1..][i - 1 := w];
      LoadUpdate(ws[1..], i - 1, w, n);
    }
  }

  lemma {:induction false} LoadWoken(ws: seq<Worker>, n: nat)
    ensures Load(Woken(ws), n) <= Load(ws, n) + |ws|
    ensures (exists i :: 0 <= i < |ws| && ws[i] == Ready) ==> Load(Woken(ws), n) < Load(ws, n) + |ws|
    decreases ws
  {
    if ws != [] {
      assert Woken(ws)[1..] == Woken(ws[1..]);
      LoadWoken(ws[1..], n);
      if i :| 0 <= i < |ws| && ws[i] == Ready {
        assert i > 0 ==> ws[1..][i - 1] == Ready;
      }
    }
  }

  // ----- every event lowers the potential

  ghost predicate AllInside(us: seq<Id>, st: State) {
    forall q :: q in st.searches ==> Inside(us, st.searches[q])
  }

  /** The state is still inside, and closer to the end. */
  ghost predicate Lower(us: seq<Id>, qs: seq<Id>, st: State, st': State) {
    && AllInside(us, st')
    && st'.searches.Keys == st.searches.Keys
    && |st'.workers| == |st.workers|
    && Potential(us, qs, st') < Potential(us, qs, st)
  }

  lemma IdleLower(us: seq<Id>, qs: seq<Id>, st: State, w: nat, to: Worker)
    requires AllInside(us, st) && w < |st.workers| && (to == Parked || to == Gone)
    requires st.workers[w] == Ready || st.workers[w].Calling?
    ensures Lower(us, qs, st, st.(workers := st.workers[w := to]))
  {
    LoadUpdate(st.workers, w, to, |st.workers|);
  }

  lemma FinishAllSame(us: seq<Id>, qs: seq<Id>, p: Params, st: State)
    requires AllInside(us, st)
    ensures AllInside(us, FinishAll(p, st)) && Potential(us, qs, FinishAll(p, st)) == Potential(us, qs, st)
  {
    SameCosts(us, |st.workers|, st.searches, FinishAll(p, st).searches);
  }

  lemma PopLower(us: seq<Id>, qs: seq<Id>, st: State, q: Id, x: Id)
    requires AllInside(us, st) && q in st.searches && q in qs && x in st.searches[q].candidates
    ensures var s := st.searches[q];
            Lower(us, qs, st, st.(searches := st.searches[q := s.(candidates := s.candidates - {x})]))
  {
    var n, s := |st.workers|, st.searches[q];
    var s' := s.(candidates := s.candidates - {x});
    PopCost(us, n, s, x);
    OneCost(us, n, st.searches, q, s');
    TotalDrops(Costs(us, n, st.searches), Costs(us, n, st.searches[q := s']), qs, q, 1);
  }

  lemma CallLower(us: seq<Id>, qs: seq<Id>, st: State, w: nat, q: Id, peer: Id, called: seq<Id>)
    requires AllInside(us, st) && w < |st.workers| && st.workers[w] == Ready
    requires q in st.searches && q in qs && q in called && peer in us && peer !in st.searches[q].visited
    ensures Lower(us, qs, st, st.(searches := CalledAll(st.searches, peer, q, called),
                                  workers := st.workers[w := Calling(peer, called)]))
  {
    var n := |st.workers|;
    var searches := CalledAll(st.searches, peer, q, called);
    forall o | o in st.searches
      ensures Inside(us, searches[o])
      ensures Costs(us, n, searches)[o] + (if o == q then n + 2 else 0) <= Costs(us, n, st.searches)[o]
    {
      CalledCost(us, n, st.searches[o], peer, o == q, o in called);
    }
    TotalDrops(Costs(us, n, st.searches), Costs(us, n, searches), qs, q, n + 2);
    LoadUpdate(st.workers, w, Calling(peer, called), n);
  }

  lemma ExpandLower(us: seq<Id>, qs: seq<Id>, p: Params, st: State, w: nat, q: Id)
    requires p.Valid() && AllInside(us, st) && w < |st.workers| && st.workers[w] == Ready
    requires q in st.unfinished && q in st.searches && q in qs && HasCandidates(q, p.beam, st.searches[q])
    ensures Lower(us, qs, st, Expand(p, st, w, q))
  {
    var s := st.searches[q];
    var peer := Root(q, s.candidates);
    RootIsClosest(q, s.candidates);
    if peer in s.visited {
      PopLower(us, qs, st, q, peer);
    } else {
      ExpandCalls(p, st, w, q);
      var called := QueriesToCall(p, st, q, peer);
      assert called[0] == q;
      CallLower(us, qs, st, w, q, peer, called);
    }
  }

  lemma TurnLower(us: seq<Id>, qs: seq<Id>, p: Params, st: State, w: nat, q: Id)
    requires p.Valid() && AllInside(us, st) && Enabled(p, st, Turn(w, q))
    requires forall o :: o in st.searches ==> o in qs
    ensures Lower(us, qs, st, RunTurn(p, st, w, q))
  {
    if st.unfinished == {} {
      IdleLower(us, qs, st, w, Gone);
    } else if HasCandidates(q, p.beam, st.searches[q]) {
      ExpandLower(us, qs, p, st, w, q);
    } else if SomeActive(st) {
      IdleLower(us, qs, st, w, Parked);
    } else {
      FinishAllSame(us, qs, p, st);
      IdleLower(us, qs, FinishAll(p, st), w, Gone);
    }
  }

  ghost predicate ReplyWithin(reply: seq<Answer>, U: set<Id>) {
    forall a, x :: a in reply && x in a.neighbors ==> x in U
  }

  lemma MergeAnswerCost(us: seq<Id>, p: Params, st: State, a: Answer)
    requires p.Valid() && AllInside(us, st) && forall x :: x in a.neighbors ==> x in us
    ensures var st' := MergeAnswer(p, st, a);
            AllInside(us, st') && NoDearer(Costs(us, |st.workers|, st.searches), Costs(us, |st.workers|, st'.searches))
  {
    var n, q := |st.workers|, a.query;
    if q in st.searches {
      var s := st.searches[q];
      if a.stop {
        SameCosts(us, n, st.searches, st.searches[q := Close(q, p.beam, s, true)]);
      } else {
        DiscoverAllCost(q, p.beam, us, n, s, a.neighbors);
        OneCost(us, n, st.searches, q, DiscoverAll(q, p.beam, s, a.neighbors));
      }
    }
  }

  lemma {:induction false} MergeReplyCost(us: seq<Id>, p: Params, st: State, reply: seq<Answer>)
    requires p.Valid() && AllInside(us, st) && ReplyWithin(reply, Elems(us))
    ensures var st' := MergeReply(p, st, reply);
            AllInside(us, st') && NoDearer(Costs(us, |st.workers|, st.searches), Costs(us, |st.workers|, st'.searches))
    decreases reply
  {
    if reply != [] {
      forall x | x in reply[0].neighbors
        ensures x in us
      {
        assert reply[0] in reply;
        assert x in Elems(us);
      }
      MergeAnswerCost(us, p, st, reply[0]);
      MergeReplyCost(us, p, MergeAnswer(p, st, reply[0]), reply[1..]);
    }
  }

  lemma ReleaseLower(us: seq<Id>, qs: seq<Id>, st: State, w: nat, released: seq<Id>)
    requires AllInside(us, st) && w < |st.workers| && st.workers[w].Calling?
    ensures Lower(us, qs, st, Release(st, w, released))
  {
    var n := |st.workers|;
    SameCosts(us, n, st.searches, Release(st, w, released).searches);
    LoadUpdate(st.workers, w, Ready, n);
    assert st.workers[w := Ready][w] == Ready;
    LoadWoken(st.workers[w := Ready], n);
  }

  lemma ReturnLower(us: seq<Id>, qs: seq<Id>, p: Params, st: State, w: nat, reply: seq<Answer>)
    requires p.Valid() && AllInside(us, st) && st.searches != map[] && Enabled(p, st, Return(w, reply))
    requires ReplyWithin(reply, Elems(us))
    ensures Lower(us, qs, st, Next(p, st, Return(w, reply)))
  {
    if st.searchFinished {
      IdleLower(us, qs, st, w, Gone);
    } else {
      var n, merged := |st.workers|, MergeReply(p, st, reply);
      MergeReplyCost(us, p, st, reply);
      var q := SomeKey(st.searches);
      TotalDrops(Costs(us, n, st.searches), Costs(us, n, merged.searches), qs, q, 0);
      assert merged.searches.Keys == Costs(us, n, merged.searches).Keys == st.searches.Keys;
      ReleaseLower(us, qs, merged, w, st.workers[w].queries);
    }
  }

  // ----- whole runs

  /** At most this many events, for n workers, u nodes and q queries. */
  function EventBound(n: nat, u: nat, q: nat): nat {
    (2 * n + 5) * u * q + n
  }

  /** Repeated addition, kept away from non-linear arithmetic. */
  function Times(k: nat, m: nat): nat {
    if m == 0 then 0 else k + Times(k, m - 1)
  }

  lemma {:induction false} TimesIsProduct(k: nat, m: nat)
    ensures Times(k, m) == k * m
    decreases m
  {
    if m > 0 {
      TimesIsProduct(k, m - 1);
      assert k * m == k * (m - 1) + k;
    }
  }

  function Highest(n: nat, u: nat, q: nat): nat {
    Times(Times(2 * n + 5, u), q) + n
  }

  lemma BoundIs(n: nat, u: nat, q: nat)
    ensures Highest(n, u, q) == EventBound(n, u, q)
  {
    TimesIsProduct(2 * n + 5, u);
    TimesIsProduct(Times(2 * n + 5, u), q);
  }

  lemma {:induction false} CostAtMost(us: seq<Id>, n: nat, s: Search)
    ensures Cost(us, n, s) <= Times(2 * n + 5, |us|)
    decreases us
  {
    if us != [] {
      CostAtMost(us[1..], n, s);
    }
  }

  lemma {:induction false} TotalAtMost(costs: map<Id, nat>, qs: seq<Id>, most: nat)
    requires forall q :: q in costs ==> costs[q] <= most
    ensures Total(costs, qs) <= Times(most, |qs|)
    decreases qs
  {
    if qs != [] {
      TotalAtMost(costs, qs[1..], most);
    }
  }

  lemma {:induction false} LoadReady(ws: seq<Worker>, n: nat)
    requires forall i :: 0 <= i < |ws| ==> ws[i] == Ready
    ensures Load(ws, n) == |ws|
    decreases ws
  {
    if ws != [] {
      LoadReady(ws[1..], n);
    }
  }

  lemma StartPotential(us: seq<Id>, qs: seq<Id>, st: State)
    requires forall i :: 0 <= i < |st.workers| ==> st.workers[i] == Ready
    ensures Potential(us, qs, st) <= Highest(|st.workers|, |us|, |qs|)
  {
    var n := |st.workers|;
    forall q | q in st.searches
      ensures Costs(us, n, st.searches)[q] <= Times(2 * n + 5, |us|)
    {
      CostAtMost(us, n, st.searches[q]);
    }
    TotalAtMost(Costs(us, n, st.searches), qs, Times(2 * n + 5, |us|));
    LoadReady(st.workers, n);
  }

  /** All nodes that peers report in this run. */
  ghost predicate ReportsWithin(events: seq<Event>, U: set<Id>) {
    forall i :: 0 <= i < |events| && events[i].Return? ==> ReplyWithin(events[i].reply, U)
  }

  lemma {:induction false} RunPotential(p: Params, us: seq<Id>, qs: seq<Id>, events: seq<Event>, st: State)
    requires p.Valid() && p.initial <= Elems(us) && p.queries == Elems(qs)
    requires Reaches(p, events, st) && ReportsWithin(events, Elems(us))
    ensures AllInside(us, st) && st.searches.Keys == p.queries != {}
    ensures |events| + Potential(us, qs, st) <= Highest(|st.workers|, |us|, |qs|)
    decreases |events|
  {
    if events == [] {
      StartPotential(us, qs, st);
    } else {
      var last := |events| - 1;
      var before :| Reaches(p, events[..last], before) && Enabled(p, before, events[last])
          && st == Next(p, before, events[last]);
      RunPotential(p, us, qs, events[..last], before);
      match events[last] {
        case Turn(w, q) => TurnLower(us, qs, p, before, w, q);
        case Return(w, reply) => ReturnLower(us, qs, p, before, w, reply);
      }
    }
  }

  /** Every run is finite: it has no more events than this bound. */
  lemma RunsEnd(p: Params, U: set<Id>, events: seq<Event>, st: State)
    requires p.Valid() && p.initial <= U && Reaches(p, events, st) && ReportsWithin(events, U)
    ensures |events| <= EventBound(|st.workers|, |U|, |p.queries|)
  {
    RankedSorts(0, U);
    RankedSorts(0, p.queries);
    RunPotential(p, Ranked(0, U), Ranked(0, p.queries), events, st);
    BoundIs(|st.workers|, |U|, |p.queries|);
  }

  /** Once every query is finished, some worker is not waiting to be woken. */
  ghost predicate SomeoneLeaves(st: State) {
    st.unfinished == {} ==> exists i :: 0 <= i < |st.workers| && st.workers[i] != Parked
  }

  lemma NextLeaves(p: Params, st: State, e: Event)
    requires p.Valid() && Enabled(p, st, e) && SomeoneLeaves(st) && st.unfinished <= st.searches.Keys
    ensures SomeoneLeaves(Next(p, st, e))
  {
    var st' := Next(p, st, e);
    match e {
      case Turn(w, q) =>
        if st.unfinished == {} || (!HasCandidates(q, p.beam, st.searches[q]) && !SomeActive(st)) {
          assert st'.workers[w] == Gone;
        } else if HasCandidates(q, p.beam, st.searches[q]) {
          PopWithinBound(p, st, w, q);
        }
      case Return(w, reply) =>
        assert st'.workers[w] == if st.searchFinished then Gone else Ready;
    }
  }

  lemma {:induction false} RunLeaves(p: Params, events: seq<Event>, st: State)
    requires p.Valid() && Reaches(p, events, st)
    ensures SomeoneLeaves(st)
    decreases |events|
  {
    if events != [] {
      var last := |events| - 1;
      var before :| Reaches(p, events[..last], before) && Enabled(p, before, events[last])
          && st == Next(p, before, events[last]);
      RunLeaves(p, events[..last], before);
      RunUnfinished(p, events[..last], before);
      NextLeaves(p, before, events[last]);
    }
  }

  lemma RunUnfinished(p: Params, events: seq<Event>, st: State)
    requires p.Valid() && Reaches(p, events, st)
    ensures st.unfinished <= st.searches.Keys
  {
    RunInv(p, events, st);
  }

  /** A run that cannot be continued has finished every query, exactly once; no worker is ready or in
      a call, and one has returned, on which the return of the whole search depends. */
  lemma StuckIsFinished(p: Params, events: seq<Event>, st: State)
    requires p.Valid() && Reaches(p, events, st) && forall e :: !Enabled(p, st, e)
    ensures st.searchFinished && st.searches.Keys == p.queries
    ensures forall q :: q in p.queries ==> |st.searches[q].finished| == 1
    ensures forall i :: 0 <= i < |st.workers| ==> st.workers[i] == Parked || st.workers[i] == Gone
    ensures exists i :: 0 <= i < |st.workers| && st.workers[i] == Gone
  {
    if st.unfinished != {} {
      NeverStuck(p, events, st);
    }
    RunSafety(p, events, st);
    forall i | 0 <= i < |st.workers|
      ensures st.workers[i] == Parked || st.workers[i] == Gone
    {
      assert !Enabled(p, st, Turn(i, 0)) && !Enabled(p, st, Return(i, []));
    }
    RunLeaves(p, events, st);
  }
}
