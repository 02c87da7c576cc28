/**
 The concurrent search refines the sequential one: with one query, one worker, nothing visited
 beforehand and answers that never stop the search, every run that finishes returns exactly what
 `simple_traverse_dht` returns, for every neighbour oracle.
 */
module TraversalEquivalence {
  import opened Collections
  import opened XorMetric
  import opened Ranking
  import opened Traversal
  import opened TraversalProofs
  import opened SimpleTraversal

  /** A single query, searched by a single worker with nothing visited beforehand. */
  ghost predicate Single(p: Params, q: Id) {
    p.Valid() && p.queries == {q} && p.Before(q) == {}
  }

  ghost predicate NeverStops(g: Oracle, U: set<Id>) {
    forall x :: x in U ==> !g(x).1
  }

  /** A run of one worker whose calls are answered by the oracle. */
  ghost predicate OracleRun(p: Params, q: Id, g: Oracle, events: seq<Event>, st: State)
    requires p.beam >= 1
    decreases |events|
  {
    if events == [] then Init(p, st) && |st.workers| == 1
    else
      var last := |events| - 1;
      exists before ::
        && OracleRun(p, q, g, events[..last], before)
        && Enabled(p, before, events[last])
        && (events[last].Return? ==>
              events[last].reply == [Answer(q, g(before.workers[events[last].worker].peer).0, false)])
        && st == Next(p, before, events[last])
  }

  lemma {:induction false} OracleRunReaches(p: Params, q: Id, g: Oracle, events: seq<Event>, st: State)
    requires p.beam >= 1 && OracleRun(p, q, g, events, st)
    ensures Reaches(p, events, st)
    decreases |events|
  {
    if events != [] {
      var last := |events| - 1;
      var before :| && OracleRun(p, q, g, events[..last], before)
                    && Enabled(p, before, events[last])
                    && st == Next(p, before, events[last]);
      OracleRunReaches(p, q, g, events[..last], before);
    }
  }

  function BeamOf(s: Search): Beam {
    Beam(s.candidates, s.nearest, s.known)
  }

  lemma HeapsAreBeam(p: Params, q: Id, s: Search)
    requires p.Valid() && HeapsAgree(p, q, s)
    ensures BeamInv(q, p.beam, {}, BeamOf(s))
    ensures HasCandidates(q, p.beam, s) <==> Continues(q, BeamOf(s))
  {
    assert s.known - {} == s.known;
    SubsetSameSize(s.nearest, s.known);
    if s.candidates != {} && |s.nearest| < p.beam {
      RootIsClosest(q, s.candidates);
      FarthestIsLast(q, s.nearest);
    }
  }

  /** Merging a reply is the sequential search's merge of its unseen nodes. */
  lemma {:induction false} DiscoverIsPush(q: Id, beam: nat, s: Search, xs: seq<Id>)
    requires beam >= 1 && Distinct(xs)
    ensures BeamOf(DiscoverAll(q, beam, s, xs)) == PushAll(q, beam, BeamOf(s), Unseen(xs, s.known))
    decreases xs
  {
    if xs != [] {
      var x, s1 := xs[0], Discover(q, beam, s, xs[0]);
      DiscoverIsPush(q, beam, s1, xs[1..]);
      assert x !in xs[1..];
      if x in s.known {
        assert [] + Unseen(xs[1..], s.known) == Unseen(xs[1..], s.known);
      } else {
        assert BeamOf(s1) == Push(q, beam, BeamOf(s), x);
        UnseenGrown(xs[1..], s.known, x);
        assert ([x] + Unseen(xs[1..], s.known))[1..] == Unseen(xs[1..], s.known);
      }
    }
  }

  lemma {:induction false} UnseenGrown(xs: seq<Id>, seen: set<Id>, x: Id)
    requires x !in xs
    ensures Unseen(xs, seen + {x}) == Unseen(xs, seen)
  {
    if xs != [] {
      UnseenGrown(xs[1..], seen, x);
    }
  }

  // ----- the simulation

  ghost function Target(p: Params, q: Id, g: Oracle, U: set<Id>): Beam
    requires p.Valid() && Closed(g, U) && p.initial <= U
  {
    SimpleResult(q, p.beam, g, U, p.initial, {}).0
  }

  /** From these heaps the sequential search reaches its result. */
  ghost predicate LeadsTo(p: Params, q: Id, g: Oracle, U: set<Id>, b: Beam)
    requires p.Valid() && Closed(g, U) && p.initial <= U
  {
    BeamInv(q, p.beam, {}, b) && b.seen <= U && BeamSearch(q, p.beam, g, U, {}, b).0 == Target(p, q, g, U)
  }

  /** How a state of the concurrent search corresponds to a point of the sequential one. */
  ghost predicate Simulates(p: Params, q: Id, g: Oracle, U: set<Id>, st: State)
    requires p.Valid() && Closed(g, U) && p.initial <= U
  {
    && |st.workers| == 1 && q in st.searches
    && var s := st.searches[q];
    && s.known <= U
    && s.candidates !! s.visited && s.visited <= s.known
    && if q !in st.unfinished then s.nearest == Target(p, q, g, U).nearest
       else
         match st.workers[0]
         case Ready => LeadsTo(p, q, g, U, BeamOf(s))
         case Calling(peer, qs) =>
           qs == [q] && peer in U && LeadsTo(p, q, g, U, PushAll(q, p.beam, BeamOf(s), Unseen(g(peer).0, s.known)))
         case _ => false
  }

  lemma InitSimulates(p: Params, q: Id, g: Oracle, U: set<Id>, st: State)
    requires Single(p, q) && Closed(g, U) && p.initial <= U && Init(p, st) && |st.workers| == 1
    ensures Simulates(p, q, g, U, st)
  {
    assert p.initial - {} == p.initial && {} + p.initial == p.initial;
    SeedInv(q, p.beam, g, p.initial, {});
    assert BeamOf(st.searches[q]) == Seed(q, p.beam, p.initial, {});
  }

  /** One round of the sequential search: pop the root, then merge its answer. */
  lemma RoundLeadsTo(p: Params, q: Id, g: Oracle, U: set<Id>, b: Beam)
    requires p.Valid() && Closed(g, U) && NeverStops(g, U) && p.initial <= U
    requires LeadsTo(p, q, g, U, b) && Continues(q, b)
    ensures var peer := Root(q, b.unvisited);
            && peer in b.unvisited && peer in U
            && LeadsTo(p, q, g, U, PushAll(q, p.beam, b.(unvisited := b.unvisited - {peer}), Unseen(g(peer).0, b.seen)))
  {
    var peer := Root(q, b.unvisited);
    RootIsClosest(q, b.unvisited);
    RoundInv(q, p.beam, g, U, {}, b, peer);
    Shrinks(U, b, Round(q, p.beam, g, b, peer), peer);
  }

  /** What a worker's pass does when there is one query with an unvisited root. */
  lemma ExpandSingle(p: Params, st: State, q: Id)
    requires p.Valid() && st.unfinished == {q} && q in st.searches && |st.workers| == 1
    requires HasCandidates(q, p.beam, st.searches[q])
    requires Root(q, st.searches[q].candidates) !in st.searches[q].visited
    ensures var s, st' := st.searches[q], Expand(p, st, 0, q);
            var peer := Root(q, s.candidates);
            && st'.unfinished == {q} && st'.workers == [Calling(peer, [q])] && q in st'.searches
            && st'.searches[q] == s.(candidates := s.candidates - {peer}, active := s.active + 1,
                                     visited := s.visited + {peer}, asked := s.asked + [peer])
  {
    var s := st.searches[q];
    var peer := Root(q, s.candidates);
    OnlyQuery(p, st.(searches := st.searches[q := s.(candidates := s.candidates - {peer})]), q, peer);
  }

  lemma CallSimulates(p: Params, q: Id, g: Oracle, U: set<Id>, st: State)
    requires Single(p, q) && Closed(g, U) && NeverStops(g, U) && p.initial <= U
    requires Simulates(p, q, g, U, st) && st.unfinished == {q} && st.workers[0] == Ready
    requires HasCandidates(q, p.beam, st.searches[q]) && Continues(q, BeamOf(st.searches[q]))
    ensures Simulates(p, q, g, U, Expand(p, st, 0, q))
  {
    RoundLeadsTo(p, q, g, U, BeamOf(st.searches[q]));
    ExpandSingle(p, st, q);
  }

  lemma OnlyQuery(p: Params, st: State, q: Id, peer: Id)
    requires st.unfinished <= {q}
    ensures QueriesToCall(p, st, q, peer) == [q]
  {
    var others := Others(st, q, peer);
    assert others == {};
    RankedSorts(peer, others);
  }

  /** Once the query is finished, workers only leave. */
  lemma OverSimulates(p: Params, q: Id, g: Oracle, U: set<Id>, st: State, w: Worker)
    requires Single(p, q) && Closed(g, U) && p.initial <= U
    requires Simulates(p, q, g, U, st) && q !in st.unfinished
    ensures Simulates(p, q, g, U, st.(workers := st.workers[0 := w]))
  {
  }

  lemma FinishSimulates(p: Params, q: Id, g: Oracle, U: set<Id>, st: State)
    requires Single(p, q) && Closed(g, U) && p.initial <= U
    requires Simulates(p, q, g, U, st) && q in st.unfinished && st.workers[0] == Ready
    requires !Continues(q, BeamOf(st.searches[q]))
    ensures Simulates(p, q, g, U, FinishAll(p, st))
  {
    var s := st.searches[q];
    assert Target(p, q, g, U) == BeamOf(s);
    assert FinishAll(p, st).searches[q] == Close(q, p.beam, s, false);
  }

  /** What a turn of the one worker does while the one query is unfinished. */
  lemma TurnSingle(p: Params, st: State, q: Id, e: Event)
    requires p.Valid() && |st.workers| == 1 && st.unfinished == {q} && q in st.searches
    requires e.Turn? && Enabled(p, st, e) && !SomeActive(st)
    ensures var done := FinishAll(p, st);
            Next(p, st, e) ==
            if HasCandidates(q, p.beam, st.searches[q]) then Expand(p, st, 0, q)
            else done.(workers := done.workers[0 := Gone])
  {
    assert e.query == q;
  }

  lemma TurnSimulates(p: Params, q: Id, g: Oracle, U: set<Id>, st: State, e: Event)
    requires Single(p, q) && Closed(g, U) && NeverStops(g, U) && p.initial <= U
    requires st.unfinished <= {q} && e.Turn? && Enabled(p, st, e)
    requires Simulates(p, q, g, U, st)
    requires HasCandidates(q, p.beam, st.searches[q]) <==> Continues(q, BeamOf(st.searches[q]))
    requires q in st.unfinished ==> !SomeActive(st)
    ensures Simulates(p, q, g, U, Next(p, st, e))
  {
    if q !in st.unfinished {
      assert Next(p, st, e) == st.(workers := st.workers[0 := Gone]);
      OverSimulates(p, q, g, U, st, Gone);
    } else {
      TurnSingle(p, st, q, e);
      if HasCandidates(q, p.beam, st.searches[q]) {
        CallSimulates(p, q, g, U, st);
      } else {
        FinishSimulates(p, q, g, U, st);
        OverSimulates(p, q, g, U, FinishAll(p, st), Gone);
      }
    }
  }

  lemma NobodyActive(p: Params, st: State, q: Id)
    requires p.queries == {q} && st.searches.Keys == p.queries && CallsCounted(p, st) && !st.searchFinished
    requires |st.workers| == 1 && st.workers[0] == Ready
    ensures !SomeActive(st)
  {
    assert st.workers[1..] == [];
    assert InFlight(st.workers, q) == 0;
  }

  /** What a returning call does when there is one query. */
  lemma ReturnSingle(p: Params, st: State, q: Id, peer: Id, xs: seq<Id>)
    requires p.Valid() && st.unfinished == {q} && q in st.searches && st.workers == [Calling(peer, [q])]
             && !st.searchFinished
    ensures var s, st' := st.searches[q], Next(p, st, Return(0, [Answer(q, xs, false)]));
            && st'.unfinished == {q} && st'.workers == [Ready] && q in st'.searches
            && st'.searches[q] == DiscoverAll(q, p.beam, s, xs).(active := DiscoverAll(q, p.beam, s, xs).active - 1)
  {
    var reply := [Answer(q, xs, false)];
    assert reply[1..] == [];
    assert MergeReply(p, st, reply) == MergeAnswer(p, st, reply[0]);
  }

  lemma MergeSimulates(p: Params, q: Id, g: Oracle, U: set<Id>, st: State, peer: Id)
    requires Single(p, q) && Closed(g, U) && p.initial <= U
    requires Simulates(p, q, g, U, st) && st.unfinished == {q} && st.workers == [Calling(peer, [q])]
             && !st.searchFinished
    ensures Simulates(p, q, g, U, Next(p, st, Return(0, [Answer(q, g(peer).0, false)])))
  {
    ReturnSingle(p, st, q, peer, g(peer).0);
    DiscoverIsPush(q, p.beam, st.searches[q], g(peer).0);
    StillUnvisited(q, p.beam, st.searches[q], g(peer).0);
  }

  lemma ReturnSimulates(p: Params, q: Id, g: Oracle, U: set<Id>, st: State, e: Event)
    requires Single(p, q) && Closed(g, U) && p.initial <= U
    requires st.unfinished <= {q} && (st.searchFinished <==> st.unfinished == {})
    requires Simulates(p, q, g, U, st) && e.Return? && Enabled(p, st, e)
    requires e.reply == [Answer(q, g(st.workers[e.worker].peer).0, false)]
    ensures Simulates(p, q, g, U, Next(p, st, e))
  {
    var peer := st.workers[0].peer;
    assert e == Return(0, [Answer(q, g(peer).0, false)]);
    if q in st.unfinished {
      assert st.unfinished == {q} && st.workers == [Calling(peer, [q])];
      MergeSimulates(p, q, g, U, st, peer);
    } else {
      assert st.searchFinished;
      OverSimulates(p, q, g, U, st, Gone);
    }
  }

  /** Merging never brings back a node that is already known, hence none already visited. */
  lemma {:induction false} StillUnvisited(q: Id, beam: nat, s: Search, xs: seq<Id>)
    requires beam >= 1 && s.candidates !! s.visited && s.visited <= s.known
    ensures var s' := DiscoverAll(q, beam, s, xs);
            s'.candidates !! s'.visited && s'.visited <= s'.known
    decreases xs
  {
    if xs != [] {
      StillUnvisited(q, beam, Discover(q, beam, s, xs[0]), xs[1..]);
    }
  }

  lemma SingleFacts(p: Params, q: Id, events: seq<Event>, st: State)
    requires Single(p, q) && Reaches(p, events, st)
    ensures st.searches.Keys == {q} && st.unfinished <= {q} && (st.searchFinished <==> st.unfinished == {})
    ensures HeapsAgree(p, q, st.searches[q]) && CallsCounted(p, st)
  {
    RunInv(p, events, st);
    assert SearchInv(p, q, st.searches[q]);
  }

  lemma StepSimulates(p: Params, q: Id, g: Oracle, U: set<Id>, events: seq<Event>, st: State, e: Event)
    requires Single(p, q) && Closed(g, U) && NeverStops(g, U) && p.initial <= U
    requires Reaches(p, events, st) && Simulates(p, q, g, U, st) && Enabled(p, st, e)
    requires e.Return? ==> e.reply == [Answer(q, g(st.workers[e.worker].peer).0, false)]
    ensures Simulates(p, q, g, U, Next(p, st, e))
  {
    SingleFacts(p, q, events, st);
    if e.Turn? {
      HeapsAreBeam(p, q, st.searches[q]);
      if q in st.unfinished {
        NobodyActive(p, st, q);
      }
      TurnSimulates(p, q, g, U, st, e);
    } else {
      ReturnSimulates(p, q, g, U, st, e);
    }
  }

  lemma {:induction false} RunSimulates(p: Params, q: Id, g: Oracle, U: set<Id>, events: seq<Event>, st: State)
    requires Single(p, q) && Closed(g, U) && NeverStops(g, U) && p.initial <= U
    requires OracleRun(p, q, g, events, st)
    ensures Simulates(p, q, g, U, st)
    decreases |events|
  {
    if events == [] {
      InitSimulates(p, q, g, U, st);
    } else {
      var last := |events| - 1;
      var before :| && OracleRun(p, q, g, events[..last], before)
                    && Enabled(p, before, events[last])
                    && (events[last].Return? ==>
                          events[last].reply == [Answer(q, g(before.workers[events[last].worker].peer).0, false)])
                    && st == Next(p, before, events[last]);
      RunSimulates(p, q, g, U, events[..last], before);
      OracleRunReaches(p, q, g, events[..last], before);
      StepSimulates(p, q, g, U, events[..last], before, events[last]);
    }
  }

  /** Every finished run returns the nodes of the sequential search, in the same order. */
  lemma SingleWorkerIsSimple(p: Params, q: Id, g: Oracle, U: set<Id>, events: seq<Event>, st: State)
    requires Single(p, q) && Closed(g, U) && NeverStops(g, U) && p.initial <= U
    requires OracleRun(p, q, g, events, st)
    requires q in st.searches && st.searches[q].finished != []
    ensures st.searches[q].finished[0].result == Ranked(q, SimpleResult(q, p.beam, g, U, p.initial, {}).0.nearest)
  {
    RunSimulates(p, q, g, U, events, st);
    OracleRunReaches(p, q, g, events, st);
    RunInv(p, events, st);
    var s := st.searches[q];
    assert SearchInv(p, q, s);
    RankedSorts(q, s.nearest);
  }
}
