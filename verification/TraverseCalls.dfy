/**
 Whom a worker of the concurrent search calls, and about what: the order in which the search explores,
 told by the replies so far and the calls made before.
 */
module TraversalCalls {
  import opened Collections
  import opened XorMetric
  import opened Ranking
  import opened Traversal
  import opened TraversalProofs
  import opened TraversalReports

  /** The beam_size nearest of all nodes known for the query so far. */
  ghost function Near(p: Params, events: seq<Event>, q: Id): set<Id> {
    Elems(Take(Ranked(q, p.initial + Considered(events, q)), p.beam))
  }

  /** Those of them that have neither been asked about the query nor been marked visited beforehand. */
  ghost function Unasked(p: Params, events: seq<Event>, st: State, q: Id): set<Id>
    requires q in st.searches
  {
    Near(p, events, q) - (p.Before(q) + Elems(st.searches[q].asked))
  }

  lemma {:induction false} NearIsNearest(p: Params, events: seq<Event>, st: State, q: Id)
    requires p.Valid() && Reaches(p, events, st) && q in p.queries
    ensures q in st.searches && SearchInv(p, q, st.searches[q]) && st.searches[q].nearest == Near(p, events, q)
    ensures Unasked(p, events, st, q) == st.searches[q].nearest - st.searches[q].visited
  {
    RunInv(p, events, st);
    var s := st.searches[q];
    assert SearchInv(p, q, s);
    StoppedIff(p, events, st, q);
    IsNearestRanks(q, s.known, p.beam, s.nearest);
    RankedSorts(q, s.nearest);
  }

  /** A candidate within the bound is one of the nearest. */
  lemma BoundedIsNear(p: Params, q: Id, s: Search, x: Id)
    requires p.Valid() && HeapsAgree(p, q, s) && x in s.candidates && WithinBound(q, p.beam, s, x)
    ensures x in s.nearest
  {
    if |s.nearest| < p.beam {
      SubsetSameSize(s.nearest, s.known);
    } else {
      FarthestIsLast(q, s.nearest);
    }
  }

  /** With an unvisited near node there is a candidate within the bound. */
  lemma NearHasCandidates(p: Params, q: Id, s: Search, x: Id)
    requires p.Valid() && HeapsAgree(p, q, s) && x in s.nearest && x !in s.visited
    ensures HasCandidates(q, p.beam, s)
  {
    RootIsClosest(q, s.candidates);
    FarthestIsLast(q, s.nearest);
  }

  lemma RootIsNextNear(p: Params, q: Id, s: Search)
    requires p.Valid() && HeapsAgree(p, q, s) && HasCandidates(q, p.beam, s) && Root(q, s.candidates) !in s.visited
    ensures IsClosest(q, s.nearest - s.visited, Root(q, s.candidates))
  {
    RootIsClosest(q, s.candidates);
    BoundedIsNear(p, q, s, Root(q, s.candidates));
  }

  /** The queries of a call: the chosen one first, then others that are unfinished and have not called
      the peer, no more than allowed; any such query left out is farther from the peer than all packed,
      and there was no room for it. */
  ghost predicate Packs(p: Params, st: State, q: Id, peer: Id, qs: seq<Id>) {
    && qs != [] && qs[0] == q && Distinct(qs)
    && |qs| <= (if p.perCall >= 1 then p.perCall else 1)
    && (forall o :: o in qs[1..] ==> o in Others(st, q, peer))
    && (forall o :: o in Others(st, q, peer) && o !in qs ==>
          |qs| >= p.perCall && forall x :: x in qs[1..] ==> Nearer(peer, x, o))
  }

  lemma CallPacks(p: Params, st: State, q: Id, peer: Id)
    requires q in st.unfinished
    ensures Packs(p, st, q, peer, QueriesToCall(p, st, q, peer))
  {
    var others, room := Others(st, q, peer), if p.perCall >= 1 then p.perCall - 1 else 0;
    var r := Take(Ranked(peer, others), room);
    CalledQueries(p, st, q, peer);
    RankedSorts(peer, others);
    PrefixIsNearest(peer, others, room);
    assert QueriesToCall(p, st, q, peer)[1..] == r;
    assert forall o :: o in r <==> o in Elems(r);
  }

  /** Popping the heap of the chosen query does not change what the others are. */
  lemma SameOthers(st: State, q: Id, s: Search, peer: Id)
    requires q in st.searches
    ensures Others(st.(searches := st.searches[q := s]), q, peer) == Others(st, q, peer)
  {
  }

  lemma {:induction false} TurnCalls(p: Params, st: State, w: nat, q: Id, peer: Id, qs: seq<Id>)
    requires p.Valid() && Enabled(p, st, Turn(w, q)) && Next(p, st, Turn(w, q)).workers[w] == Calling(peer, qs)
    ensures q in st.unfinished && q in st.searches && Chosen(p, st, q) && HasCandidates(q, p.beam, st.searches[q])
    ensures peer == Root(q, st.searches[q].candidates) && peer !in st.searches[q].visited
    ensures Packs(p, st, q, peer, qs)
  {
    var s := st.searches[q];
    var popped := st.(searches := st.searches[q := s.(candidates := s.candidates - {peer})]);
    CallPacks(p, popped, q, peer);
    SameOthers(st, q, s.(candidates := s.candidates - {peer}), peer);
  }

  lemma {:induction false} QueryKnown(p: Params, events: seq<Event>, st: State, q: Id)
    requires p.Valid() && Reaches(p, events, st) && q in st.unfinished
    ensures q in p.queries
  {
    RunInv(p, events, st);
  }

  lemma {:induction false} NextAsked(p: Params, events: seq<Event>, st: State, q: Id)
    requires p.Valid() && Reaches(p, events, st) && q in st.unfinished && q in st.searches
    requires HasCandidates(q, p.beam, st.searches[q])
    requires Root(q, st.searches[q].candidates) !in st.searches[q].visited
    ensures IsClosest(q, Unasked(p, events, st, q), Root(q, st.searches[q].candidates))
  {
    QueryKnown(p, events, st, q);
    NearIsNearest(p, events, st, q);
    RootIsNextNear(p, q, st.searches[q]);
  }

  lemma {:induction false} LeastServed(p: Params, events: seq<Event>, st: State, q: Id, o: Id)
    requires p.Valid() && Reaches(p, events, st) && Chosen(p, st, q) && q in st.searches
    requires o in st.unfinished && o in st.searches && Unasked(p, events, st, o) != {}
    ensures InFlight(st.workers, q) <= InFlight(st.workers, o)
  {
    RunInv(p, events, st);
    NearIsNearest(p, events, st, o);
    var x :| x in Unasked(p, events, st, o);
    NearHasCandidates(p, o, st.searches[o], x);
    assert Prefers(p, st, q, o);
  }

  /** Whenever a worker calls a peer, in every run: the peer is the closest to the chosen query of the
      beam_size nearest nodes known for it that have not been asked about it; no other unfinished query
      with such a node has fewer calls in flight; and the call packs queries as it should. */
  lemma {:induction false} CallAsks(p: Params, events: seq<Event>, st: State, w: nat, q: Id, peer: Id, qs: seq<Id>)
    requires p.Valid() && Reaches(p, events, st) && Enabled(p, st, Turn(w, q))
    requires Next(p, st, Turn(w, q)).workers[w] == Calling(peer, qs)
    ensures q in st.unfinished && q in st.searches && IsClosest(q, Unasked(p, events, st, q), peer)
    ensures forall o :: o in st.unfinished && o in st.searches && Unasked(p, events, st, o) != {} ==>
              InFlight(st.workers, q) <= InFlight(st.workers, o)
    ensures Packs(p, st, q, peer, qs)
  {
    TurnCalls(p, st, w, q, peer, qs);
    NextAsked(p, events, st, q);
    forall o | o in st.unfinished && o in st.searches && Unasked(p, events, st, o) != {}
      ensures InFlight(st.workers, q) <= InFlight(st.workers, o)
    {
      LeastServed(p, events, st, q, o);
    }
  }
}
