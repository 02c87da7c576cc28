/**
 `traverse_dht`: a beam search for several queries at once by concurrent workers, as a
 transition system. One event is one pass of a worker from one `await` (or `continue`) to the
 next, so every interleaving of the asyncio workers is a sequence of events; the answers of
 `get_neighbors` are arbitrary. Heaps are the sets of their members: ids lie at distinct XOR
 distances from a query, so a heap's root is determined by its members.
 */
module Traversal {
  import opened XorMetric
  import opened Ranking

  // ----- heap roots

  ghost function Root(q: Id, S: set<Id>): Id
    requires S != {}
  {
    RankedSorts(q, S);
    Ranked(q, S)[0]
  }

  ghost function Farthest(q: Id, S: set<Id>): Id
    requires S != {}
  {
    RankedSorts(q, S);
    Ranked(q, S)[|S| - 1]
  }

  lemma RootIsClosest(q: Id, S: set<Id>)
    requires S != {}
    ensures IsClosest(q, S, Root(q, S))
  {
    RankedSorts(q, S);
    var r := Ranked(q, S);
    assert r[0] in Elems(r);
    forall x | x in S && x != r[0]
      ensures Nearer(q, r[0], x)
    {
      assert x in Elems(r);
      var i :| 0 <= i < |r| && r[i] == x;
    }
  }

  lemma FarthestIsLast(q: Id, S: set<Id>)
    requires S != {}
    ensures Farthest(q, S) in S
    ensures forall x :: x in S && x != Farthest(q, S) ==> Nearer(q, x, Farthest(q, S))
  {
    RankedSorts(q, S);
    var r := Ranked(q, S);
    var m := Farthest(q, S);
    assert r[|S| - 1] in Elems(r);
    forall x | x in S && x != m
      ensures Nearer(q, x, m)
    {
      assert x in Elems(r);
      var i :| 0 <= i < |r| && r[i] == x;
    }
  }

  // ----- state

  datatype Params = Params(
    queries: set<Id>,              // what is searched for
    initial: set<Id>,              // nodes that start every heap
    beam: nat,                     // beam_size
    perCall: nat,                  // queries_per_call
    preVisited: map<Id, set<Id>>)  // the visited_nodes argument
  {
    ghost predicate Valid() {
      beam >= 1
    }

    function Before(q: Id): set<Id> {
      if q in preVisited then preVisited[q] else {}
    }
  }

  datatype Finished = Finished(result: seq<Id>, stopped: bool)

  /** Everything kept for one query. The last three fields are history: the peers asked about it
      in order, the nodes reported for it while it was unfinished, and its finish_search calls. */
  datatype Search = Search(
    candidates: set<Id>, nearest: set<Id>, known: set<Id>, visited: set<Id>, active: int,
    asked: seq<Id>, heard: set<Id>, finished: seq<Finished>)

  datatype Worker =
    | Ready                                   // about to run a pass of its loop
    | Parked                                  // awaiting heap_updated_event
    | Calling(peer: Id, queries: seq<Id>)     // awaiting get_neighbors
    | Gone                                    // returned

  datatype State = State(unfinished: set<Id>, searches: map<Id, Search>, searchFinished: bool, workers: seq<Worker>)

  /** One entry of the dictionary returned by `get_neighbors`. */
  datatype Answer = Answer(query: Id, neighbors: seq<Id>, stop: bool)

  datatype Event =
    | Turn(worker: nat, query: Id)               // a ready worker runs one pass; its chosen query
    | Return(worker: nat, reply: seq<Answer>)    // a call returns to its worker

  // ----- one query's heaps

  /** d(x) <= upper_bound(query): no bound until beam_size nodes are known. */
  ghost predicate WithinBound(q: Id, beam: nat, s: Search, x: Id)
    requires beam >= 1
  {
    |s.nearest| < beam || Xor(q, x) <= Xor(q, Farthest(q, s.nearest))
  }

  ghost predicate HasCandidates(q: Id, beam: nat, s: Search)
    requires beam >= 1
  {
    s.candidates != {} && WithinBound(q, beam, s, Root(q, s.candidates))
  }

  /** One neighbour of a reply. */
  ghost function Discover(q: Id, beam: nat, s: Search, x: Id): Search
    requires beam >= 1
  {
    var s := s.(heard := s.heard + {x});
    if x in s.known then s
    else
      var s := s.(known := s.known + {x});
      if !WithinBound(q, beam, s, x) then s
      else
        var grown := s.nearest + {x};
        s.(candidates := s.candidates + {x},
           nearest := if |s.nearest| < beam then grown else grown - {Farthest(q, grown)})
  }

  ghost function DiscoverAll(q: Id, beam: nat, s: Search, xs: seq<Id>): Search
    requires beam >= 1
    decreases xs
  {
    if xs == [] then s else DiscoverAll(q, beam, Discover(q, beam, s, xs[0]), xs[1..])
  }

  ghost function Result(q: Id, beam: nat, s: Search): seq<Id> {
    Take(Ranked(q, s.nearest), beam)
  }

  ghost function Close(q: Id, beam: nat, s: Search, stopped: bool): Search {
    s.(finished := s.finished + [Finished(Result(q, beam, s), stopped)])
  }

  // ----- transitions

  ghost function Start(p: Params, q: Id): Search {
    Search(p.initial, Elems(Take(Ranked(q, p.initial), p.beam)), p.initial, p.Before(q), 0, [], {}, [])
  }

  ghost predicate Init(p: Params, st: State) {
    && st.unfinished == p.queries
    && st.searches == (map q | q in p.queries :: Start(p, q))
    && st.searchFinished == false
    && st.workers != []
    && p.queries != {}
    && forall i :: 0 <= i < |st.workers| ==> st.workers[i] == Ready
  }

  /** `finish_search`. */
  ghost function Finish(p: Params, st: State, q: Id, stopped: bool): State
    requires q in st.searches
  {
    st.(unfinished := st.unfinished - {q},
        searches := st.searches[q := Close(q, p.beam, st.searches[q], stopped)],
        searchFinished := st.searchFinished || st.unfinished - {q} == {})
  }

  /** No hope of new nodes: finish_search on every unfinished query. */
  ghost function FinishAll(p: Params, st: State): State {
    st.(unfinished := {},
        searches := map q | q in st.searches :: if q in st.unfinished then Close(q, p.beam, st.searches[q], false)
            else st.searches[q],
        searchFinished := true)
  }

  /** The other unfinished queries that have not visited the peer. */
  ghost function Others(st: State, q: Id, peer: Id): set<Id> {
    set o | o in st.unfinished && o != q && o in st.searches && peer !in st.searches[o].visited
  }

  /** Queries packed with the chosen one: those of the others nearest to the peer. */
  ghost function QueriesToCall(p: Params, st: State, q: Id, peer: Id): seq<Id> {
    [q] + Take(Ranked(peer, Others(st, q, peer)), if p.perCall >= 1 then p.perCall - 1 else 0)
  }

  ghost function Call(st: State, w: nat, peer: Id, qs: seq<Id>): State
    requires w < |st.workers|
  {
    st.(searches := map q | q in st.searches ::
          var s := st.searches[q];
          if q in qs then s.(active := s.active + 1, visited := s.visited + {peer}, asked := s.asked + [peer]) else s,
        workers := st.workers[w := Calling(peer, qs)])
  }

  ghost predicate NoCandidates(p: Params, st: State)
    requires p.beam >= 1
  {
    forall q :: q in st.unfinished && q in st.searches ==> !HasCandidates(q, p.beam, st.searches[q])
  }

  /** The order of `heuristic_priority`: fewest active workers, then nearest candidate; queries without
      candidates come last. */
  ghost predicate Prefers(p: Params, st: State, a: Id, b: Id)
    requires p.beam >= 1 && a in st.searches && b in st.searches
  {
    HasCandidates(b, p.beam, st.searches[b]) ==>
      && HasCandidates(a, p.beam, st.searches[a])
      && var (s, t) := (st.searches[a], st.searches[b]);
      s.active < t.active || (s.active == t.active && Xor(a, Root(a, s.candidates)) <= Xor(b, Root(b, t.candidates)))
  }

  /** `min(unfinished_queries, key=heuristic_priority)`, any minimum. */
  ghost predicate Chosen(p: Params, st: State, q: Id)
    requires p.beam >= 1
  {
    && q in st.unfinished
    && forall o :: o in st.unfinished && o in st.searches && q in st.searches ==> Prefers(p, st, q, o)
  }

  ghost predicate SomeActive(st: State) {
    exists q :: q in st.searches && st.searches[q].active > 0
  }

  /** A worker pops the root of the chosen heap and either skips it or calls that peer. */
  ghost function Expand(p: Params, st: State, w: nat, q: Id): State
    requires p.beam >= 1 && w < |st.workers| && q in st.searches && st.searches[q].candidates != {}
  {
    var s := st.searches[q];
    var peer := Root(q, s.candidates);
    var popped := st.(searches := st.searches[q := s.(candidates := s.candidates - {peer})]);
    if peer in s.visited || !WithinBound(q, p.beam, s, peer) then
      if !WithinBound(q, p.beam, s, peer) && s.active == 0 then Finish(p, popped, q, false) else popped
    else Call(popped, w, peer, QueriesToCall(p, popped, q, peer))
  }

  ghost function RunTurn(p: Params, st: State, w: nat, q: Id): State
    requires p.beam >= 1 && w < |st.workers|
    requires st.unfinished != {} ==> Chosen(p, st, q) && q in st.searches
  {
    if st.unfinished == {} then st.(workers := st.workers[w := Gone])
    else if !HasCandidates(q, p.beam, st.searches[q]) then
      if SomeActive(st) then st.(workers := st.workers[w := Parked])
      else var st := FinishAll(p, st); st.(workers := st.workers[w := Gone])
    else Expand(p, st, w, q)
  }

  /** One entry of a reply: honour its stop flag, then merge its neighbours if still searching. */
  ghost function MergeAnswer(p: Params, st: State, a: Answer): State
    requires p.beam >= 1
  {
    if a.query !in st.unfinished || a.query !in st.searches then st
    else if a.stop then Finish(p, st, a.query, true)
    else st.(searches := st.searches[a.query := DiscoverAll(a.query, p.beam, st.searches[a.query], a.neighbors)])
  }

  ghost function MergeReply(p: Params, st: State, reply: seq<Answer>): (r: State)
    requires p.beam >= 1
    ensures r.workers == st.workers
    decreases reply
  {
    if reply == [] then st else MergeReply(p, MergeAnswer(p, st, reply[0]), reply[1..])
  }

  /** Setting heap_updated_event wakes every parked worker. */
  function Woken(ws: seq<Worker>): (r: seq<Worker>)
    ensures |r| == |ws| && forall i :: 0 <= i < |r| ==> r[i] == if ws[i] == Parked then Ready else ws[i]
  {
    seq(|ws|, i requires 0 <= i < |ws| => if ws[i] == Parked then Ready else ws[i])
  }

  ghost function Release(st: State, w: nat, qs: seq<Id>): State
    requires w < |st.workers|
  {
    st.(searches := map q | q in st.searches ::
          if q in qs then st.searches[q].(active := st.searches[q].active - 1) else st.searches[q],
        workers := Woken(st.workers[w := Ready]))
  }

  ghost predicate Enabled(p: Params, st: State, e: Event)
    requires p.beam >= 1
  {
    && e.worker < |st.workers|
    && match e
       case Turn(w, q) => st.workers[w] == Ready && (st.unfinished != {} ==> Chosen(p, st, q) && q in st.searches)
       case Return(w, reply) => st.workers[w].Calling?
  }

  ghost function Next(p: Params, st: State, e: Event): State
    requires p.beam >= 1 && Enabled(p, st, e)
  {
    match e
    case Turn(w, q) => RunTurn(p, st, w, q)
    case Return(w, reply) =>
      if st.searchFinished then st.(workers := st.workers[w := Gone])
      else Release(MergeReply(p, st, reply), w, st.workers[w].queries)
  }

  /** `st` is reached from an initial state by these events. */
  ghost predicate Reaches(p: Params, events: seq<Event>, st: State)
    requires p.beam >= 1
  {
    if events == [] then Init(p, st)
    else
      var last := |events| - 1;
      exists before ::
        Reaches(p, events[..last], before) && Enabled(p, before, events[last]) && st == Next(p, before, events[last])
  }
}
