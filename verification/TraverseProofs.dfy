/** What every run of the concurrent beam search keeps, and what its results mean. */
module TraversalProofs {
  import opened Collections
  import opened XorMetric
  import opened Ranking
  import opened Traversal

  // ----- one query

  ghost predicate HeapsAgree(p: Params, q: Id, s: Search) {
    && IsNearest(q, s.known, p.beam, s.nearest)
    && s.candidates <= s.known
    && s.nearest <= s.candidates + s.visited
    && s.known == p.initial + s.heard
  }

  ghost predicate AskedOnce(p: Params, q: Id, s: Search) {
    && s.visited == p.Before(q) + Elems(s.asked)
    && Distinct(s.asked)
    && Elems(s.asked) !! p.Before(q)
  }

  ghost predicate FinishRecorded(p: Params, q: Id, s: Search) {
    && |s.finished| <= 1
    && (s.finished != [] ==>
          && s.finished[0].result == Result(q, p.beam, s)
          && (!s.finished[0].stopped ==> s.nearest <= s.visited))
  }

  ghost predicate SearchInv(p: Params, q: Id, s: Search) {
    HeapsAgree(p, q, s) && AskedOnce(p, q, s) && FinishRecorded(p, q, s)
  }

  lemma SearchStarts(p: Params, q: Id)
    requires p.Valid()
    ensures SearchInv(p, q, Start(p, q))
  {
    PrefixIsNearest(q, p.initial, p.beam);
  }

  /** Merging one reported node keeps `nearest` the beam_size nearest of all known nodes. */
  lemma DiscoverKeeps(p: Params, q: Id, s: Search, x: Id)
    requires p.Valid() && HeapsAgree(p, q, s)
    ensures HeapsAgree(p, q, Discover(q, p.beam, s, x))
  {
    if x !in s.known {
      NearestGrows(q, s.known, p.beam, s.nearest, x);
    }
  }

  /** The k nearest of a set that gains one member, as the heaps compute them. */
  lemma NearestGrows(q: Id, S: set<Id>, k: nat, T: set<Id>, x: Id)
    requires k >= 1 && IsNearest(q, S, k, T) && x !in S
    ensures |T| < k ==> IsNearest(q, S + {x}, k, T + {x})
    ensures |T| >= k && Xor(q, x) <= Xor(q, Farthest(q, T)) ==>
            IsNearest(q, S + {x}, k, (T + {x}) - {Farthest(q, T + {x})})
    ensures |T| >= k && Xor(q, x) > Xor(q, Farthest(q, T)) ==> IsNearest(q, S + {x}, k, T)
  {
    SubsetSameSize(T, S);
    if |T| < k {
      assert T == S;
    } else {
      FarthestIsLast(q, T);
      if Xor(q, x) <= Xor(q, Farthest(q, T)) {
        ReplaceFarthest(q, S, k, T, x);
      }
    }
  }

  lemma ReplaceFarthest(q: Id, S: set<Id>, k: nat, T: set<Id>, x: Id)
    requires k >= 1 && IsNearest(q, S, k, T) && |T| == k && x !in S
    requires Xor(q, x) <= Xor(q, Farthest(q, T))
    ensures var grown := T + {x};
            IsNearest(q, S + {x}, k, grown - {Farthest(q, grown)})
  {
    var grown := T + {x};
    FarthestIsLast(q, T);
    FarthestIsLast(q, grown);
    var far := Farthest(q, grown);
    if Xor(q, x) == Xor(q, Farthest(q, T)) {
      XorInjective(q, x, Farthest(q, T));
    }
    assert Nearer(q, x, Farthest(q, T));
    assert far == Farthest(q, T);
    var T' := grown - {far};
    assert |T'| == k;
    forall a, b | a in T' && b in S + {x} && b !in T'
      ensures Nearer(q, a, b)
    {
      if b != far {
        assert a != x ==> Nearer(q, a, b);
        assert Nearer(q, far, b);
      }
    }
  }

  /** What merging a reply leaves alone, and what it records. */
  ghost predicate OnlyHeard(s: Search, s': Search, xs: set<Id>) {
    && s'.visited == s.visited && s'.active == s.active
    && s'.asked == s.asked && s'.finished == s.finished
    && s'.heard == s.heard + xs
  }

  lemma {:induction false} DiscoverAllKeeps(p: Params, q: Id, s: Search, xs: seq<Id>)
    requires p.Valid() && HeapsAgree(p, q, s)
    ensures HeapsAgree(p, q, DiscoverAll(q, p.beam, s, xs))
    ensures OnlyHeard(s, DiscoverAll(q, p.beam, s, xs), Elems(xs))
    decreases xs
  {
    if xs != [] {
      DiscoverKeeps(p, q, s, xs[0]);
      var s1 := Discover(q, p.beam, s, xs[0]);
      assert OnlyHeard(s, s1, {xs[0]});
      DiscoverAllKeeps(p, q, s1, xs[1..]);
      assert Elems(xs) == {xs[0]} + Elems(xs[1..]);
    }
  }

  /** A heap without explorable candidates has had every one of its nearest nodes visited. */
  lemma ExhaustedIsVisited(p: Params, q: Id, s: Search)
    requires p.Valid() && HeapsAgree(p, q, s) && !HasCandidates(q, p.beam, s)
    ensures s.nearest <= s.visited
  {
    if s.candidates != {} {
      var root := Root(q, s.candidates);
      RootIsClosest(q, s.candidates);
      FarthestIsLast(q, s.nearest);
      forall x | x in s.nearest
        ensures x !in s.candidates
      {
        assert Xor(q, x) <= Xor(q, Farthest(q, s.nearest)) < Xor(q, root);
      }
    }
  }

  // ----- workers

  function Carries(w: Worker, q: Id): nat {
    if w.Calling? && q in w.queries then 1 else 0
  }

  /** How many calls in flight carry this query. */
  function InFlight(ws: seq<Worker>, q: Id): nat {
    if ws == [] then 0 else Carries(ws[0], q) + InFlight(ws[1..], q)
  }

  lemma {:induction false} InFlightUpdate(ws: seq<Worker>, i: nat, w: Worker, q: Id)
    requires i < |ws|
    ensures InFlight(ws[i := w], q) == InFlight(ws, q) - Carries(ws[i], q) + Carries(w, q)
    decreases ws
  {
    if i == 0 {
      assert ws[0 := w][1..] == ws[1..];
    } else {
      InFlightUpdate(ws[1..], i - 1, w, q);
      assert ws[i := w][1..] == ws[1..][i - 1 := w];
    }
  }

  lemma {:induction false} InFlightWoken(ws: seq<Worker>, q: Id)
    ensures InFlight(Woken(ws), q) == InFlight(ws, q)
    decreases ws
  {
    if ws != [] {
      InFlightWoken(ws[1..], q);
      assert Woken(ws)[1..] == Woken(ws[1..]);
    }
  }

  lemma {:induction false} InFlightZero(ws: seq<Worker>, q: Id, i: nat)
    requires i < |ws| && InFlight(ws, q) == 0
    ensures Carries(ws[i], q) == 0
    decreases ws
  {
    if i > 0 {
      InFlightZero(ws[1..], q, i - 1);
    }
  }

  lemma {:induction false} InFlightSome(ws: seq<Worker>, q: Id)
    requires InFlight(ws, q) > 0
    ensures exists i :: 0 <= i < |ws| && ws[i].Calling?
    decreases ws
  {
    if !ws[0].Calling? {
      InFlightSome(ws[1..], q);
      var i :| 0 <= i < |ws[1..]| && ws[1..][i].Calling?;
      assert ws[i + 1].Calling?;
    }
  }

  // ----- the invariant

  ghost predicate SomeCalling(st: State) {
    exists i :: 0 <= i < |st.workers| && st.workers[i].Calling?
  }

  ghost predicate SearchesAgree(p: Params, searches: map<Id, Search>) {
    searches.Keys == p.queries && forall q :: q in p.queries ==> SearchInv(p, q, searches[q])
  }

  /** Queries are unfinished until they have been finished; the event is set when none is left. */
  ghost predicate FinishesAgree(p: Params, st: State)
    requires st.searches.Keys == p.queries
  {
    && st.unfinished <= p.queries
    && (forall q :: q in p.queries ==> (q in st.unfinished <==> st.searches[q].finished == []))
    && (st.searchFinished <==> st.unfinished == {})
  }

  ghost predicate QueriesAgree(p: Params, st: State) {
    SearchesAgree(p, st.searches) && FinishesAgree(p, st)
  }

  ghost predicate CallsCounted(p: Params, st: State)
    requires st.searches.Keys == p.queries
  {
    && (!st.searchFinished ==> forall q :: q in p.queries ==> st.searches[q].active == InFlight(st.workers, q))
    && (forall i :: 0 <= i < |st.workers| && st.workers[i].Calling? ==>
          st.workers[i].queries != [] && st.workers[i].queries[0] in p.queries)
  }

  ghost predicate WorkersAgree(p: Params, st: State)
    requires st.searches.Keys == p.queries
  {
    && (forall i :: 0 <= i < |st.workers| && st.workers[i] == Parked && st.unfinished != {} ==> SomeCalling(st))
    && (forall i :: 0 <= i < |st.workers| && st.workers[i] == Gone ==> st.unfinished == {})
    && (forall q :: q in p.queries && st.searches[q].finished != [] && !st.searches[q].finished[0].stopped ==>
        !SomeCalling(st) && st.unfinished == {})
  }

  ghost predicate Inv(p: Params, st: State) {
    QueriesAgree(p, st) && CallsCounted(p, st) && WorkersAgree(p, st)
  }

  lemma InitInv(p: Params, st: State)
    requires p.Valid() && Init(p, st)
    ensures Inv(p, st)
  {
    forall q | q in p.queries
      ensures SearchInv(p, q, st.searches[q])
    {
      SearchStarts(p, q);
    }
    forall q | q in p.queries
      ensures InFlight(st.workers, q) == 0
    {
      AllReady(st.workers, q);
    }
  }

  lemma {:induction false} AllReady(ws: seq<Worker>, q: Id)
    requires forall i :: 0 <= i < |ws| ==> ws[i] == Ready
    ensures InFlight(ws, q) == 0
    decreases ws
  {
    if ws != [] {
      AllReady(ws[1..], q);
    }
  }

  // ----- a worker's pass

  lemma SameQueries(p: Params, st: State, ws: seq<Worker>)
    requires QueriesAgree(p, st)
    ensures QueriesAgree(p, st.(workers := ws))
  {
  }

  /** Moving a worker between states in which it carries no call changes no count. */
  lemma IdleMove(p: Params, st: State, w: nat, to: Worker)
    requires st.searches.Keys == p.queries && CallsCounted(p, st)
    requires w < |st.workers| && !st.workers[w].Calling? && !to.Calling?
    ensures CallsCounted(p, st.(workers := st.workers[w := to]))
    ensures SomeCalling(st) <==> SomeCalling(st.(workers := st.workers[w := to]))
  {
    var ws := st.workers[w := to];
    forall q | q in p.queries
      ensures InFlight(ws, q) == InFlight(st.workers, q)
    {
      InFlightUpdate(st.workers, w, to, q);
    }
    if i :| 0 <= i < |st.workers| && st.workers[i].Calling? {
      assert ws[i].Calling?;
    }
    if i :| 0 <= i < |ws| && ws[i].Calling? {
      assert st.workers[i].Calling?;
    }
  }

  lemma IdleInv(p: Params, st: State, w: nat, to: Worker)
    requires Inv(p, st) && w < |st.workers| && st.workers[w] == Ready
    requires (to == Parked && SomeCalling(st)) || (to == Gone && st.unfinished == {})
    ensures Inv(p, st.(workers := st.workers[w := to]))
  {
    SameQueries(p, st, st.workers[w := to]);
    IdleMove(p, st, w, to);
    IdleWorkers(p, st, w, to);
  }

  lemma IdleWorkers(p: Params, st: State, w: nat, to: Worker)
    requires st.searches.Keys == p.queries && WorkersAgree(p, st) && w < |st.workers|
    requires (to == Parked && SomeCalling(st)) || (to == Gone && st.unfinished == {})
    requires SomeCalling(st) <==> SomeCalling(st.(workers := st.workers[w := to]))
    ensures WorkersAgree(p, st.(workers := st.workers[w := to]))
  {
  }

  lemma ActiveIsCalling(p: Params, st: State)
    requires st.searches.Keys == p.queries && CallsCounted(p, st) && !st.searchFinished && SomeActive(st)
    ensures SomeCalling(st)
  {
    var q :| q in st.searches && st.searches[q].active > 0;
    InFlightSome(st.workers, q);
  }

  /** With no active worker counted, no call is in flight. */
  lemma NoneCalling(p: Params, st: State)
    requires st.searches.Keys == p.queries && CallsCounted(p, st) && !st.searchFinished && !SomeActive(st)
    ensures !SomeCalling(st)
  {
    if i :| 0 <= i < |st.workers| && st.workers[i].Calling? {
      var q := st.workers[i].queries[0];
      assert st.searches[q].active <= 0;
      InFlightZero(st.workers, q, i);
      assert false;
    }
  }

  lemma CloseInv(p: Params, q: Id, s: Search, stopped: bool)
    requires p.Valid() && SearchInv(p, q, s) && s.finished == []
    requires !stopped ==> !HasCandidates(q, p.beam, s)
    ensures SearchInv(p, q, Close(q, p.beam, s, stopped))
  {
    if !stopped {
      ExhaustedIsVisited(p, q, s);
    }
  }

  lemma FinishAllInv(p: Params, st: State)
    requires p.Valid() && Inv(p, st) && st.unfinished != {} && !SomeActive(st) && NoCandidates(p, st)
    ensures Inv(p, FinishAll(p, st))
  {
    NoneCalling(p, st);
    var st' := FinishAll(p, st);
    forall q | q in p.queries
      ensures SearchInv(p, q, st'.searches[q])
    {
      if q in st.unfinished {
        CloseInv(p, q, st.searches[q], false);
      }
    }
    assert !SomeCalling(st');
  }

  /** Replacing one query's heaps by heaps that satisfy the same facts. */
  lemma UpdateSearch(p: Params, st: State, q: Id, s: Search)
    requires Inv(p, st) && q in p.queries && SearchInv(p, q, s)
    requires s.finished == st.searches[q].finished && s.active == st.searches[q].active
    ensures Inv(p, st.(searches := st.searches[q := s]))
  {
    UpdateSearches(p, st.searches, q, s);
    UpdateWorkers(p, st, q, s);
  }

  lemma UpdateSearches(p: Params, searches: map<Id, Search>, q: Id, s: Search)
    requires SearchesAgree(p, searches) && q in p.queries && SearchInv(p, q, s)
    ensures SearchesAgree(p, searches[q := s])
  {
  }

  lemma UpdateWorkers(p: Params, st: State, q: Id, s: Search)
    requires st.searches.Keys == p.queries && FinishesAgree(p, st) && CallsCounted(p, st) && WorkersAgree(p, st)
             && q in p.queries
    requires s.finished == st.searches[q].finished && s.active == st.searches[q].active
    requires st.searches[q := s].Keys == p.queries
    ensures FinishesAgree(p, st.(searches := st.searches[q := s]))
    ensures CallsCounted(p, st.(searches := st.searches[q := s]))
    ensures WorkersAgree(p, st.(searches := st.searches[q := s]))
  {
    assert SomeCalling(st) <==> SomeCalling(st.(searches := st.searches[q := s]));
  }

  /** The pop of a chosen heap never exceeds the bound, so the branch that would finish a single
      query there is never taken. */
  lemma PopWithinBound(p: Params, st: State, w: nat, q: Id)
    requires p.Valid() && w < |st.workers| && q in st.searches && HasCandidates(q, p.beam, st.searches[q])
    ensures Expand(p, st, w, q).unfinished == st.unfinished
    ensures Expand(p, st, w, q).searchFinished == st.searchFinished
  {
  }

  lemma PopInv(p: Params, q: Id, s: Search, peer: Id, visiting: bool)
    requires SearchInv(p, q, s) && (peer in s.visited <==> !visiting)
    requires s.finished == []
    ensures var s' := s.(candidates := s.candidates - {peer});
            SearchInv(p, q, if visiting then s'.(visited := s.visited + {peer}, asked := s.asked + [peer],
                                                 active := s.active + 1) else s')
  {
    if visiting {
      ElemsAppend(s.asked, [peer]);
      assert Elems([peer]) == {peer};
      assert peer !in s.asked;
    }
  }

  lemma CallInv(p: Params, st: State, w: nat, q: Id)
    requires p.Valid() && Inv(p, st) && w < |st.workers| && st.workers[w] == Ready && q in st.unfinished
    requires HasCandidates(q, p.beam, st.searches[q])
    requires Root(q, st.searches[q].candidates) !in st.searches[q].visited
    ensures Inv(p, Expand(p, st, w, q))
  {
    CallSearches(p, st, w, q);
    CallFrame(p, st, w, q);
  }

  /** What a call does to one query: the chosen one also loses its candidate. */
  function Called(s: Search, peer: Id, chosen: bool, called: bool): Search {
    var s := if chosen then s.(candidates := s.candidates - {peer}) else s;
    if called then s.(active := s.active + 1, visited := s.visited + {peer}, asked := s.asked + [peer]) else s
  }

  function CalledAll(searches: map<Id, Search>, peer: Id, q: Id, qs: seq<Id>): map<Id, Search> {
    map o | o in searches :: Called(searches[o], peer, o == q, o in qs)
  }

  /** The state after the worker has popped `q`'s best candidate and called it. */
  lemma ExpandCalls(p: Params, st: State, w: nat, q: Id)
    requires p.beam >= 1 && w < |st.workers| && q in st.unfinished && q in st.searches
    requires HasCandidates(q, p.beam, st.searches[q])
    requires Root(q, st.searches[q].candidates) !in st.searches[q].visited
    ensures var peer := Root(q, st.searches[q].candidates);
            var qs := QueriesToCall(p, st, q, peer);
            Expand(p, st, w, q) == st.(searches := CalledAll(st.searches, peer, q, qs),
                                       workers := st.workers[w := Calling(peer, qs)])
  {
    var s := st.searches[q];
    var peer := Root(q, s.candidates);
    var popped := st.(searches := st.searches[q := s.(candidates := s.candidates - {peer})]);
    var qs := QueriesToCall(p, st, q, peer);
    assert Others(popped, q, peer) == Others(st, q, peer);
    CallPopped(st, w, q, peer, qs);
  }

  lemma CallPopped(st: State, w: nat, q: Id, peer: Id, qs: seq<Id>)
    requires w < |st.workers| && q in st.searches
    ensures var s := st.searches[q];
            Call(st.(searches := st.searches[q := s.(candidates := s.candidates - {peer})]), w, peer, qs).searches
            == CalledAll(st.searches, peer, q, qs)
  {
  }

  lemma CallSearches(p: Params, st: State, w: nat, q: Id)
    requires p.beam >= 1 && SearchesAgree(p, st.searches) && FinishesAgree(p, st) && w < |st.workers|
             && q in st.unfinished
    requires HasCandidates(q, p.beam, st.searches[q])
    requires Root(q, st.searches[q].candidates) !in st.searches[q].visited
    ensures SearchesAgree(p, Expand(p, st, w, q).searches)
  {
    var peer := Root(q, st.searches[q].candidates);
    var qs := QueriesToCall(p, st, q, peer);
    ExpandCalls(p, st, w, q);
    CalledQueries(p, st, q, peer);
    forall o | o in p.queries
      ensures SearchInv(p, o, Called(st.searches[o], peer, o == q, o in qs))
    {
      CallSearch(p, o, st.searches[o], peer, o == q, o in qs);
    }
  }

  lemma CallFrame(p: Params, st: State, w: nat, q: Id)
    requires p.beam >= 1 && st.searches.Keys == p.queries && FinishesAgree(p, st) && CallsCounted(p, st)
             && WorkersAgree(p, st)
    requires w < |st.workers| && st.workers[w] == Ready && q in st.unfinished
    requires HasCandidates(q, p.beam, st.searches[q])
    requires Root(q, st.searches[q].candidates) !in st.searches[q].visited
    requires Expand(p, st, w, q).searches.Keys == p.queries
    ensures var st' := Expand(p, st, w, q); FinishesAgree(p, st') && CallsCounted(p, st') && WorkersAgree(p, st')
  {
    var peer := Root(q, st.searches[q].candidates);
    var qs := QueriesToCall(p, st, q, peer);
    ExpandCalls(p, st, w, q);
    CalledQueries(p, st, q, peer);
    CallCounts(p, st, Expand(p, st, w, q), w, peer, qs);
  }

  lemma CallSearch(p: Params, q: Id, s: Search, peer: Id, chosen: bool, called: bool)
    requires SearchInv(p, q, s) && (chosen ==> called)
    requires called ==> peer !in s.visited && s.finished == []
    ensures SearchInv(p, q, Called(s, peer, chosen, called))
  {
    if chosen {
      PopInv(p, q, s, peer, true);
    } else if called {
      VisitInv(p, q, s, peer);
    }
  }

  lemma VisitInv(p: Params, q: Id, s: Search, peer: Id)
    requires SearchInv(p, q, s) && peer !in s.visited && s.finished == []
    ensures SearchInv(p, q, s.(visited := s.visited + {peer}, asked := s.asked + [peer], active := s.active + 1))
  {
    ElemsAppend(s.asked, [peer]);
    assert Elems([peer]) == {peer};
    assert peer !in s.asked;
  }

  lemma CalledQueries(p: Params, st: State, q: Id, peer: Id)
    requires q in st.unfinished
    ensures var qs := QueriesToCall(p, st, q, peer);
            && Distinct(qs) && qs[0] == q
            && forall o :: o in qs && o != q ==>
                 o in st.unfinished && o in st.searches && peer !in st.searches[o].visited
  {
    var others := Others(st, q, peer);
    RankedSorts(peer, others);
    RankedDistinct(peer, others);
    var r := Take(Ranked(peer, others), if p.perCall >= 1 then p.perCall - 1 else 0);
    forall o | o in r
      ensures o in others
    {
      assert o in Elems(Ranked(peer, others));
    }
    DistinctCons(q, r);
  }

  lemma DistinctCons(x: Id, s: seq<Id>)
    requires x !in s && Distinct(s)
    ensures Distinct([x] + s)
  {
    var t := [x] + s;
    forall i, j | 0 <= i < j < |t|
      ensures t[i] != t[j]
    {
      assert t[j] == s[j - 1];
    }
  }

  lemma CallCounts(p: Params, st: State, st': State, w: nat, peer: Id, qs: seq<Id>)
    requires st.searches.Keys == p.queries && FinishesAgree(p, st) && CallsCounted(p, st) && WorkersAgree(p, st)
    requires st'.searches.Keys == p.queries && w < |st.workers| && st.workers[w] == Ready
    requires st'.workers == st.workers[w := Calling(peer, qs)]
    requires st'.unfinished == st.unfinished != {} && st'.searchFinished == st.searchFinished
    requires qs != [] && qs[0] in p.queries
    requires forall o :: o in p.queries ==> st'.searches[o].active == st.searches[o].active + (if o in qs then 1 else 0)
    requires forall o :: o in p.queries ==> st'.searches[o].finished == st.searches[o].finished
    requires forall o :: o in p.queries && st.searches[o].finished != [] ==> st.searches[o].finished[0].stopped
    ensures FinishesAgree(p, st') && CallsCounted(p, st') && WorkersAgree(p, st')
  {
    forall o | o in p.queries
      ensures InFlight(st'.workers, o) == InFlight(st.workers, o) + (if o in qs then 1 else 0)
    {
      InFlightUpdate(st.workers, w, Calling(peer, qs), o);
    }
    assert st'.workers[w].Calling?;
    assert SomeCalling(st');
  }

  lemma ExpandInv(p: Params, st: State, w: nat, q: Id)
    requires p.Valid() && Inv(p, st) && w < |st.workers| && st.workers[w] == Ready && q in st.unfinished
    requires HasCandidates(q, p.beam, st.searches[q])
    ensures Inv(p, Expand(p, st, w, q))
  {
    var s := st.searches[q];
    var peer := Root(q, s.candidates);
    if peer in s.visited {
      PopInv(p, q, s, peer, false);
      UpdateSearch(p, st, q, s.(candidates := s.candidates - {peer}));
    } else {
      CallInv(p, st, w, q);
    }
  }

  lemma TurnInv(p: Params, st: State, w: nat, q: Id)
    requires p.Valid() && Inv(p, st) && Enabled(p, st, Turn(w, q))
    ensures Inv(p, RunTurn(p, st, w, q))
  {
    if st.unfinished == {} {
      IdleInv(p, st, w, Gone);
    } else if HasCandidates(q, p.beam, st.searches[q]) {
      ExpandInv(p, st, w, q);
    } else if SomeActive(st) {
      ActiveIsCalling(p, st);
      IdleInv(p, st, w, Parked);
    } else {
      FinishAllInv(p, st);
      IdleInv(p, FinishAll(p, st), w, Gone);
    }
  }

  // ----- a returning call

  lemma MergeAnswerInv(p: Params, st: State, a: Answer)
    requires p.Valid() && Inv(p, st)
    ensures Inv(p, MergeAnswer(p, st, a))
    ensures MergeAnswer(p, st, a).unfinished <= st.unfinished
  {
    if a.query in st.unfinished {
      if a.stop {
        StopInv(p, st, a.query);
      } else {
        var s := st.searches[a.query];
        DiscoverAllKeeps(p, a.query, s, a.neighbors);
        UpdateSearch(p, st, a.query, DiscoverAll(a.query, p.beam, s, a.neighbors));
      }
    }
  }

  lemma StopInv(p: Params, st: State, q: Id)
    requires p.Valid() && Inv(p, st) && q in st.unfinished
    ensures Inv(p, Finish(p, st, q, true))
  {
    CloseInv(p, q, st.searches[q], true);
    UpdateSearches(p, st.searches, q, Close(q, p.beam, st.searches[q], true));
    StopWorkers(p, st, q);
  }

  lemma StopWorkers(p: Params, st: State, q: Id)
    requires st.searches.Keys == p.queries && FinishesAgree(p, st) && CallsCounted(p, st) && WorkersAgree(p, st)
             && q in st.unfinished
    requires Finish(p, st, q, true).searches.Keys == p.queries
    ensures FinishesAgree(p, Finish(p, st, q, true))
    ensures CallsCounted(p, Finish(p, st, q, true)) && WorkersAgree(p, Finish(p, st, q, true))
  {
    assert SomeCalling(st) <==> SomeCalling(Finish(p, st, q, true));
  }

  lemma {:induction false} MergeReplyInv(p: Params, st: State, reply: seq<Answer>)
    requires p.Valid() && Inv(p, st)
    ensures Inv(p, MergeReply(p, st, reply))
    decreases reply
  {
    if reply != [] {
      MergeAnswerInv(p, st, reply[0]);
      MergeReplyInv(p, MergeAnswer(p, st, reply[0]), reply[1..]);
    }
  }

  lemma ReleaseInv(p: Params, st: State, w: nat)
    requires p.Valid() && Inv(p, st) && w < |st.workers| && st.workers[w].Calling?
    ensures Inv(p, Release(st, w, st.workers[w].queries))
  {
    ReleaseSearches(p, st, w, st.workers[w].queries);
    ReleaseWorkers(p, st, w);
  }

  lemma ReleaseSearches(p: Params, st: State, w: nat, qs: seq<Id>)
    requires SearchesAgree(p, st.searches) && w < |st.workers|
    ensures SearchesAgree(p, Release(st, w, qs).searches)
  {
    var searches := Release(st, w, qs).searches;
    forall q | q in p.queries
      ensures SearchInv(p, q, searches[q])
    {
      var s := st.searches[q];
      ActiveIrrelevant(p, q, s, if q in qs then s.active - 1 else s.active);
    }
  }

  lemma ActiveIrrelevant(p: Params, q: Id, s: Search, n: int)
    requires SearchInv(p, q, s)
    ensures SearchInv(p, q, s.(active := n))
  {
  }

  lemma ReleaseWorkers(p: Params, st: State, w: nat)
    requires st.searches.Keys == p.queries && FinishesAgree(p, st) && CallsCounted(p, st) && WorkersAgree(p, st)
    requires w < |st.workers| && st.workers[w].Calling?
    requires Release(st, w, st.workers[w].queries).searches.Keys == p.queries
    ensures FinishesAgree(p, Release(st, w, st.workers[w].queries))
    ensures CallsCounted(p, Release(st, w, st.workers[w].queries))
    ensures WorkersAgree(p, Release(st, w, st.workers[w].queries))
  {
    var st' := Release(st, w, st.workers[w].queries);
    assert SomeCalling(st);
    forall q | q in p.queries
      ensures st'.searches[q].active == st.searches[q].active - Carries(st.workers[w], q)
      ensures InFlight(st'.workers, q) == InFlight(st.workers, q) - Carries(st.workers[w], q)
    {
      InFlightUpdate(st.workers, w, Ready, q);
      InFlightWoken(st.workers[w := Ready], q);
    }
  }

  lemma ReturnInv(p: Params, st: State, w: nat, reply: seq<Answer>)
    requires p.Valid() && Inv(p, st) && Enabled(p, st, Return(w, reply))
    ensures Inv(p, Next(p, st, Return(w, reply)))
  {
    if st.searchFinished {
      var st' := st.(workers := st.workers[w := Gone]);
      if i :| 0 <= i < |st'.workers| && st'.workers[i].Calling? {
        assert st.workers[i].Calling?;
      }
    } else {
      MergeReplyInv(p, st, reply);
      ReleaseInv(p, MergeReply(p, st, reply), w);
    }
  }

  // ----- every run

  /** The invariant holds in every state of every run. */
  lemma {:induction false} RunInv(p: Params, events: seq<Event>, st: State)
    requires p.Valid() && Reaches(p, events, st)
    ensures Inv(p, st)
    decreases |events|
  {
    if events == [] {
      InitInv(p, st);
    } else {
      var last := |events| - 1;
      var before :| Reaches(p, events[..last], before) && Enabled(p, before, events[last])
          && st == Next(p, before, events[last]);
      RunInv(p, events[..last], before);
      match events[last] {
        case Turn(w, q) => TurnInv(p, before, w, q);
        case Return(w, reply) => ReturnInv(p, before, w, reply);
      }
    }
  }

  /** What the heaps of a finished query say: its result is the beam_size nearest of all nodes known for
      it; and unless it was stopped by a reply, each of them was asked about it or was marked visited
      beforehand, and no call is still unanswered. */
  lemma FinishedHeaps(p: Params, events: seq<Event>, st: State, q: Id)
    requires p.Valid() && Reaches(p, events, st)
    requires q in p.queries && q in st.searches && st.searches[q].finished != []
    ensures var s := st.searches[q];
            var f := s.finished[0];
            && f.result == Take(Ranked(q, p.initial + s.heard), p.beam)
            && (!f.stopped ==> (forall x :: x in f.result ==> x in s.asked || x in p.Before(q)) && !SomeCalling(st))
  {
    RunInv(p, events, st);
    var s := st.searches[q];
    assert SearchInv(p, q, s);
    IsNearestRanks(q, s.known, p.beam, s.nearest);
    RankedSorts(q, s.nearest);
    var f := s.finished[0];
    assert f.result == Ranked(q, s.nearest);
    assert forall x :: x in f.result <==> x in Elems(Ranked(q, s.nearest));
  }

  /** Book-keeping of every run: each query has been finished at most once, and exactly once when
      the search is over; what was recorded then is what would be returned now; no peer is asked
      twice about a query or although it was marked visited; `active_workers` counts the calls in
      flight until the end; the event is set iff nothing is unfinished; a worker that has returned
      means the search is over; and while it is not, a parked worker waits for a call in flight. */
  lemma RunSafety(p: Params, events: seq<Event>, st: State)
    requires p.Valid() && Reaches(p, events, st)
    ensures st.searches.Keys == p.queries
    ensures forall q :: q in p.queries ==>
              var s := st.searches[q];
              && |s.finished| == (if q in st.unfinished then 0 else 1)
              && (q !in st.unfinished ==> s.finished[0].result == Result(q, p.beam, s))
              && Distinct(s.asked)
              && (forall x :: x in s.asked ==> x !in p.Before(q))
              && (!st.searchFinished ==> s.active == InFlight(st.workers, q))
    ensures st.searchFinished <==> st.unfinished == {}
    ensures forall i :: 0 <= i < |st.workers| && st.workers[i] == Gone ==> st.searchFinished
    ensures forall i :: 0 <= i < |st.workers| && st.workers[i] == Parked && !st.searchFinished ==>
              exists j :: 0 <= j < |st.workers| && j != i && st.workers[j].Calling?
  {
    RunInv(p, events, st);
    forall q | q in p.queries
      ensures var s := st.searches[q];
              && |s.finished| == (if q in st.unfinished then 0 else 1)
              && (q !in st.unfinished ==> s.finished[0].result == Result(q, p.beam, s))
              && Distinct(s.asked)
              && (forall x :: x in s.asked ==> x !in p.Before(q))
    {
      var s := st.searches[q];
      assert SearchInv(p, q, s);
      assert forall x :: x in s.asked ==> x in Elems(s.asked);
    }
    forall i | 0 <= i < |st.workers| && st.workers[i] == Parked && !st.searchFinished
      ensures exists j :: 0 <= j < |st.workers| && j != i && st.workers[j].Calling?
    {
      var j :| 0 <= j < |st.workers| && st.workers[j].Calling?;
    }
  }

  // ----- a finished query is never touched again

  ghost predicate KeepsFinished(st: State, st': State) {
    && st'.searches.Keys == st.searches.Keys
    && st'.unfinished <= st.unfinished
    && forall q :: q in st.searches && q !in st.unfinished ==>
         st'.searches[q].finished == st.searches[q].finished && st'.searches[q].nearest == st.searches[q].nearest
  }

  lemma {:induction false} MergeKeepsFinished(p: Params, st: State, reply: seq<Answer>)
    requires p.beam >= 1 && st.unfinished <= st.searches.Keys
    ensures KeepsFinished(st, MergeReply(p, st, reply))
    decreases reply
  {
    if reply != [] {
      var st1 := MergeAnswer(p, st, reply[0]);
      assert st1.searches.Keys == st.searches.Keys;
      MergeKeepsFinished(p, st1, reply[1..]);
    }
  }

  /** Later events neither finish a query again nor change its nearest nodes. */
  lemma NextKeepsFinished(p: Params, st: State, e: Event)
    requires p.Valid() && Enabled(p, st, e) && st.unfinished <= st.searches.Keys
    ensures KeepsFinished(st, Next(p, st, e))
  {
    match e {
      case Turn(w, q) =>
        if st.unfinished != {} && HasCandidates(q, p.beam, st.searches[q]) {
          var s := st.searches[q];
          var peer := Root(q, s.candidates);
          var popped := st.(searches := st.searches[q := s.(candidates := s.candidates - {peer})]);
          assert KeepsFinished(st, popped);
          CalledQueries(p, popped, q, peer);
        }
      case Return(w, reply) =>
        MergeKeepsFinished(p, st, reply);
    }
  }

  // ----- the search never gets stuck

  lemma PrefersTransitive(p: Params, st: State, a: Id, b: Id, c: Id)
    requires p.Valid() && {a, b, c} <= st.searches.Keys && Prefers(p, st, a, b) && Prefers(p, st, b, c)
    ensures Prefers(p, st, a, c)
  {
  }

  ghost predicate Ordered(Q: set<Id>, le: (Id, Id) -> bool) {
    && (forall a, b :: a in Q && b in Q ==> le(a, b) || le(b, a))
    && (forall a, b, c :: a in Q && b in Q && c in Q && le(a, b) && le(b, c) ==> le(a, c))
  }

  lemma {:induction false} LeastExists(Q: set<Id>, le: (Id, Id) -> bool) returns (q: Id)
    requires Q != {} && Ordered(Q, le)
    ensures q in Q && forall o :: o in Q ==> le(q, o)
    decreases Q
  {
    var x :| x in Q;
    var R := Q - {x};
    q := x;
    if R != {} {
      var m := LeastExists(R, le);
      assert m in Q;
      q := if le(m, x) then m else x;
      forall o | o in Q
        ensures le(q, o)
      {
        if o == x {
          assert le(x, x);
        } else {
          assert o in R && le(m, o);
          assert le(m, x) || le(x, m);
        }
      }
    } else {
      assert Q == {x} + R;
      assert le(x, x);
    }
  }

  lemma SomeChoice(p: Params, st: State, Q: set<Id>)
    requires p.Valid() && Q != {} && Q <= st.searches.Keys
    ensures exists q :: q in Q && forall o :: o in Q ==> Prefers(p, st, q, o)
  {
    var le: (Id, Id) -> bool := (a, b) => a in st.searches && b in st.searches && Prefers(p, st, a, b);
    forall a, b, c | a in Q && b in Q && c in Q && le(a, b) && le(b, c)
      ensures le(a, c)
    {
      PrefersTransitive(p, st, a, b, c);
    }
    forall a, b | a in Q && b in Q
      ensures le(a, b) || le(b, a)
    {
    }
    var q := LeastExists(Q, le);
    forall o | o in Q
      ensures Prefers(p, st, q, o)
    {
      assert le(q, o);
    }
  }

  /** While a query is unfinished, some worker can take a step. */
  lemma NeverStuck(p: Params, events: seq<Event>, st: State)
    requires p.Valid() && Reaches(p, events, st) && st.unfinished != {}
    ensures exists e :: Enabled(p, st, e)
  {
    RunInv(p, events, st);
    HasWorkers(p, events, st);
    if i :| 0 <= i < |st.workers| && st.workers[i].Calling? {
      assert Enabled(p, st, Return(i, []));
    } else {
      assert st.workers[0] == Ready;
      SomeChoice(p, st, st.unfinished);
      var q :| q in st.unfinished && forall o :: o in st.unfinished ==> Prefers(p, st, q, o);
      assert Chosen(p, st, q);
      assert Enabled(p, st, Turn(0, q));
    }
  }

  lemma SameWorkers(p: Params, st: State, e: Event)
    requires p.Valid() && Enabled(p, st, e)
    ensures |Next(p, st, e).workers| == |st.workers|
  {
  }

  lemma {:induction false} HasWorkers(p: Params, events: seq<Event>, st: State)
    requires p.Valid() && Reaches(p, events, st)
    ensures st.workers != []
    decreases |events|
  {
    if events != [] {
      var last := |events| - 1;
      var before :| Reaches(p, events[..last], before) && Enabled(p, before, events[last])
                    && st == Next(p, before, events[last]);
      HasWorkers(p, events[..last], before);
      SameWorkers(p, before, events[last]);
    }
  }
}
