/**
 Nodes marked visited beforehand: exactly when the traversal returns one of them all the same, a run
 that does, and what a caller can check to exclude it.
 */
module TraversalVisited {
  import opened Collections
  import opened XorMetric
  import opened Ranking
  import opened Traversal
  import opened TraversalProofs
  import opened TraversalReports
  import opened TraversalEquivalence

  /** The members of S nearer to q than x. */
  ghost function Closer(q: Id, S: set<Id>, x: Id): set<Id> {
    set y | y in S && Nearer(q, y, x)
  }

  /** A member is among the k nearest exactly if fewer than k members are nearer. */
  lemma AmongNearest(q: Id, S: set<Id>, k: nat, x: Id)
    requires x in S
    ensures x in Take(Ranked(q, S), k) <==> |Closer(q, S, x)| < k
  {
    var T := Elems(Take(Ranked(q, S), k));
    PrefixIsNearest(q, S, k);
    if x in T {
      assert Closer(q, S, x) <= T - {x};
      SubsetSameSize(Closer(q, S, x), T - {x});
    } else {
      assert T <= Closer(q, S, x);
      SubsetSameSize(T, S);
      SubsetSameSize(T, Closer(q, S, x));
    }
  }

  /** A finished query returns a node that was marked visited beforehand exactly if such a node was
      initial or reported, and fewer than beam_size initial or reported nodes are nearer. For a query
      stopped by a reply, reports that came after the stop do not count. */
  lemma VisitedReturnedIff(p: Params, events: seq<Event>, st: State, q: Id)
    requires p.Valid() && Reaches(p, events, st)
    requires q in p.queries && q in st.searches && st.searches[q].finished != []
    ensures var known := p.initial + Considered(events, q);
            (exists x :: x in st.searches[q].finished[0].result && x in p.Before(q)) <==>
            exists x :: x in p.Before(q) && x in known && |Closer(q, known, x)| < p.beam
  {
    var known := p.initial + Considered(events, q);
    FinishedSearch(p, events, st, q);
    RankedSorts(q, known);
    forall x
      ensures x in Take(Ranked(q, known), p.beam) <==> x in known && |Closer(q, known, x)| < p.beam
    {
      if x in Take(Ranked(q, known), p.beam) {
        assert x in Elems(Ranked(q, known));
      }
      if x in known {
        AmongNearest(q, known, p.beam, x);
      }
    }
  }

  /** If neither the initial nodes nor any report for the query names a node that was marked visited
      beforehand, none is returned. */
  lemma VisitedNotReturned(p: Params, events: seq<Event>, st: State, q: Id)
    requires p.Valid() && Reaches(p, events, st)
    requires q in p.queries && q in st.searches && st.searches[q].finished != []
    requires (p.initial + Reports(events, q)) !! p.Before(q)
    ensures forall x :: x in st.searches[q].finished[0].result ==> x !in p.Before(q)
  {
    VisitedReturnedIff(p, events, st, q);
    ConsideredFirst(Told(events, q));
  }

  // ----- a run that returns such a node

  lemma Singleton(q: Id, x: Id)
    ensures Ranked(q, {x}) == [x] && Root(q, {x}) == x && Farthest(q, {x}) == x
  {
    assert NearestFirst(q, [x]) && Elems([x]) == {x};
    RankedUnique(q, [x]);
  }

  ghost function Example(q: Id, a: Id, b: Id): Params {
    Params({q}, {a}, 1, 1, map[q := {b}])
  }

  ghost function First(q: Id, a: Id, b: Id): State {
    State({q}, map[q := Start(Example(q, a, b), q)], false, [Ready])
  }

  /** One query, one initial node `a`, and `b`, nearer to the query, marked visited beforehand: `a` is
      called, reports `b`, and the search ends with `b` as its result. */
  lemma VisitedIsReturned(q: Id, a: Id, b: Id)
    requires a != b && Nearer(q, b, a)
    ensures var p := Example(q, a, b);
            var events := [Turn(0, q), Return(0, [Answer(q, [b], false)]), Turn(0, q), Turn(0, q)];
            exists st :: && Reaches(p, events, st) && q in st.searches
                         && st.searches[q].finished == [Finished([b], false)] && b in p.Before(q)
  {
    var e1, e2, e3 := Turn(0, q), Return(0, [Answer(q, [b], false)]), Turn(0, q);
    var st3 := ThreeEvents(q, a, b);
    var st4 := Finishes(q, a, b, st3);
    Extend(Example(q, a, b), [e1, e2, e3], st3, e3);
    assert [e1, e2, e3] + [e3] == [e1, e2, e3, e3];
  }

  lemma ThreeEvents(q: Id, a: Id, b: Id) returns (st: State)
    requires a != b && Nearer(q, b, a)
    ensures Reaches(Example(q, a, b), [Turn(0, q), Return(0, [Answer(q, [b], false)]), Turn(0, q)], st)
    ensures st.unfinished == {q} && st.searches.Keys == {q} && st.workers == [Ready]
    ensures st.searches[q] == Search({}, {b}, {a, b}, {a, b}, 0, [a], {b}, [])
  {
    var e1, e2, e3 := Turn(0, q), Return(0, [Answer(q, [b], false)]), Turn(0, q);
    var st2 := TwoEvents(q, a, b);
    st := SkipsVisited(q, a, b, st2);
    Extend(Example(q, a, b), [e1, e2], st2, e3);
    assert [e1, e2] + [e3] == [e1, e2, e3];
  }

  lemma TwoEvents(q: Id, a: Id, b: Id) returns (st: State)
    requires a != b && Nearer(q, b, a)
    ensures Reaches(Example(q, a, b), [Turn(0, q), Return(0, [Answer(q, [b], false)])], st)
    ensures st.unfinished == {q} && st.searches.Keys == {q} && st.workers == [Ready]
    ensures st.searches[q] == Search({b}, {b}, {a, b}, {a, b}, 0, [a], {b}, [])
  {
    var e1, e2 := Turn(0, q), Return(0, [Answer(q, [b], false)]);
    var st1 := OneEvent(q, a, b);
    st := HearsVisited(q, a, b, st1);
    Extend(Example(q, a, b), [e1], st1, e2);
    assert [e1] + [e2] == [e1, e2];
  }

  lemma OneEvent(q: Id, a: Id, b: Id) returns (st: State)
    requires a != b
    ensures Reaches(Example(q, a, b), [Turn(0, q)], st)
    ensures st.unfinished == {q} && st.searches.Keys == {q} && !st.searchFinished && st.workers == [Calling(a, [q])]
    ensures st.searches[q] == Search({}, {a}, {a}, {a, b}, 1, [a], {}, [])
  {
    var p, st0, e1 := Example(q, a, b), First(q, a, b), Turn(0, q);
    st := CallsInitial(q, a, b);
    assert Reaches(p, [], st0);
    Extend(p, [], st0, e1);
    assert [] + [e1] == [e1];
  }

  lemma Extend(p: Params, events: seq<Event>, st: State, e: Event)
    requires p.Valid() && Reaches(p, events, st) && Enabled(p, st, e)
    ensures Reaches(p, events + [e], Next(p, st, e))
  {
    assert (events + [e])[..|events|] == events;
  }

  lemma CallsInitial(q: Id, a: Id, b: Id) returns (st: State)
    requires a != b
    ensures var p := Example(q, a, b);
            && Enabled(p, First(q, a, b), Turn(0, q)) && st == Next(p, First(q, a, b), Turn(0, q))
            && st.unfinished == {q} && st.searches.Keys == {q} && !st.searchFinished
            && st.workers == [Calling(a, [q])]
            && st.searches[q] == Search({}, {a}, {a}, {a, b}, 1, [a], {}, [])
  {
    var p, st0 := Example(q, a, b), First(q, a, b);
    Singleton(q, a);
    assert Elems([a]) == {a} && Take([a], 1) == [a];
    assert Start(p, q) == Search({a}, {a}, {a}, {b}, 0, [], {}, []);
    ExpandSingle(p, st0, q);
    st := Expand(p, st0, 0, q);
    assert {a} - {a} == {} && {b} + {a} == {a, b} && [] + [a] == [a];
  }

  lemma HearsVisited(q: Id, a: Id, b: Id, st: State) returns (st': State)
    requires a != b && Nearer(q, b, a)
    requires st.unfinished == {q} && st.searches.Keys == {q} && !st.searchFinished && st.workers == [Calling(a, [q])]
    requires st.searches[q] == Search({}, {a}, {a}, {a, b}, 1, [a], {}, [])
    ensures var p, e := Example(q, a, b), Return(0, [Answer(q, [b], false)]);
            && Enabled(p, st, e) && st' == Next(p, st, e)
            && st'.unfinished == {q} && st'.searches.Keys == {q} && st'.workers == [Ready]
            && st'.searches[q] == Search({b}, {b}, {a, b}, {a, b}, 0, [a], {b}, [])
  {
    var p := Example(q, a, b);
    var reply := [Answer(q, [b], false)];
    ReturnSingle(p, st, q, a, [b]);
    assert MergeReply(p, st, reply) == MergeReply(p, MergeAnswer(p, st, reply[0]), reply[1..]);
    assert MergeReply(p, st, reply).searches.Keys == {q};
    st' := Next(p, st, Return(0, reply));
    FoundNearer(q, a, b, st.searches[q]);
    assert DiscoverAll(q, 1, st.searches[q], [b]) == Discover(q, 1, st.searches[q], b);
  }

  lemma FoundNearer(q: Id, a: Id, b: Id, s: Search)
    requires a != b && Nearer(q, b, a) && s == Search({}, {a}, {a}, {a, b}, 1, [a], {}, [])
    ensures Discover(q, 1, s, b) == Search({b}, {b}, {a, b}, {a, b}, 1, [a], {b}, [])
  {
    Singleton(q, a);
    FarthestIsLast(q, {a, b});
    assert Farthest(q, {a, b}) == a;
    assert {a} + {b} == {a, b} && {a, b} - {a} == {b};
  }

  lemma SkipsVisited(q: Id, a: Id, b: Id, st: State) returns (st': State)
    requires a != b
    requires st.unfinished == {q} && st.searches.Keys == {q} && st.workers == [Ready]
    requires st.searches[q] == Search({b}, {b}, {a, b}, {a, b}, 0, [a], {b}, [])
    ensures var p := Example(q, a, b);
            && Enabled(p, st, Turn(0, q)) && st' == Next(p, st, Turn(0, q))
            && st'.unfinished == {q} && st'.searches.Keys == {q} && st'.workers == [Ready]
            && st'.searches[q] == Search({}, {b}, {a, b}, {a, b}, 0, [a], {b}, [])
  {
    Singleton(q, b);
    st' := Next(Example(q, a, b), st, Turn(0, q));
    assert {b} - {b} == {};
  }

  lemma Finishes(q: Id, a: Id, b: Id, st: State) returns (st': State)
    requires st.unfinished == {q} && st.searches.Keys == {q} && st.workers == [Ready]
    requires st.searches[q] == Search({}, {b}, {a, b}, {a, b}, 0, [a], {b}, [])
    ensures var p := Example(q, a, b);
            && Enabled(p, st, Turn(0, q)) && st' == Next(p, st, Turn(0, q))
            && q in st'.searches && st'.searches[q].finished == [Finished([b], false)]
  {
    Singleton(q, b);
    assert Take([b], 1) == [b];
    st' := Next(Example(q, a, b), st, Turn(0, q));
  }
}
