/**
 What a search heard against what its calls brought back, and the meaning of its results in terms of
 the replies of the run: which queries a reply stopped, and of which nodes a result is made.
 */
module TraversalReports {
  import opened Collections
  import opened XorMetric
  import opened Ranking
  import opened Traversal
  import opened TraversalProofs

  // ----- the replies of a run

  /** The answers about the query in a reply, in order. */
  function About(reply: seq<Answer>, q: Id): seq<Answer> {
    if reply == [] then [] else (if reply[0].query == q then [reply[0]] else []) + About(reply[1..], q)
  }

  /** All answers about the query that the calls of the run brought back, in order. */
  function Told(events: seq<Event>, q: Id): seq<Answer> {
    if events == [] then []
    else
      var e := events[|events| - 1];
      Told(events[..|events| - 1], q) + (if e.Return? then About(e.reply, q) else [])
  }

  /** Some answer asks to stop. */
  predicate Stops(answers: seq<Answer>) {
    answers != [] && (answers[0].stop || Stops(answers[1..]))
  }

  /** The answers before the first that asks to stop. */
  function BeforeStop(answers: seq<Answer>): seq<Answer> {
    if answers == [] || answers[0].stop then [] else [answers[0]] + BeforeStop(answers[1..])
  }

  /** The nodes that the answers name. */
  ghost function NamedIn(answers: seq<Answer>): set<Id> {
    if answers == [] then {} else Elems(answers[0].neighbors) + NamedIn(answers[1..])
  }

  /** All nodes that the replies of the run name for the query. */
  ghost function Reports(events: seq<Event>, q: Id): set<Id> {
    NamedIn(Told(events, q))
  }

  /** Those of them that were named before any reply asked to stop the query. */
  ghost function Considered(events: seq<Event>, q: Id): set<Id> {
    NamedIn(BeforeStop(Told(events, q)))
  }

  lemma {:induction false} StopsAppend(s: seq<Answer>, t: seq<Answer>)
    ensures Stops(s + t) <==> Stops(s) || Stops(t)
    ensures BeforeStop(s + t) == if Stops(s) then BeforeStop(s) else s + BeforeStop(t)
    ensures !Stops(s) ==> BeforeStop(s) == s
    ensures NamedIn(s + t) == NamedIn(s) + NamedIn(t)
  {
    if s == [] {
      assert s + t == t;
    } else {
      StopsAppend(s[1..], t);
      assert (s + t)[1..] == s[1..] + t;
    }
  }

  lemma {:induction false} ConsideredFirst(answers: seq<Answer>)
    ensures NamedIn(BeforeStop(answers)) <= NamedIn(answers)
    ensures !Stops(answers) ==> BeforeStop(answers) == answers
  {
    if answers != [] {
      ConsideredFirst(answers[1..]);
    }
  }

  // ----- one event

  lemma {:induction false} DiscoverAllHears(q: Id, beam: nat, s: Search, xs: seq<Id>)
    requires beam >= 1
    ensures DiscoverAll(q, beam, s, xs).heard == s.heard + Elems(xs)
    ensures DiscoverAll(q, beam, s, xs).finished == s.finished
    decreases xs
  {
    if xs != [] {
      DiscoverAllHears(q, beam, Discover(q, beam, s, xs[0]), xs[1..]);
      assert Elems(xs) == {xs[0]} + Elems(xs[1..]);
    }
  }

  /** A reply stopped the query. */
  ghost predicate Stopped(s: Search) {
    s.finished != [] && s.finished[0].stopped
  }

  lemma {:induction false} MergeKeepsDone(p: Params, st: State, reply: seq<Answer>, q: Id)
    requires p.Valid() && q in st.searches && q !in st.unfinished
    ensures var st' := MergeReply(p, st, reply);
            q in st'.searches && q !in st'.unfinished && st'.searches[q] == st.searches[q]
    decreases reply
  {
    if reply != [] {
      MergeKeepsDone(p, MergeAnswer(p, st, reply[0]), reply[1..], q);
    }
  }

  /** Merging a reply hears what it names for an unfinished query before it asks to stop it, and
      finishes the query exactly if it does. */
  lemma {:induction false} MergeReplyTells(p: Params, st: State, reply: seq<Answer>, q: Id)
    requires p.Valid() && q in st.searches && q in st.unfinished && st.searches[q].finished == []
    ensures var st' := MergeReply(p, st, reply);
            && q in st'.searches
            && st'.searches[q].heard == st.searches[q].heard + NamedIn(BeforeStop(About(reply, q)))
            && (q in st'.unfinished <==> !Stops(About(reply, q)))
            && (if q in st'.unfinished then st'.searches[q].finished == [] else Stopped(st'.searches[q]))
    decreases reply
  {
    if reply != [] {
      var a := reply[0];
      var mid := MergeAnswer(p, st, a);
      if a.query == q {
        DiscoverAllHears(q, p.beam, st.searches[q], a.neighbors);
      }
      if q in mid.unfinished {
        MergeReplyTells(p, mid, reply[1..], q);
      } else {
        MergeKeepsDone(p, mid, reply[1..], q);
      }
      AboutFirst(reply, q);
    }
  }

  lemma AboutFirst(reply: seq<Answer>, q: Id)
    requires reply != []
    ensures reply[0].query != q ==> About(reply, q) == About(reply[1..], q)
    ensures reply[0].query == q ==>
              && (Stops(About(reply, q)) <==> reply[0].stop || Stops(About(reply[1..], q)))
              && NamedIn(BeforeStop(About(reply, q))) ==
                 if reply[0].stop then {} else Elems(reply[0].neighbors) + NamedIn(BeforeStop(About(reply[1..], q)))
  {
    var rest := About(reply[1..], q);
    if reply[0].query == q {
      assert About(reply, q) == [reply[0]] + rest;
      StopsAppend([reply[0]], rest);
      assert ([reply[0]] + rest)[1..] == rest;
      assert [reply[0]][1..] == [];
    } else {
      assert About(reply, q) == [] + rest == rest;
    }
  }

  lemma TurnHears(p: Params, st: State, w: nat, c: Id, q: Id)
    requires p.Valid() && Enabled(p, st, Turn(w, c)) && q in st.searches && st.unfinished <= st.searches.Keys
    requires q in st.unfinished <==> st.searches[q].finished == []
    ensures var st' := Next(p, st, Turn(w, c));
            && q in st'.searches && st'.searches[q].heard == st.searches[q].heard
            && (Stopped(st'.searches[q]) <==> Stopped(st.searches[q]))
  {
    NextKeepsFinished(p, st, Turn(w, c));
  }

  lemma RunFacts(p: Params, events: seq<Event>, st: State, q: Id)
    requires p.Valid() && Reaches(p, events, st) && q in p.queries
    ensures st.searches.Keys == p.queries && st.unfinished <= p.queries
    ensures q in st.unfinished <==> st.searches[q].finished == []
    ensures q in st.unfinished ==> !st.searchFinished
    ensures SomeCalling(st) && q !in st.unfinished ==> Stopped(st.searches[q])
  {
    RunInv(p, events, st);
    RunSafety(p, events, st);
  }

  /** A call returns: to a query that it may stop, or to one that some reply has stopped before. */
  lemma ReturnTells(p: Params, st: State, w: nat, reply: seq<Answer>, q: Id)
    requires p.Valid() && Enabled(p, st, Return(w, reply)) && q in st.searches
    requires if q in st.unfinished then st.searches[q].finished == [] && !st.searchFinished else Stopped(st.searches[q])
    ensures var s, st' := st.searches[q], Next(p, st, Return(w, reply));
            && q in st'.searches
            && (Stopped(st'.searches[q]) <==> Stopped(s) || Stops(About(reply, q)))
            && st'.searches[q].heard == s.heard + (if Stopped(s) then {} else NamedIn(BeforeStop(About(reply, q))))
  {
    if q in st.unfinished {
      MergeReplyTells(p, st, reply, q);
    } else {
      MergeKeepsDone(p, st, reply, q);
    }
  }

  // ----- every run

  /** In every run a query is stopped exactly if some reply of the run asked to stop it, and it has
      heard exactly what was named for it before that. */
  lemma {:induction false} StoppedIff(p: Params, events: seq<Event>, st: State, q: Id)
    requires p.Valid() && Reaches(p, events, st) && q in p.queries && q in st.searches
    ensures Stopped(st.searches[q]) <==> Stops(Told(events, q))
    ensures st.searches[q].heard == Considered(events, q)
    decreases |events|
  {
    if events != [] {
      var last := |events| - 1;
      var before :| Reaches(p, events[..last], before) && Enabled(p, before, events[last])
                    && st == Next(p, before, events[last]);
      RunFacts(p, events[..last], before, q);
      StoppedIff(p, events[..last], before, q);
      match events[last] {
        case Turn(w, c) =>
          TurnHears(p, before, w, c, q);
          assert Told(events, q) == Told(events[..last], q);
        case Return(w, reply) =>
          assert before.workers[w].Calling?;
          ReturnTells(p, before, w, reply, q);
          StopsAppend(Told(events[..last], q), About(reply, q));
          StopsAppend(Told(events[..last], q), BeforeStop(About(reply, q)));
      }
    }
  }

  /** Only nodes that some reply named have been heard of. */
  lemma HeardIsReported(p: Params, events: seq<Event>, st: State, q: Id)
    requires p.Valid() && Reaches(p, events, st) && q in p.queries && q in st.searches
    ensures st.searches[q].heard <= Reports(events, q)
  {
    StoppedIff(p, events, st, q);
    ConsideredFirst(Told(events, q));
  }

  /** Unless a reply stopped the query, all nodes that any reply named for it have been heard of. */
  lemma ReportedIsHeard(p: Params, events: seq<Event>, st: State, q: Id)
    requires p.Valid() && Reaches(p, events, st) && q in p.queries && q in st.searches && !Stopped(st.searches[q])
    ensures Reports(events, q) <= st.searches[q].heard
  {
    StoppedIff(p, events, st, q);
    ConsideredFirst(Told(events, q));
  }

  /** These events lead from one state to the other. */
  ghost predicate Follows(p: Params, st: State, events: seq<Event>, st': State)
    requires p.beam >= 1
    decreases events
  {
    if events == [] then st == st'
    else Enabled(p, st, events[0]) && Follows(p, Next(p, st, events[0]), events[1..], st')
  }

  /** Once finished, a query is in no call but those already in flight. */
  ghost predicate OnlyOldCalls(st: State, st': State, q: Id) {
    && |st'.workers| == |st.workers|
    && forall i :: 0 <= i < |st'.workers| && st'.workers[i].Calling? && q in st'.workers[i].queries ==>
         st'.workers[i] == st.workers[i]
  }

  lemma NextCalls(p: Params, st: State, e: Event, q: Id)
    requires p.Valid() && Enabled(p, st, e) && q in st.searches && q !in st.unfinished
    requires st.unfinished <= st.searches.Keys
    ensures var st' := Next(p, st, e);
            && q in st'.searches && q !in st'.unfinished && st'.unfinished <= st'.searches.Keys
            && OnlyOldCalls(st, st', q)
            && st'.searches[q].finished == st.searches[q].finished && st'.searches[q].asked == st.searches[q].asked
  {
    NextKeepsFinished(p, st, e);
    match e {
      case Turn(w, c) =>
        if st.unfinished != {} && HasCandidates(c, p.beam, st.searches[c]) {
          var s := st.searches[c];
          var peer := Root(c, s.candidates);
          CalledQueries(p, st.(searches := st.searches[c := s.(candidates := s.candidates - {peer})]), c, peer);
        }
      case Return(w, reply) =>
        MergeKeepsDone(p, st, reply, q);
    }
  }

  lemma {:induction false} FollowsCalls(p: Params, st: State, events: seq<Event>, st': State, q: Id)
    requires p.Valid() && Follows(p, st, events, st') && q in st.searches && q !in st.unfinished
    requires st.unfinished <= st.searches.Keys
    ensures q in st'.searches && q !in st'.unfinished && OnlyOldCalls(st, st', q)
    ensures st'.searches[q].finished == st.searches[q].finished && st'.searches[q].asked == st.searches[q].asked
    decreases events
  {
    if events != [] {
      NextCalls(p, st, events[0], q);
      FollowsCalls(p, Next(p, st, events[0]), events[1..], st', q);
    }
  }

  /** A reply that asks to stop a query ends it there and then: whatever happens later, the query stays
      finished with the same result, and no further call asks about it. */
  lemma StopEndsQuery(p: Params, events: seq<Event>, st: State, w: nat, reply: seq<Answer>, q: Id,
                      more: seq<Event>, st': State)
    requires p.Valid() && Reaches(p, events, st) && q in p.queries && Enabled(p, st, Return(w, reply))
    requires Stops(About(reply, q)) && Follows(p, Next(p, st, Return(w, reply)), more, st')
    ensures q in st'.searches && q !in st'.unfinished && Stopped(st'.searches[q])
    ensures st'.searches[q].finished[0].result == Take(Ranked(q,
        p.initial + Considered(events + [Return(w, reply)], q)),
                                                       p.beam)
    ensures q in st.searches && st'.searches[q].asked == st.searches[q].asked
    ensures OnlyOldCalls(Next(p, st, Return(w, reply)), st', q)
  {
    var e := Return(w, reply);
    var run, mid := events + [e], Next(p, st, e);
    assert run[..|events|] == events;
    assert Reaches(p, run, mid);
    RunFacts(p, events, st, q);
    RunFacts(p, run, mid, q);
    StopsAppend(Told(events, q), About(reply, q));
    StoppedIff(p, run, mid, q);
    FinishedHeaps(p, run, mid, q);
    ReturnAsks(p, st, w, reply, q);
    FollowsCalls(p, mid, more, st', q);
  }

  lemma ReturnAsks(p: Params, st: State, w: nat, reply: seq<Answer>, q: Id)
    requires p.Valid() && Enabled(p, st, Return(w, reply)) && q in st.searches
    ensures var st' := Next(p, st, Return(w, reply));
            q in st'.searches && st'.searches[q].asked == st.searches[q].asked
  {
    MergeAsks(p, st, reply, q);
  }

  lemma {:induction false} MergeAsks(p: Params, st: State, reply: seq<Answer>, q: Id)
    requires p.Valid() && q in st.searches
    ensures var st' := MergeReply(p, st, reply);
            q in st'.searches && st'.searches[q].asked == st.searches[q].asked
    decreases reply
  {
    if reply != [] {
      if reply[0].query == q {
        DiscoverAllAsks(q, p.beam, st.searches[q], reply[0].neighbors);
      }
      MergeAsks(p, MergeAnswer(p, st, reply[0]), reply[1..], q);
    }
  }

  lemma {:induction false} DiscoverAllAsks(q: Id, beam: nat, s: Search, xs: seq<Id>)
    requires beam >= 1
    ensures DiscoverAll(q, beam, s, xs).asked == s.asked
    decreases xs
  {
    if xs != [] {
      DiscoverAllAsks(q, beam, Discover(q, beam, s, xs[0]), xs[1..]);
    }
  }

  // ----- the meaning of results

  /** In every state of every run, whatever the interleaving and the replies: a finished query has the
      beam_size nearest of all initial nodes and of all that replies named for it before one asked to
      stop it; it was stopped exactly if one did. If none did, each node of the result was asked about
      it or was marked visited beforehand, every node that any reply of the run named for it is in the
      result or farther than all of it, and no call is still unanswered. */
  lemma FinishedSearch(p: Params, events: seq<Event>, st: State, q: Id)
    requires p.Valid() && Reaches(p, events, st)
    requires q in p.queries && q in st.searches && st.searches[q].finished != []
    ensures var s, known := st.searches[q], p.initial + Considered(events, q);
            var f := s.finished[0];
            && (f.stopped <==> Stops(Told(events, q)))
            && Considered(events, q) <= Reports(events, q)
            && (!f.stopped ==> Considered(events, q) == Reports(events, q))
            && f.result == Take(Ranked(q, known), p.beam)
            && (forall x, y :: x in f.result && y in known && y !in f.result ==> Nearer(q, x, y))
            && (!f.stopped ==> (forall x :: x in f.result ==> x in s.asked || x in p.Before(q)) && !SomeCalling(st))
  {
    var s := st.searches[q];
    FinishedHeaps(p, events, st, q);
    StoppedIff(p, events, st, q);
    ConsideredFirst(Told(events, q));
    PrefixIsNearest(q, p.initial + s.heard, p.beam);
    assert forall x :: x in s.finished[0].result <==> x in Elems(s.finished[0].result);
  }
}
