/**
 `simple_traverse_dht`, the sequential beam search that documents `traverse_dht`: as a loop over two
 heaps, for any answers, and as a function on sets, which it computes if no answer repeats a node.
 */
module SimpleTraversal {
  import opened Collections
  import opened XorMetric
  import opened Ranking
  import opened Traversal
  import opened TraversalProofs

  /** What `get_neighbors` answers for a node: its neighbours and whether to stop. */
  type Oracle = Id -> (seq<Id>, bool)

  /** Answers stay inside the finite universe. */
  ghost predicate Within(g: Oracle, U: set<Id>) {
    forall x :: x in U ==> Elems(g(x).0) <= U
  }

  /** Moreover they list no node twice. */
  ghost predicate Closed(g: Oracle, U: set<Id>) {
    Within(g, U) && forall x :: x in U ==> Distinct(g(x).0)
  }

  // ----- the search as a function on sets

  /** The two heaps and the nodes seen so far, which start with the excluded nodes `pre`. */
  datatype Beam = Beam(unvisited: set<Id>, nearest: set<Id>, seen: set<Id>)

  ghost predicate BeamInv(q: Id, beam: nat, pre: set<Id>, b: Beam) {
    && beam >= 1
    && pre <= b.seen
    && IsNearest(q, b.seen - pre, beam, b.nearest)
    && b.unvisited <= b.seen - pre
  }

  function Unseen(xs: seq<Id>, seen: set<Id>): (r: seq<Id>)
    ensures forall x :: x in r <==> x in xs && x !in seen
  {
    if xs == [] then []
    else (if xs[0] in seen then [] else [xs[0]]) + Unseen(xs[1..], seen)
  }

  lemma {:induction false} UnseenDistinct(xs: seq<Id>, seen: set<Id>)
    requires Distinct(xs)
    ensures Distinct(Unseen(xs, seen))
  {
    if xs != [] {
      UnseenDistinct(xs[1..], seen);
      var r := Unseen(xs[1..], seen);
      assert xs[0] !in xs[1..];
      assert forall i :: 0 <= i < |r| ==> r[i] in xs[1..];
    }
  }

  /** Push one new neighbour to the heaps, if it is near enough. */
  ghost function Push(q: Id, beam: nat, b: Beam, x: Id): Beam
    requires beam >= 1
  {
    var b := b.(seen := b.seen + {x});
    if |b.nearest| < beam || Xor(q, x) <= Xor(q, Farthest(q, b.nearest)) then
      var grown := b.nearest + {x};
      b.(unvisited := b.unvisited + {x},
         nearest := if |b.nearest| < beam then grown else grown - {Farthest(q, grown)})
    else b
  }

  ghost function PushAll(q: Id, beam: nat, b: Beam, xs: seq<Id>): Beam
    requires beam >= 1
    decreases xs
  {
    if xs == [] then b else PushAll(q, beam, Push(q, beam, b, xs[0]), xs[1..])
  }

  lemma PushInv(q: Id, beam: nat, pre: set<Id>, b: Beam, x: Id)
    requires BeamInv(q, beam, pre, b) && x !in b.seen
    ensures BeamInv(q, beam, pre, Push(q, beam, b, x))
  {
    var found := b.seen - pre;
    assert (b.seen + {x}) - pre == found + {x};
    NearestGrows(q, found, beam, b.nearest, x);
  }

  lemma {:induction false} PushAllInv(q: Id, beam: nat, pre: set<Id>, b: Beam, xs: seq<Id>)
    requires BeamInv(q, beam, pre, b) && Distinct(xs) && (forall x :: x in xs ==> x !in b.seen)
    ensures BeamInv(q, beam, pre, PushAll(q, beam, b, xs))
    decreases xs
  {
    if xs != [] {
      PushInv(q, beam, pre, b, xs[0]);
      PushAllInv(q, beam, pre, Push(q, beam, b, xs[0]), xs[1..]);
    }
  }

  /** Everything pushed is seen; nothing leaves `unvisited`; `nearest` gains only unvisited nodes. */
  lemma {:induction false} PushAllGrows(q: Id, beam: nat, b: Beam, xs: seq<Id>)
    requires beam >= 1
    ensures var b' := PushAll(q, beam, b, xs);
            && b'.seen == b.seen + Elems(xs)
            && b.unvisited <= b'.unvisited
            && b'.nearest <= b.nearest + b'.unvisited
    decreases xs
  {
    if xs != [] {
      PushAllGrows(q, beam, Push(q, beam, b, xs[0]), xs[1..]);
      assert Elems(xs) == {xs[0]} + Elems(xs[1..]);
    }
  }

  /** One round: pop `peer`, merge its answer. */
  ghost function Round(q: Id, beam: nat, g: Oracle, b: Beam, peer: Id): Beam
    requires beam >= 1
  {
    PushAll(q, beam, b.(unvisited := b.unvisited - {peer}), Unseen(g(peer).0, b.seen))
  }

  lemma RoundInv(q: Id, beam: nat, g: Oracle, U: set<Id>, pre: set<Id>, b: Beam, peer: Id)
    requires BeamInv(q, beam, pre, b) && Closed(g, U) && b.seen <= U && peer in b.unvisited
    ensures var b' := Round(q, beam, g, b, peer);
            && BeamInv(q, beam, pre, b')
            && b.seen <= b'.seen <= U
            && b'.seen == b.seen + Elems(g(peer).0)
            && (b'.seen == b.seen ==> b'.unvisited == b.unvisited - {peer})
            && b.unvisited - {peer} <= b'.unvisited
            && b'.nearest <= b.nearest + b'.unvisited
  {
    var unseen := Unseen(g(peer).0, b.seen);
    UnseenDistinct(g(peer).0, b.seen);
    var popped := b.(unvisited := b.unvisited - {peer});
    PushAllInv(q, beam, pre, popped, unseen);
    PushAllGrows(q, beam, popped, unseen);
    assert b.seen + Elems(unseen) == b.seen + Elems(g(peer).0);
    if unseen != [] {
      assert unseen[0] in Elems(unseen) && unseen[0] !in b.seen;
    }
  }

  ghost predicate Continues(q: Id, b: Beam) {
    && b.unvisited != {} && b.nearest != {}
    && Xor(q, Root(q, b.unvisited)) <= Xor(q, Farthest(q, b.nearest))
  }

  /** The main loop; the flag says whether an answer interrupted it. */
  ghost function BeamSearch(q: Id, beam: nat, g: Oracle, U: set<Id>, pre: set<Id>, b: Beam): (Beam, bool)
    requires BeamInv(q, beam, pre, b) && Closed(g, U) && b.seen <= U
    decreases |U - b.seen|, |b.unvisited|
  {
    if !Continues(q, b) then (b, false)
    else
      var peer := Root(q, b.unvisited);
      RootIsClosest(q, b.unvisited);
      RoundInv(q, beam, g, U, pre, b, peer);
      var b' := Round(q, beam, g, b, peer);
      Shrinks(U, b, b', peer);
      if g(peer).1 then (b', true) else BeamSearch(q, beam, g, U, pre, b')
  }

  lemma Shrinks(U: set<Id>, b: Beam, b': Beam, peer: Id)
    requires b.seen <= b'.seen <= U && peer in b.unvisited
    requires b'.seen == b.seen ==> b'.unvisited == b.unvisited - {peer}
    ensures |U - b'.seen| < |U - b.seen| || (|U - b'.seen| == |U - b.seen| && |b'.unvisited| < |b.unvisited|)
  {
    if b'.seen != b.seen {
      SubsetSameSize(U - b'.seen, U - b.seen);
      var x :| x in b'.seen && x !in b.seen;
      assert x in U - b.seen && x !in U - b'.seen;
    }
  }

  /** Every node of the beam is still to be visited, or its whole answer has been seen. */
  ghost predicate Accounted(g: Oracle, b: Beam) {
    forall x :: x in b.nearest ==> x in b.unvisited || Elems(g(x).0) <= b.seen
  }

  /** What the search returns: the beam_size nearest of all nodes seen outside `pre`; and unless it
      was interrupted, all neighbours of the returned nodes have been seen. */
  lemma {:induction false} SearchMeaning(q: Id, beam: nat, g: Oracle, U: set<Id>, pre: set<Id>, b: Beam)
    requires BeamInv(q, beam, pre, b) && Closed(g, U) && b.seen <= U && Accounted(g, b)
    ensures var (b', interrupted) := BeamSearch(q, beam, g, U, pre, b);
            && BeamInv(q, beam, pre, b') && b.seen <= b'.seen <= U
            && (!interrupted ==> forall x :: x in b'.nearest ==> Elems(g(x).0) <= b'.seen)
    decreases |U - b.seen|, |b.unvisited|
  {
    if Continues(q, b) {
      var peer := Root(q, b.unvisited);
      RootIsClosest(q, b.unvisited);
      RoundInv(q, beam, g, U, pre, b, peer);
      var b' := Round(q, beam, g, b, peer);
      Shrinks(U, b, b', peer);
      assert Accounted(g, b');
      if !g(peer).1 {
        SearchMeaning(q, beam, g, U, pre, b');
      }
    } else {
      SettledIsVisited(q, beam, pre, b);
    }
  }

  lemma SettledIsVisited(q: Id, beam: nat, pre: set<Id>, b: Beam)
    requires BeamInv(q, beam, pre, b) && !Continues(q, b)
    ensures b.nearest !! b.unvisited
  {
    if b.unvisited != {} && b.nearest != {} {
      RootIsClosest(q, b.unvisited);
      FarthestIsLast(q, b.nearest);
    }
  }

  /** The heaps before the first round. */
  ghost function Seed(q: Id, beam: nat, initial: set<Id>, pre: set<Id>): Beam {
    Beam(initial - pre, Elems(Take(Ranked(q, initial - pre), beam)), pre + initial)
  }

  lemma SeedInv(q: Id, beam: nat, g: Oracle, initial: set<Id>, pre: set<Id>)
    requires beam >= 1
    ensures BeamInv(q, beam, pre, Seed(q, beam, initial, pre)) && Accounted(g, Seed(q, beam, initial, pre))
  {
    PrefixIsNearest(q, initial - pre, beam);
    assert (pre + initial) - pre == initial - pre;
  }

  /** The search from its initial heaps. */
  ghost function SimpleResult(q: Id, beam: nat, g: Oracle, U: set<Id>, initial: set<Id>, pre: set<Id>): (Beam, bool)
    requires beam >= 1 && Closed(g, U) && initial + pre <= U
  {
    SeedInv(q, beam, g, initial, pre);
    BeamSearch(q, beam, g, U, pre, Seed(q, beam, initial, pre))
  }

  lemma ResultMeaning(q: Id, beam: nat, g: Oracle, U: set<Id>, initial: set<Id>, pre: set<Id>)
    requires beam >= 1 && Closed(g, U) && initial + pre <= U
    ensures var (b, interrupted) := SimpleResult(q, beam, g, U, initial, pre);
            var result := Ranked(q, b.nearest);
            && result == Take(Ranked(q, b.seen - pre), beam)
            && (!interrupted ==> forall x :: x in result ==> Elems(g(x).0) <= b.seen)
  {
    SeedInv(q, beam, g, initial, pre);
    SearchMeaning(q, beam, g, U, pre, Seed(q, beam, initial, pre));
    var b := SimpleResult(q, beam, g, U, initial, pre).0;
    IsNearestRanks(q, b.seen - pre, beam, b.nearest);
    RankedSorts(q, b.nearest);
    assert forall x :: x in Ranked(q, b.nearest) <==> x in Elems(Ranked(q, b.nearest));
  }

  // ----- the search as the source runs it: two lists kept in heap order

  /** Lists in pop order stand for the heaps of a beam. */
  ghost predicate Lists(q: Id, b: Beam, unvisited: seq<Id>, nearest: seq<Id>) {
    unvisited == Ranked(q, b.unvisited) && nearest == Ranked(q, b.nearest)
  }

  lemma InsertRanked(q: Id, S: set<Id>, x: Id)
    requires x !in S
    ensures InsertByDistance(q, x, Ranked(q, S)) == Ranked(q, S + {x})
  {
    RankedSorts(q, S);
    InsertSorts(q, x, Ranked(q, S));
    RankedUnique(q, InsertByDistance(q, x, Ranked(q, S)));
  }

  lemma DropLastOf(q: Id, r: seq<Id>)
    requires r != [] && NearestFirst(q, r)
    ensures var init, last := r[..|r| - 1], r[|r| - 1]; init == Ranked(q, Elems(r) - {last})
  {
    var init, last := r[..|r| - 1], r[|r| - 1];
    assert r == init + [last];
    ElemsAppend(init, [last]);
    forall x | x in Elems(init)
      ensures x != last
    {
      var i :| 0 <= i < |init| && init[i] == x;
      assert Nearer(q, r[i], r[|r| - 1]);
    }
    assert Elems(init) == Elems(r) - {last};
    RankedUnique(q, init);
  }

  lemma DropLastRanked(q: Id, S: set<Id>)
    requires S != {}
    ensures var r := Ranked(q, S); |r| == |S| && r[..|S| - 1] == Ranked(q, S - {Farthest(q, S)})
  {
    RankedSorts(q, S);
    DropLastOf(q, Ranked(q, S));
  }

  lemma PopRanked(q: Id, S: set<Id>)
    requires S != {}
    ensures var r := Ranked(q, S); |r| == |S| && r[0] == Root(q, S) && r[1..] == Ranked(q, S - {Root(q, S)})
  {
    RankedSorts(q, S);
    var r := Ranked(q, S);
    assert r == [r[0]] + Ranked(q, S - {r[0]}) by {
      ClosestExists(q, S);
    }
  }

  /** Push one new neighbour to both heaps if it is near enough or the beam has room, dropping the
      farthest of the beam if it was full. */
  function PushBoth(q: Id, beam: nat, unvisited: seq<Id>, nearest: seq<Id>, x: Id): (r: (seq<Id>, seq<Id>))
    requires nearest != []
    ensures r.1 != []
  {
    if |nearest| < beam || Xor(q, x) <= Xor(q, nearest[|nearest| - 1]) then
      var grown := InsertByDistance(q, x, nearest);
      InsertLength(q, x, nearest);
      (InsertByDistance(q, x, unvisited), if |nearest| < beam then grown else grown[..|grown| - 1])
    else (unvisited, nearest)
  }

  function PushEach(q: Id, beam: nat, unvisited: seq<Id>, nearest: seq<Id>, xs: seq<Id>): (r: (seq<Id>, seq<Id>))
    requires nearest != []
    ensures r.1 != []
    decreases xs
  {
    if xs == [] then (unvisited, nearest)
    else
      var (u, n) := PushEach(q, beam, unvisited, nearest, xs[..|xs| - 1]);
      PushBoth(q, beam, u, n, xs[|xs| - 1])
  }

  // ----- what the lists hold, for any answers

  /** Everything that enters the search when these nodes are asked in turn: first the initial nodes,
      then what each answer names that was not seen before, as often as it names it. */
  ghost function Found(g: Oracle, pre: set<Id>, initial: seq<Id>, asked: seq<Id>): seq<Id>
    decreases asked
  {
    if asked == [] then Unseen(initial, pre)
    else
      var before := Found(g, pre, initial, asked[..|asked| - 1]);
      before + Unseen(g(asked[|asked| - 1]).0, pre + Elems(before))
  }

  /** Nothing excluded is found. */
  lemma {:induction false} FoundOutside(g: Oracle, pre: set<Id>, initial: seq<Id>, asked: seq<Id>)
    ensures forall x :: x in Found(g, pre, initial, asked) ==> x !in pre
    decreases asked
  {
    if asked != [] {
      FoundOutside(g, pre, initial, asked[..|asked| - 1]);
    }
  }

  lemma FoundMore(g: Oracle, pre: set<Id>, initial: seq<Id>, asked: seq<Id>, peer: Id)
    ensures var before := Found(g, pre, initial, asked);
            Found(g, pre, initial, asked + [peer]) == before + Unseen(g(peer).0, pre + Elems(before))
  {
    assert (asked + [peer])[..|asked|] == asked;
  }

  /** The beam holds the first of everything found, in order of distance. */
  lemma PushNearest(q: Id, beam: nat, unvisited: seq<Id>, nearest: seq<Id>, found: seq<Id>, x: Id)
    requires nearest != [] && nearest == Take(SortByDistance(q, found), beam)
    ensures PushBoth(q, beam, unvisited, nearest, x).1 == Take(SortByDistance(q, found + [x]), beam)
  {
    SortAppend(q, found, x);
    TakeInsert(q, x, SortByDistance(q, found), beam);
    InsertLength(q, x, nearest);
    SortMembers(q, found);
    if |nearest| == beam && Xor(q, x) > Xor(q, nearest[|nearest| - 1]) {
      InsertFarthest(q, x, nearest);
    }
  }

  lemma {:induction false} PushEachNearest(q: Id, beam: nat, unvisited: seq<Id>, nearest: seq<Id>, found: seq<Id>,
                                           xs: seq<Id>)
    requires nearest != [] && nearest == Take(SortByDistance(q, found), beam)
    ensures PushEach(q, beam, unvisited, nearest, xs).1 == Take(SortByDistance(q, found + xs), beam)
    decreases xs
  {
    if xs == [] {
      assert found + xs == found;
    } else {
      var init, x := xs[..|xs| - 1], xs[|xs| - 1];
      PushEachNearest(q, beam, unvisited, nearest, found, init);
      var (u, n) := PushEach(q, beam, unvisited, nearest, init);
      PushNearest(q, beam, u, n, found + init, x);
      assert found + init + [x] == found + xs;
    }
  }

  /** Only new nodes enter the heaps, nothing leaves `unvisited`, and the beam gains only unvisited nodes. */
  lemma {:induction false} PushEachGrows(q: Id, beam: nat, unvisited: seq<Id>, nearest: seq<Id>, xs: seq<Id>)
    requires nearest != [] && InOrder(q, unvisited)
    ensures var (u, n) := PushEach(q, beam, unvisited, nearest, xs);
            && InOrder(q, u)
            && (forall x :: x in u ==> x in unvisited || x in xs)
            && (forall x :: x in unvisited ==> x in u)
            && (forall x :: x in n ==> x in nearest || x in u)
    decreases xs
  {
    if xs != [] {
      var init, x := xs[..|xs| - 1], xs[|xs| - 1];
      PushEachGrows(q, beam, unvisited, nearest, init);
      var (u, n) := PushEach(q, beam, unvisited, nearest, init);
      InsertMembers(q, x, u);
      InsertMembers(q, x, n);
      var grown := InsertByDistance(q, x, n);
      assert forall y :: y in grown[..|grown| - 1] ==> y in grown;
    }
  }

  // ----- the lists of a search without repetitions

  /** The lists stand for the heaps of a beam that is not empty. */
  ghost predicate Shown(q: Id, b: Beam, unvisited: seq<Id>, nearest: seq<Id>) {
    b.nearest != {} && nearest != [] && Lists(q, b, unvisited, nearest)
  }

  lemma PushShown(q: Id, beam: nat, pre: set<Id>, b: Beam, unvisited: seq<Id>, nearest: seq<Id>, x: Id)
    requires BeamInv(q, beam, pre, b) && x !in b.seen && Shown(q, b, unvisited, nearest)
    ensures var (u, n) := PushBoth(q, beam, unvisited, nearest, x);
            Shown(q, Push(q, beam, b, x), u, n)
  {
    InsertRanked(q, b.unvisited, x);
    InsertRanked(q, b.nearest, x);
    RankedSorts(q, b.nearest);
    InsertLength(q, x, nearest);
    DropLastRanked(q, b.nearest + {x});
  }

  lemma {:induction false} PushEachShown(q: Id, beam: nat, pre: set<Id>, b: Beam, unvisited: seq<Id>,
                                         nearest: seq<Id>, xs: seq<Id>)
    requires BeamInv(q, beam, pre, b) && Shown(q, b, unvisited, nearest)
    requires Distinct(xs) && forall x :: x in xs ==> x !in b.seen
    ensures var (u, n) := PushEach(q, beam, unvisited, nearest, xs); Shown(q, PushAll(q, beam, b, xs), u, n)
    decreases xs
  {
    if xs != [] {
      var init, x := xs[..|xs| - 1], xs[|xs| - 1];
      PushEachShown(q, beam, pre, b, unvisited, nearest, init);
      var (u, n) := PushEach(q, beam, unvisited, nearest, init);
      PushAllInv(q, beam, pre, b, init);
      PushAllGrows(q, beam, b, init);
      assert x !in Elems(init);
      PushShown(q, beam, pre, PushAll(q, beam, b, init), u, n, x);
      PushAllLast(q, beam, b, xs);
    }
  }

  lemma {:induction false} PushAllLast(q: Id, beam: nat, b: Beam, xs: seq<Id>)
    requires beam >= 1 && xs != []
    ensures PushAll(q, beam, b, xs) == Push(q, beam, PushAll(q, beam, b, xs[..|xs| - 1]), xs[|xs| - 1])
    decreases xs
  {
    if |xs| > 1 {
      PushAllLast(q, beam, Push(q, beam, b, xs[0]), xs[1..]);
      assert xs[1..][..|xs| - 2] == xs[..|xs| - 1][1..];
    }
  }

  /** Merge the new neighbours of one answer into the two heaps. */
  method MergeUnseen(q: Id, beam: nat, unvisited: seq<Id>, nearest: seq<Id>, unseen: seq<Id>)
    returns (unvisited': seq<Id>, nearest': seq<Id>)
    requires nearest != []
    ensures (unvisited', nearest') == PushEach(q, beam, unvisited, nearest, unseen)
    ensures nearest' != []
  {
    unvisited', nearest' := unvisited, nearest;
    var i := 0;
    assert unseen[..0] == [];
    while i < |unseen|
      invariant 0 <= i <= |unseen| && nearest' != []
      invariant (unvisited', nearest') == PushEach(q, beam, unvisited, nearest, unseen[..i])
    {
      var (u, n) := PushBoth(q, beam, unvisited', nearest', unseen[i]);
      assert unseen[..i + 1][..i] == unseen[..i];
      unvisited', nearest' := u, n;
      i := i + 1;
    }
    assert unseen[..i] == unseen;
  }

  /** Between two rounds: the lists stand for `b`, from which the search still reaches `target`. */
  ghost predicate Running(q: Id, beam: nat, g: Oracle, U: set<Id>, pre: set<Id>, target: (Beam, bool), b: Beam,
                          unvisited: seq<Id>, nearest: seq<Id>)
    requires Closed(g, U)
  {
    && BeamInv(q, beam, pre, b) && b.seen <= U
    && Shown(q, b, unvisited, nearest)
    && target == BeamSearch(q, beam, g, U, pre, b)
  }

  /** One round of the loop is one round of the search on sets. */
  lemma RunningRound(q: Id, beam: nat, g: Oracle, U: set<Id>, pre: set<Id>, target: (Beam, bool), b: Beam,
                     unvisited: seq<Id>, nearest: seq<Id>)
    requires Closed(g, U) && Running(q, beam, g, U, pre, target, b, unvisited, nearest)
    requires unvisited != [] && Xor(q, unvisited[0]) <= Xor(q, nearest[|nearest| - 1])
    ensures var peer := unvisited[0];
            var b' := Round(q, beam, g, b, peer);
            var (u, n) := PushEach(q, beam, unvisited[1..], nearest, Unseen(g(peer).0, b.seen));
            && Shown(q, b', u, n) && b'.seen == b.seen + Elems(Unseen(g(peer).0, b.seen))
            && (if g(peer).1 then target == (b', true) else Running(q, beam, g, U, pre, target, b', u, n))
  {
    ShownRoot(q, b, unvisited, nearest);
    var peer := unvisited[0];
    var unseen := Unseen(g(peer).0, b.seen);
    RoundInv(q, beam, g, U, pre, b, peer);
    UnseenDistinct(g(peer).0, b.seen);
    PushAllGrows(q, beam, b.(unvisited := b.unvisited - {peer}), unseen);
    PushEachShown(q, beam, pre, b.(unvisited := b.unvisited - {peer}), unvisited[1..], nearest, unseen);
  }

  lemma ShownRoot(q: Id, b: Beam, unvisited: seq<Id>, nearest: seq<Id>)
    requires Shown(q, b, unvisited, nearest) && unvisited != []
             && Xor(q, unvisited[0]) <= Xor(q, nearest[|nearest| - 1])
    ensures Continues(q, b) && unvisited[0] == Root(q, b.unvisited) && unvisited[0] in b.unvisited
    ensures Shown(q, b.(unvisited := b.unvisited - {unvisited[0]}), unvisited[1..], nearest)
  {
    RankedSorts(q, b.unvisited);
    RankedSorts(q, b.nearest);
    PopRanked(q, b.unvisited);
    RootIsClosest(q, b.unvisited);
  }

  lemma RunningStops(q: Id, beam: nat, g: Oracle, U: set<Id>, pre: set<Id>, target: (Beam, bool), b: Beam,
                     unvisited: seq<Id>, nearest: seq<Id>)
    requires Closed(g, U) && Running(q, beam, g, U, pre, target, b, unvisited, nearest)
    requires unvisited == [] || Xor(q, unvisited[0]) > Xor(q, nearest[|nearest| - 1])
    ensures target == (b, false)
  {
    RankedSorts(q, b.unvisited);
    RankedSorts(q, b.nearest);
  }

  /** What holds between two rounds, whatever the answers: the beam is the first of everything found,
      and each of its nodes is still to be visited or has had its whole answer seen. */
  ghost predicate Going(q: Id, beam: nat, g: Oracle, U: set<Id>, pre: set<Id>, found: seq<Id>, visited: set<Id>,
                        unvisited: seq<Id>, nearest: seq<Id>)
  {
    && visited == pre + Elems(found) <= U
    && nearest != [] && nearest == Take(SortByDistance(q, found), beam)
    && InOrder(q, unvisited) && (forall x :: x in unvisited ==> x in found)
    && forall x :: x in nearest ==> x in unvisited || Elems(g(x).0) <= visited
  }

  lemma GoingStarts(q: Id, beam: nat, g: Oracle, U: set<Id>, pre: set<Id>, initial: seq<Id>)
    requires beam >= 1 && Elems(initial) + pre <= U && Unseen(initial, pre) != []
    ensures var unvisited := SortByDistance(q, Unseen(initial, pre));
            Going(q, beam, g, U, pre, Unseen(initial, pre), pre + Elems(initial), unvisited, Take(unvisited, beam))
  {
    var starting := Unseen(initial, pre);
    SortMembers(q, starting);
    SortLength(q, starting);
    assert pre + Elems(starting) == pre + Elems(initial);
  }

  lemma GoingRound(q: Id, beam: nat, g: Oracle, U: set<Id>, pre: set<Id>, found: seq<Id>, visited: set<Id>,
                   unvisited: seq<Id>, nearest: seq<Id>)
    requires Within(g, U) && Going(q, beam, g, U, pre, found, visited, unvisited, nearest) && unvisited != []
    ensures var unseen := Unseen(g(unvisited[0]).0, visited);
            var (u, n) := PushEach(q, beam, unvisited[1..], nearest, unseen);
            Going(q, beam, g, U, pre, found + unseen, visited + Elems(unseen), u, n)
  {
    var peer := unvisited[0];
    assert peer in Elems(found);
    var unseen := Unseen(g(peer).0, visited);
    PushEachNearest(q, beam, unvisited[1..], nearest, found, unseen);
    PushEachGrows(q, beam, unvisited[1..], nearest, unseen);
    ElemsAppend(found, unseen);
    assert Elems(g(peer).0) <= visited + Elems(unseen);
    assert Elems(unseen) <= U;
  }

  lemma RoundShrinks(U: set<Id>, visited: set<Id>, unseen: seq<Id>)
    requires forall x :: x in unseen ==> x in U && x !in visited
    ensures U - (visited + Elems(unseen)) < U - visited || (unseen == [] && visited + Elems(unseen) == visited)
  {
    if unseen != [] {
      assert unseen[0] in U - visited && unseen[0] in Elems(unseen);
    }
  }

  /** How the loop follows the search on sets. */
  ghost predicate Tracks(q: Id, beam: nat, g: Oracle, U: set<Id>, pre: set<Id>, target: (Beam, bool), b: Beam,
                         visited: set<Id>, unvisited: seq<Id>, nearest: seq<Id>, interrupted: bool)
    requires Closed(g, U)
  {
    && visited == b.seen && nearest == Ranked(q, b.nearest)
    && if interrupted then target == (b, true) else Running(q, beam, g, U, pre, target, b, unvisited, nearest)
  }

  lemma TracksRound(q: Id, beam: nat, g: Oracle, U: set<Id>, pre: set<Id>, target: (Beam, bool), b: Beam,
                    visited: set<Id>, unvisited: seq<Id>, nearest: seq<Id>)
    requires Closed(g, U) && Tracks(q, beam, g, U, pre, target, b, visited, unvisited, nearest, false)
    requires unvisited != [] && nearest != [] && Xor(q, unvisited[0]) <= Xor(q, nearest[|nearest| - 1])
    ensures var peer := unvisited[0];
            var unseen := Unseen(g(peer).0, visited);
            var (u, n) := PushEach(q, beam, unvisited[1..], nearest, unseen);
            Tracks(q, beam, g, U, pre, target, Round(q, beam, g, b, peer), visited + Elems(unseen), u, n, g(peer).1)
  {
    RunningRound(q, beam, g, U, pre, target, b, unvisited, nearest);
  }

  /** What was returned is the search on sets: the nearest of all nodes seen outside `pre`. */
  ghost predicate IsSimple(q: Id, beam: nat, g: Oracle, U: set<Id>, initial: set<Id>, pre: set<Id>,
                           result: seq<Id>, visited: set<Id>, interrupted: bool)
    requires beam >= 1 && Closed(g, U) && initial + pre <= U
  {
    var (b, stopped) := SimpleResult(q, beam, g, U, initial, pre);
    && result == Ranked(q, b.nearest) == Take(Ranked(q, visited - pre), beam)
    && visited == b.seen && interrupted == stopped
  }

  lemma TracksEnd(q: Id, beam: nat, g: Oracle, U: set<Id>, pre: set<Id>, initial: set<Id>, b: Beam,
                  visited: set<Id>, unvisited: seq<Id>, nearest: seq<Id>, interrupted: bool)
    requires beam >= 1 && Closed(g, U) && initial + pre <= U && nearest != []
    requires Tracks(q, beam, g, U, pre, SimpleResult(q, beam, g, U, initial, pre), b, visited, unvisited, nearest,
                    interrupted)
    requires !interrupted ==> unvisited == [] || Xor(q, unvisited[0]) > Xor(q, nearest[|nearest| - 1])
    ensures IsSimple(q, beam, g, U, initial, pre, nearest, visited, interrupted)
  {
    ResultMeaning(q, beam, g, U, initial, pre);
    if !interrupted {
      RunningStops(q, beam, g, U, pre, SimpleResult(q, beam, g, U, initial, pre), b, unvisited, nearest);
    }
  }

  /** When the nearest unvisited node is out of reach, the whole beam has been visited. */
  lemma GoingStops(q: Id, beam: nat, g: Oracle, U: set<Id>, pre: set<Id>, found: seq<Id>, visited: set<Id>,
                   unvisited: seq<Id>, nearest: seq<Id>)
    requires Going(q, beam, g, U, pre, found, visited, unvisited, nearest)
    requires unvisited == [] || Xor(q, unvisited[0]) > Xor(q, nearest[|nearest| - 1])
    ensures forall x :: x in nearest ==> Elems(g(x).0) <= visited
  {
    SortMembers(q, found);
    forall x | x in nearest
      ensures x !in unvisited
    {
      var i :| 0 <= i < |nearest| && nearest[i] == x;
      assert Xor(q, x) <= Xor(q, nearest[|nearest| - 1]);
    }
  }

  lemma TopOfRanked(q: Id, S: set<Id>, beam: nat)
    requires beam >= 1 && S != {}
    ensures var top := Take(Ranked(q, S), beam);
            top != [] && Elems(top) != {} && top == Ranked(q, Elems(top))
  {
    RankedSorts(q, S);
    var top := Take(Ranked(q, S), beam);
    RankedUnique(q, top);
    assert top[0] in Elems(top);
  }

  lemma SeedShown(q: Id, beam: nat, initial: seq<Id>, pre: set<Id>)
    requires beam >= 1 && Distinct(initial) && Unseen(initial, pre) != []
    ensures var unvisited := SortByDistance(q, Unseen(initial, pre));
            Shown(q, Seed(q, beam, Elems(initial), pre), unvisited, Take(unvisited, beam))
  {
    var starting := Unseen(initial, pre);
    UnseenDistinct(initial, pre);
    assert Elems(starting) == Elems(initial) - pre;
    assert starting[0] in Elems(starting);
    SortIsRanked(q, starting);
    TopOfRanked(q, Elems(starting), beam);
  }

  lemma SeedRuns(q: Id, beam: nat, g: Oracle, U: set<Id>, initial: seq<Id>, pre: set<Id>)
    requires beam >= 1 && Distinct(initial) && Closed(g, U) && Elems(initial) + pre <= U && Unseen(initial, pre) != []
    ensures var unvisited := SortByDistance(q, Unseen(initial, pre));
            Tracks(q, beam, g, U, pre, SimpleResult(q, beam, g, U, Elems(initial), pre),
                   Seed(q, beam, Elems(initial), pre),
                   pre + Elems(initial), unvisited, Take(unvisited, beam), false)
  {
    SeedInv(q, beam, g, Elems(initial), pre);
    SeedShown(q, beam, initial, pre);
  }

  lemma SeedEmpty(q: Id, beam: nat, g: Oracle, U: set<Id>, initial: seq<Id>, pre: set<Id>)
    requires beam >= 1 && Closed(g, U) && Elems(initial) + pre <= U && Unseen(initial, pre) == []
    ensures IsSimple(q, beam, g, U, Elems(initial), pre, [], pre, false)
  {
    SeedInv(q, beam, g, Elems(initial), pre);
    forall x | x in initial
      ensures x in pre
    {
      assert x in pre || x in Unseen(initial, pre);
    }
    assert Elems(initial) - pre == {};
    assert pre + Elems(initial) == pre;
    RankedSorts(q, {});
    assert Seed(q, beam, Elems(initial), pre).nearest == {};
    ResultMeaning(q, beam, g, U, Elems(initial), pre);
  }

  /** The state of the loop. `b` follows the search on sets, if nothing is named twice. */
  ghost predicate Looping(q: Id, beam: nat, g: Oracle, U: set<Id>, pre: set<Id>, initial: seq<Id>, asked: seq<Id>,
                          b: Beam, visited: set<Id>, unvisited: seq<Id>, nearest: seq<Id>, interrupted: bool)
    requires beam >= 1 && Elems(initial) + pre <= U
  {
    && Going(q, beam, g, U, pre, Found(g, pre, initial, asked), visited, unvisited, nearest)
    && (forall x :: x in asked ==> x !in pre)
    && (Distinct(initial) && Closed(g, U) ==>
          var target := SimpleResult(q, beam, g, U, Elems(initial), pre);
          Tracks(q, beam, g, U, pre, target, b, visited, unvisited, nearest, interrupted))
  }

  lemma LoopStarts(q: Id, beam: nat, g: Oracle, U: set<Id>, pre: set<Id>, initial: seq<Id>)
    requires beam >= 1 && Elems(initial) + pre <= U && Unseen(initial, pre) != []
    ensures var unvisited := SortByDistance(q, Unseen(initial, pre));
            Looping(q, beam, g, U, pre, initial, [], Seed(q, beam, Elems(initial), pre), pre + Elems(initial),
                    unvisited, Take(unvisited, beam), false)
  {
    GoingStarts(q, beam, g, U, pre, initial);
    if Distinct(initial) && Closed(g, U) {
      SeedRuns(q, beam, g, U, initial, pre);
    }
  }

  lemma LoopRound(q: Id, beam: nat, g: Oracle, U: set<Id>, pre: set<Id>, initial: seq<Id>, asked: seq<Id>, b: Beam,
                  visited: set<Id>, unvisited: seq<Id>, nearest: seq<Id>)
    requires beam >= 1 && Within(g, U) && Elems(initial) + pre <= U
    requires Looping(q, beam, g, U, pre, initial, asked, b, visited, unvisited, nearest, false)
    requires unvisited != [] && Xor(q, unvisited[0]) <= Xor(q, nearest[|nearest| - 1])
    ensures var peer := unvisited[0];
            var unseen := Unseen(g(peer).0, visited);
            var (u, n) := PushEach(q, beam, unvisited[1..], nearest, unseen);
            && Looping(q, beam, g, U, pre, initial, asked + [peer], Round(q, beam, g, b, peer),
                       visited + Elems(unseen), u, n, g(peer).1)
            && (U - (visited + Elems(unseen)) < U - visited || (unseen == [] && visited + Elems(unseen) == visited))
  {
    var peer := unvisited[0];
    GoingRound(q, beam, g, U, pre, Found(g, pre, initial, asked), visited, unvisited, nearest);
    assert peer in Elems(Found(g, pre, initial, asked));
    assert forall x :: x in g(peer).0 ==> x in Elems(g(peer).0);
    RoundShrinks(U, visited, Unseen(g(peer).0, visited));
    FoundMore(g, pre, initial, asked, peer);
    FoundOutside(g, pre, initial, asked);
    if Distinct(initial) && Closed(g, U) {
      TracksRound(q, beam, g, U, pre, SimpleResult(q, beam, g, U, Elems(initial), pre), b, visited, unvisited, nearest);
    }
  }

  lemma LoopEnds(q: Id, beam: nat, g: Oracle, U: set<Id>, pre: set<Id>, initial: seq<Id>, asked: seq<Id>, b: Beam,
                 visited: set<Id>, unvisited: seq<Id>, nearest: seq<Id>, interrupted: bool)
    requires beam >= 1 && Elems(initial) + pre <= U && nearest != []
    requires Looping(q, beam, g, U, pre, initial, asked, b, visited, unvisited, nearest, interrupted)
    requires interrupted || unvisited == [] || Xor(q, unvisited[0]) > Xor(q, nearest[|nearest| - 1])
    ensures visited == pre + Elems(Found(g, pre, initial, asked))
    ensures nearest == Take(SortByDistance(q, Found(g, pre, initial, asked)), beam)
    ensures !interrupted ==> forall x :: x in nearest ==> Elems(g(x).0) <= visited
    ensures forall x :: x in asked || x in nearest ==> x !in pre
    ensures Distinct(initial) && Closed(g, U) ==>
              IsSimple(q, beam, g, U, Elems(initial), pre, nearest, visited, interrupted)
  {
    FoundOutside(g, pre, initial, asked);
    SortMembers(q, Found(g, pre, initial, asked));
    if !interrupted {
      GoingStops(q, beam, g, U, pre, Found(g, pre, initial, asked), visited, unvisited, nearest);
    }
    if Distinct(initial) && Closed(g, U) {
      TracksEnd(q, beam, g, U, pre, Elems(initial), b, visited, unvisited, nearest, interrupted);
    }
  }

  /** `simple_traverse_dht`. The universe `U` only bounds the nodes that answers may name. The result
      is the first `beam` of everything found, in order of distance; unless interrupted, all neighbours
      of its nodes have been seen. Excluded nodes are neither asked nor returned. If nothing is named
      twice, the result is the nearest of all nodes seen. */
  method SimpleTraverse(q: Id, initial: seq<Id>, beam: nat, g: Oracle, pre: set<Id>, ghost U: set<Id>)
    returns (result: seq<Id>, visited: set<Id>, interrupted: bool, ghost asked: seq<Id>)
    requires beam >= 1 && Within(g, U) && Elems(initial) + pre <= U
    ensures visited == pre + Elems(Found(g, pre, initial, asked))
    ensures result == Take(SortByDistance(q, Found(g, pre, initial, asked)), beam)
    ensures !interrupted ==> forall x :: x in result ==> Elems(g(x).0) <= visited
    ensures forall x :: x in asked || x in result ==> x !in pre
    ensures Distinct(initial) && Closed(g, U) ==>
              IsSimple(q, beam, g, U, Elems(initial), pre, result, visited, interrupted)
  {
    asked := [];
    var starting := Unseen(initial, pre);
    if starting == [] {
      if Distinct(initial) && Closed(g, U) {
        SeedEmpty(q, beam, g, U, initial, pre);
      }
      return [], pre, false, [];
    }
    var unvisited := SortByDistance(q, starting);
    var nearest := Take(unvisited, beam);
    ghost var b := Seed(q, beam, Elems(initial), pre);
    LoopStarts(q, beam, g, U, pre, initial);
    visited := pre + set x | x in initial;
    interrupted := false;
    while !interrupted && unvisited != [] && Xor(q, unvisited[0]) <= Xor(q, nearest[|nearest| - 1])
      invariant nearest != []
      invariant Looping(q, beam, g, U, pre, initial, asked, b, visited, unvisited, nearest, interrupted)
      decreases !interrupted, U - visited, |unvisited|
    {
      LoopRound(q, beam, g, U, pre, initial, asked, b, visited, unvisited, nearest);
      var peer := unvisited[0];
      var (neighbors, stop) := g(peer);
      var unseen := Unseen(neighbors, visited);
      asked, b := asked + [peer], Round(q, beam, g, b, peer);
      visited := visited + set x | x in unseen;
      unvisited, nearest := MergeUnseen(q, beam, unvisited[1..], nearest, unseen);
      interrupted := stop;
    }
    LoopEnds(q, beam, g, U, pre, initial, asked, b, visited, unvisited, nearest, interrupted);
    result := nearest;
  }
}
