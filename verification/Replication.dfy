/**
 The replication loop of `DHTNode.store_many` (`on_found`): dispatch store calls to the nearest
 candidates, at most num_replicas successes and pending calls at a time, until enough calls have
 succeeded or the candidates run out. Calls may complete in any order and any number at a time.
 */
module Replication {
  import opened Collections
  import opened XorMetric
  import opened Ranking

  /** How many of the nodes respond. */
  function Responsive(s: seq<Id>, responds: Id -> bool): nat {
    if s == [] then 0 else Responsive(s[..|s| - 1], responds) + (if responds(s[|s| - 1]) then 1 else 0)
  }

  function Responders(s: seq<Id>, responds: Id -> bool): (r: seq<Id>)
    ensures forall x :: x in r <==> x in s && responds(x)
  {
    if s == [] then [] else (if responds(s[0]) then [s[0]] else []) + Responders(s[1..], responds)
  }

  /** The shortest prefix with `want` responsive nodes, or everything if there are fewer. */
  function Needed(s: seq<Id>, responds: Id -> bool, want: nat): (r: seq<Id>)
    ensures r <= s
  {
    if want == 0 || s == [] then []
    else [s[0]] + Needed(s[1..], responds, if responds(s[0]) then want - 1 else want)
  }

  /** The responsive nodes among the needed ones are the first `want` responsive nodes. */
  lemma {:induction false} NeededResponders(s: seq<Id>, responds: Id -> bool, want: nat)
    ensures Responders(Needed(s, responds, want), responds) == Take(Responders(s, responds), want)
    decreases s
  {
    if want == 0 || s == [] {
    } else {
      NeededResponders(s[1..], responds, if responds(s[0]) then want - 1 else want);
      var n := Needed(s, responds, want);
      assert n[1..] == Needed(s[1..], responds, if responds(s[0]) then want - 1 else want);
      var rest := Responders(s[1..], responds);
      if responds(s[0]) {
        assert Take([s[0]] + rest, want) == [s[0]] + Take(rest, want - 1);
      } else {
        assert [] + rest == rest;
      }
    }
  }

  lemma {:induction false} ResponsiveSplit(s: seq<Id>, t: seq<Id>, responds: Id -> bool)
    ensures Responsive(s + t, responds) == Responsive(s, responds) + Responsive(t, responds)
    decreases t
  {
    if t == [] {
      assert s + t == s;
    } else {
      ResponsiveSplit(s, t[..|t| - 1], responds);
      assert (s + t)[..|s + t| - 1] == s + t[..|t| - 1];
    }
  }

  lemma {:induction false} ResponsiveCons(s: seq<Id>, responds: Id -> bool)
    requires s != []
    ensures Responsive(s, responds) == (if responds(s[0]) then 1 else 0) + Responsive(s[1..], responds)
  {
    ResponsiveSplit([s[0]], s[1..], responds);
    assert s == [s[0]] + s[1..];
    assert Responsive([s[0]], responds) == Responsive([], responds) + (if responds(s[0]) then 1 else 0);
  }

  lemma PrefixTail(s: seq<Id>, responds: Id -> bool, j: nat)
    requires j < |s|
    ensures Responsive(s[..j + 1], responds) == (if responds(s[0]) then 1 else 0) + Responsive(s[1..][..j], responds)
  {
    assert s[..j + 1][1..] == s[1..][..j];
    ResponsiveCons(s[..j + 1], responds);
  }

  /** A prefix each of whose proper prefixes had too few responsive nodes, and which has enough
      or is everything, is the needed prefix. */
  lemma {:induction false} PrefixIsNeeded(s: seq<Id>, responds: Id -> bool, want: nat, n: nat)
    requires n <= |s|
    requires forall j :: 0 <= j < n ==> Responsive(s[..j], responds) < want
    requires Responsive(s[..n], responds) == want || (n == |s| && Responsive(s[..n], responds) <= want)
    ensures s[..n] == Needed(s, responds, want)
    decreases s
  {
    if n == 0 {
      assert s[..0] == [];
    } else {
      assert Responsive(s[..0], responds) < want;
      var t := s[1..];
      var want' := if responds(s[0]) then want - 1 else want;
      forall j | 0 <= j < n - 1
        ensures Responsive(t[..j], responds) < want'
      {
        PrefixTail(s, responds, j);
        assert Responsive(s[..j + 1], responds) < want;
      }
      PrefixTail(s, responds, n - 1);
      PrefixIsNeeded(t, responds, want', n - 1);
      assert s[..n] == [s[0]] + t[..n - 1];
    }
  }

  /** `pending` of the contacted nodes have not answered; `stored` are the responsive ones among
      those that have; together they never exceed the number of replicas. */
  ghost predicate Settling(contacted: set<Id>, responds: Id -> bool, replicas: nat, pending: set<Id>, stored: set<Id>) {
    && pending <= contacted && stored <= contacted && pending !! stored
    && (forall x :: x in contacted && responds(x) ==> x in pending || x in stored)
    && (forall x :: x in stored ==> responds(x))
    && |stored| + |pending| <= replicas
  }

  /** Invariant of the loop: nodes have been dispatched in order, each while there were too few
      responsive ones before it. */
  ghost predicate Progress(ranked: seq<Id>, responds: Id -> bool, replicas: nat,
                           queue: seq<Id>, contacted: seq<Id>, pending: set<Id>, stored: set<Id>)
  {
    && contacted + queue == ranked
    && (forall j :: 0 <= j < |contacted| ==> Responsive(contacted[..j], responds) < replicas)
    && Settling(Elems(contacted), responds, replicas, pending, stored)
  }

  lemma {:induction false} CountResponsive(s: seq<Id>, responds: Id -> bool, T: set<Id>)
    requires Distinct(s) && forall x :: x in T <==> x in s && responds(x)
    ensures Responsive(s, responds) == |T|
    decreases s
  {
    if s == [] {
      assert T == {};
    } else {
      var last := s[|s| - 1];
      assert s == s[..|s| - 1] + [last];
      assert last !in s[..|s| - 1];
      CountResponsive(s[..|s| - 1], responds, T - {last});
      if responds(last) {
        assert T == (T - {last}) + {last};
      } else {
        assert T == T - {last};
      }
    }
  }

  /** No more responsive nodes have been contacted than are stored or pending. */
  lemma ResponsiveBound(ranked: seq<Id>, responds: Id -> bool, replicas: nat,
                        queue: seq<Id>, contacted: seq<Id>, pending: set<Id>, stored: set<Id>)
    requires Distinct(ranked) && Progress(ranked, responds, replicas, queue, contacted, pending, stored)
    ensures Responsive(contacted, responds) <= |stored| + |pending|
    ensures pending == {} ==> Responsive(contacted, responds) == |stored|
  {
    var P := set x | x in pending && responds(x);
    assert forall i :: 0 <= i < |contacted| ==> contacted[i] == ranked[i];
    assert forall x :: x in Elems(contacted) <==> x in contacted;
    CountResponsive(contacted, responds, stored + P);
    SubsetSameSize(P, pending);
    assert |stored + P| == |stored| + |P|;
  }

  /** Storing on the node itself always counts as a success. */
  function Succeeds(self: Id, responds: Id -> bool): Id -> bool {
    (x: Id) => x == self || responds(x)
  }

  lemma ContactedIsNeeded(ranked: seq<Id>, responds: Id -> bool, replicas: nat, queue: seq<Id>, contacted: seq<Id>)
    requires contacted + queue == ranked
    requires forall j :: 0 <= j < |contacted| ==> Responsive(contacted[..j], responds) < replicas
    requires Responsive(contacted, responds) == replicas || (queue == [] && Responsive(contacted, responds) <= replicas)
    ensures contacted == Needed(ranked, responds, replicas)
  {
    assert ranked[..|contacted|] == contacted;
    forall j | 0 <= j < |contacted|
      ensures Responsive(ranked[..j], responds) < replicas
    {
      assert ranked[..j] == contacted[..j];
    }
    PrefixIsNeeded(ranked, responds, replicas, |contacted|);
  }

  lemma SettledStored(contacted: seq<Id>, responds: Id -> bool, replicas: nat, stored: set<Id>)
    requires Settling(Elems(contacted), responds, replicas, {}, stored)
    ensures stored == Elems(Responders(contacted, responds))
  {
  }

  lemma ReplicationEnds(ranked: seq<Id>, responds: Id -> bool, replicas: nat,
                        queue: seq<Id>, contacted: seq<Id>, pending: set<Id>, stored: set<Id>)
    requires Distinct(ranked) && Progress(ranked, responds, replicas, queue, contacted, pending, stored)
    requires |stored| >= replicas || (queue == [] && pending == {})
    ensures pending == {}
    ensures contacted == Needed(ranked, responds, replicas)
    ensures stored == Elems(Take(Responders(ranked, responds), replicas))
  {
    assert |pending| == 0;
    ResponsiveBound(ranked, responds, replicas, queue, contacted, pending, stored);
    ContactedIsNeeded(ranked, responds, replicas, queue, contacted);
    SettledStored(contacted, responds, replicas, stored);
    NeededResponders(ranked, responds, replicas);
  }

  lemma Dispatch(ranked: seq<Id>, responds: Id -> bool, replicas: nat,
                 queue: seq<Id>, contacted: seq<Id>, pending: set<Id>, stored: set<Id>, local: bool)
    requires Distinct(ranked) && Progress(ranked, responds, replicas, queue, contacted, pending, stored)
    requires queue != [] && |stored| + |pending| < replicas && (local ==> responds(queue[0]))
    ensures Progress(ranked, responds, replicas, queue[1..], contacted + [queue[0]],
                     if local then pending else pending + {queue[0]}, if local then stored + {queue[0]} else stored)
    ensures queue[0] !in contacted
  {
    var node, contacted' := queue[0], contacted + [queue[0]];
    assert contacted' + queue[1..] == contacted + queue;
    assert node !in contacted by {
      forall i | 0 <= i < |contacted|
        ensures contacted[i] != node
      {
        assert ranked[i] == contacted[i] && ranked[|contacted|] == node;
      }
    }
    ElemsAppend(contacted, [node]);
    ResponsiveBound(ranked, responds, replicas, queue, contacted, pending, stored);
    forall j | 0 <= j < |contacted'|
      ensures Responsive(contacted'[..j], responds) < replicas
    {
      assert contacted'[..j] == contacted[..j];
      assert contacted[..|contacted|] == contacted;
    }
  }

  /** A completed call leaves `pending`, for `stored` if it succeeded. */
  lemma Tally(contacted: set<Id>, responds: Id -> bool, replicas: nat, pending: set<Id>, stored: set<Id>, x: Id)
    requires Settling(contacted, responds, replicas, pending, stored) && x in pending
    ensures Settling(contacted, responds, replicas, pending - {x}, if responds(x) then stored + {x} else stored)
    ensures |pending - {x}| == |pending| - 1 && x !in stored
  {
  }

  /** Tally the completed calls one by one. */
  method Complete(ghost contacted: set<Id>, ghost replicas: nat, pending0: set<Id>, stored0: set<Id>,
                  self: Id, responds: Id -> bool, finished: set<Id>)
    returns (pending: set<Id>, stored: set<Id>, successes: nat)
    requires Settling(contacted, Succeeds(self, responds), replicas, pending0, stored0)
    requires self !in pending0
    requires finished <= pending0 && finished != {}
    ensures Settling(contacted, Succeeds(self, responds), replicas, pending, stored)
    ensures successes == |stored| && pending <= pending0 && |pending| < |pending0|
  {
    pending, stored, successes := pending0, stored0, |stored0|;
    var left := finished;
    while left != {}
      invariant left <= pending <= pending0
      invariant |pending| < |pending0| || (pending == pending0 && left == finished)
      invariant Settling(contacted, Succeeds(self, responds), replicas, pending, stored)
      invariant successes == |stored|
      decreases left
    {
      var x :| x in left;
      Tally(contacted, Succeeds(self, responds), replicas, pending, stored, x);
      left, pending := left - {x}, pending - {x};
      if responds(x) {
        successes, stored := successes + 1, stored + {x};
      }
    }
  }

  /** The loop over the candidates, nearest first. The chosen subsets of `pending` are whatever
      `asyncio.wait` reports as completed. */
  method Replicate(ranked: seq<Id>, self: Id, replicas: nat, responds: Id -> bool)
    returns (stored: set<Id>, contacted: seq<Id>, pending: set<Id>, successes: nat)
    requires Distinct(ranked)
    ensures pending == {}
    ensures contacted == Needed(ranked, Succeeds(self, responds), replicas)
    ensures stored == Elems(Take(Responders(ranked, Succeeds(self, responds)), replicas))
    ensures successes == |stored|
  {
    ghost var ok := Succeeds(self, responds);
    var queue := ranked;
    stored, contacted, pending, successes := {}, [], {}, 0;
    while successes < replicas && (queue != [] || pending != {})
      invariant Progress(ranked, ok, replicas, queue, contacted, pending, stored)
      invariant successes == |stored| && self !in pending
      decreases 2 * |queue| + |pending|
    {
      ghost var size := 2 * |queue| + |pending|;
      while queue != [] && successes + |pending| < replicas
        invariant Progress(ranked, ok, replicas, queue, contacted, pending, stored)
        invariant successes == |stored| && self !in pending
        invariant 2 * |queue| + |pending| < size || (2 * |queue| + |pending| == size
                                                     && (pending != {} || (queue != [] && successes < replicas)))
        decreases |queue|
      {
        var node := queue[0];
        Dispatch(ranked, ok, replicas, queue, contacted, pending, stored, node == self);
        contacted, queue := contacted + [node], queue[1..];
        if node == self {
          successes, stored := successes + 1, stored + {node};
        } else {
          pending := pending + {node};
        }
      }
      if pending != {} {
        var finished :| finished <= pending && finished != {};
        pending, stored, successes := Complete(Elems(contacted), replicas, pending, stored, self, responds, finished);
      }
    }
    ReplicationEnds(ranked, ok, replicas, queue, contacted, pending, stored);
  }

  /** `on_found`. `responds(x)` says whether the store call to x returns a result. */
  method StoreReplicas(key: Id, nearest: seq<Id>, self: Id, excludeSelf: bool, replicas: nat, responds: Id -> bool)
    returns (stored: set<Id>, contacted: seq<Id>, pending: set<Id>, successes: nat)
    requires Distinct(nearest) && self !in nearest
    ensures pending == {}
    ensures var all := Ranked(key, Elems(nearest) + (if excludeSelf then {} else {self}));
            var ok := Succeeds(self, responds);
            && contacted == Needed(all, ok, replicas)
            && stored == Elems(Take(Responders(all, ok), replicas))
            && successes == |stored|
  {
    var nodes := nearest + if excludeSelf then [] else [self];
    assert Distinct(nodes) by {
      assert forall i :: 0 <= i < |nearest| ==> nearest[i] in nearest;
    }
    ElemsAppend(nearest, if excludeSelf then [] else [self]);
    assert Elems(if excludeSelf then [] else [self]) == if excludeSelf then {} else {self};
    SortIsRanked(key, nodes);
    RankedDistinct(key, Elems(nodes));
    stored, contacted, pending, successes := Replicate(SortByDistance(key, nodes), self, replicas, responds);
  }
}
