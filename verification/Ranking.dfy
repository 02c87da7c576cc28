/**
 Ranking ids by XOR distance to a query: the brute-force reference that the routing
 table's tree climb, the beam searches and the replication loop are all compared with.
 */
module Ranking {
  import opened Collections
  import opened XorMetric

  ghost function Elems(s: seq<Id>): set<Id> {
    set x | x in s
  }

  predicate Nearer(q: Id, x: Id, y: Id) {
    Xor(q, x) < Xor(q, y)
  }

  /** Strictly nearest first. */
  ghost predicate NearestFirst(q: Id, s: seq<Id>) {
    forall i, j :: 0 <= i < j < |s| ==> Nearer(q, s[i], s[j])
  }

  function Take<T>(s: seq<T>, k: nat): (r: seq<T>)
    ensures r <= s && |r| == if k <= |s| then k else |s|
  {
    if k <= |s| then s[..k] else s
  }

  /** The members of `s` other than `e`, in the same order. */
  function Without(s: seq<Id>, e: Id): (r: seq<Id>)
    ensures forall x :: x in r <==> x in s && x != e
  {
    if s == [] then []
    else if s[0] == e then Without(s[1..], e)
    else [s[0]] + Without(s[1..], e)
  }

  ghost predicate IsClosest(q: Id, S: set<Id>, m: Id) {
    m in S && forall x :: x in S && x != m ==> Nearer(q, m, x)
  }

  lemma {:induction false} ClosestExists(q: Id, S: set<Id>)
    requires S != {}
    ensures exists m :: IsClosest(q, S, m)
  {
    var x :| x in S;
    if S == {x} {
      assert IsClosest(q, S, x);
    } else {
      var R := S - {x};
      assert S == R + {x};
      ClosestExists(q, R);
      var m :| IsClosest(q, R, m);
      if Nearer(q, x, m) {
        assert IsClosest(q, S, x);
      } else {
        if Xor(q, x) == Xor(q, m) {
          XorInjective(q, x, m);
        }
        assert IsClosest(q, S, m);
      }
    }
  }

  /** All of `S`, nearest to the query first. */
  ghost function Ranked(q: Id, S: set<Id>): seq<Id> {
    if S == {} then []
    else
      ClosestExists(q, S);
      var m :| IsClosest(q, S, m);
      [m] + Ranked(q, S - {m})
  }

  lemma ElemsAppend(s: seq<Id>, t: seq<Id>)
    ensures Elems(s + t) == Elems(s) + Elems(t)
  {
  }

  lemma AppendSorted(q: Id, s: seq<Id>, t: seq<Id>)
    requires NearestFirst(q, s) && NearestFirst(q, t)
    requires forall x, y :: x in Elems(s) && y in Elems(t) ==> Nearer(q, x, y)
    ensures NearestFirst(q, s + t)
  {
    forall i, j | 0 <= i < j < |s + t|
      ensures Nearer(q, (s + t)[i], (s + t)[j])
    {
      if i < |s| <= j {
        assert s[i] in Elems(s) && t[j - |s|] in Elems(t);
      }
    }
  }

  lemma {:induction false} RankedSorts(q: Id, S: set<Id>)
    ensures Elems(Ranked(q, S)) == S
    ensures NearestFirst(q, Ranked(q, S))
    ensures |Ranked(q, S)| == |S|
  {
    if S != {} {
      var r := Ranked(q, S);
      var m := r[0];
      assert IsClosest(q, S, m) && r == [m] + Ranked(q, S - {m}) by {
        ClosestExists(q, S);
      }
      var t := Ranked(q, S - {m});
      RankedSorts(q, S - {m});
      assert NearestFirst(q, [m] + t) by {
        assert Elems([m]) == {m};
        AppendSorted(q, [m], t);
      }
      ElemsAppend([m], t);
    }
  }

  /** A nearest-first list is the ranking of its own members: rankings are unique. */
  lemma {:induction false} RankedUnique(q: Id, s: seq<Id>)
    requires NearestFirst(q, s)
    ensures s == Ranked(q, Elems(s))
    ensures |Elems(s)| == |s|
  {
    if s == [] {
      assert Elems(s) == {};
    } else {
      var S := Elems(s);
      assert s[0] in S;
      forall x | x in S && x != s[0]
        ensures Nearer(q, s[0], x)
      {
        var i :| 0 <= i < |s| && s[i] == x;
      }
      assert IsClosest(q, S, s[0]);
      var r := Ranked(q, S);
      assert IsClosest(q, S, r[0]) && r == [r[0]] + Ranked(q, S - {r[0]}) by {
        ClosestExists(q, S);
      }
      assert r[0] == s[0];
      RankedUnique(q, s[1..]);
      assert s[0] !in Elems(s[1..]) by {
        forall i | 0 <= i < |s[1..]|
          ensures s[1..][i] != s[0]
        {
          assert Nearer(q, s[0], s[i + 1]);
        }
      }
      assert Elems(s[1..]) == S - {s[0]};
      assert S == Elems(s[1..]) + {s[0]};
    }
  }

  /** If all of T is nearer than the rest of S, the ranking of S starts with the ranking of T. */
  lemma RankedAppend(q: Id, S: set<Id>, T: set<Id>)
    requires T <= S
    requires forall x, y :: x in T && y in S - T ==> Nearer(q, x, y)
    ensures Ranked(q, S) == Ranked(q, T) + Ranked(q, S - T)
  {
    RankedSorts(q, T);
    RankedSorts(q, S - T);
    var s, t := Ranked(q, T), Ranked(q, S - T);
    AppendSorted(q, s, t);
    ElemsAppend(s, t);
    assert T + (S - T) == S;
    RankedUnique(q, s + t);
  }

  lemma NearerPrefix(q: Id, S: set<Id>, T: set<Id>, k: nat)
    requires T <= S
    requires forall x, y :: x in T && y in S - T ==> Nearer(q, x, y)
    requires k <= |T| || T == S
    ensures Take(Ranked(q, S), k) == Take(Ranked(q, T), k)
  {
    RankedAppend(q, S, T);
    RankedSorts(q, T);
  }

  /** T is the set of the k members of S nearest to q, or all of S if it has fewer. */
  ghost predicate IsNearest(q: Id, S: set<Id>, k: nat, T: set<Id>) {
    && T <= S
    && |T| == (if k <= |S| then k else |S|)
    && forall x, y :: x in T && y in S && y !in T ==> Nearer(q, x, y)
  }

  lemma IsNearestRanks(q: Id, S: set<Id>, k: nat, T: set<Id>)
    requires IsNearest(q, S, k, T)
    ensures Ranked(q, T) == Take(Ranked(q, S), k)
  {
    RankedSorts(q, T);
    RankedSorts(q, S);
    RankedAppend(q, S, T);
    if k > |S| {
      SubsetSameSize(T, S);
    }
  }

  /** The first k of the ranking are the k nearest. */
  lemma PrefixIsNearest(q: Id, S: set<Id>, k: nat)
    ensures IsNearest(q, S, k, Elems(Take(Ranked(q, S), k)))
  {
    RankedSorts(q, S);
    var r := Ranked(q, S);
    var top := Take(r, k);
    var T := Elems(top);
    RankedUnique(q, top);
    assert forall x :: x in T ==> x in Elems(r);
    assert forall i :: 0 <= i < |top| ==> r[i] in T;
    forall x, y | x in T && y in S && y !in T
      ensures Nearer(q, x, y)
    {
      assert x in top && y in Elems(r);
      var i :| 0 <= i < |top| && top[i] == x;
      var j :| 0 <= j < |r| && r[j] == y;
    }
  }

  lemma {:induction false} SubsetSameSize(T: set<Id>, S: set<Id>)
    requires T <= S
    ensures |T| <= |S|
    ensures |T| == |S| ==> T == S
  {
    assert S == T + (S - T);
    assert |S| == |T| + |S - T|;
  }

  lemma {:induction false} WithoutSorted(q: Id, s: seq<Id>, e: Id)
    requires NearestFirst(q, s)
    ensures NearestFirst(q, Without(s, e))
  {
    if s != [] {
      WithoutSorted(q, s[1..], e);
      var r := Without(s[1..], e);
      forall i | 0 <= i < |r|
        ensures Nearer(q, s[0], r[i])
      {
        assert r[i] in s[1..];
        var j :| 0 <= j < |s[1..]| && s[1..][j] == r[i];
        assert Nearer(q, s[0], s[j + 1]);
      }
    }
  }

  lemma RankedWithout(q: Id, S: set<Id>, e: Id)
    ensures Ranked(q, S - {e}) == Without(Ranked(q, S), e)
  {
    RankedSorts(q, S);
    var r := Without(Ranked(q, S), e);
    WithoutSorted(q, Ranked(q, S), e);
    RankedUnique(q, r);
    assert forall x :: x in S <==> x in Ranked(q, S);
    assert Elems(r) == S - {e};
  }

  /** Dropping one id from the first k + 1 still leaves the first k of what remains. */
  lemma {:induction false} TakeWithout(s: seq<Id>, e: Id, k: nat)
    requires Distinct(s)
    ensures Take(Without(Take(s, k + 1), e), k) == Take(Without(s, e), k)
  {
    if s == [] {
    } else if s[0] == e {
      WithoutAbsent(s[1..], e);
      WithoutAbsent(Take(s[1..], k), e);
      assert Take(s, k + 1)[1..] == Take(s[1..], k);
    } else if k > 0 {
      TakeWithout(s[1..], e, k - 1);
      assert Take(s, k + 1)[1..] == Take(s[1..], k);
      TakeCons(s[0], Without(s[1..], e), k);
      TakeCons(s[0], Without(Take(s[1..], k), e), k);
    }
  }

  lemma TakeCons(x: Id, s: seq<Id>, k: nat)
    requires k > 0
    ensures Take([x] + s, k) == [x] + Take(s, k - 1)
  {
  }

  lemma {:induction false} WithoutAbsent(s: seq<Id>, e: Id)
    requires e !in s
    ensures Without(s, e) == s
  {
    if s != [] {
      WithoutAbsent(s[1..], e);
    }
  }

  lemma RankedDistinct(q: Id, S: set<Id>)
    ensures Distinct(Ranked(q, S))
  {
    RankedSorts(q, S);
    var r := Ranked(q, S);
    forall i, j | 0 <= i < j < |r|
      ensures r[i] != r[j]
    {
      assert Nearer(q, r[i], r[j]);
    }
  }

  function InsertByDistance(q: Id, x: Id, s: seq<Id>): seq<Id> {
    if s == [] || Xor(q, x) <= Xor(q, s[0]) then [x] + s
    else [s[0]] + InsertByDistance(q, x, s[1..])
  }

  /** Stable insertion sort by distance to the query: `sorted(ids, key=q.xor_distance)`. */
  function SortByDistance(q: Id, s: seq<Id>): seq<Id> {
    if s == [] then [] else InsertByDistance(q, s[0], SortByDistance(q, s[1..]))
  }

  lemma {:induction false} SortLength(q: Id, s: seq<Id>)
    ensures |SortByDistance(q, s)| == |s|
  {
    if s != [] {
      SortLength(q, s[1..]);
      InsertLength(q, s[0], SortByDistance(q, s[1..]));
    }
  }

  lemma {:induction false} InsertLength(q: Id, x: Id, s: seq<Id>)
    ensures |InsertByDistance(q, x, s)| == |s| + 1
  {
    if s != [] {
      InsertLength(q, x, s[1..]);
    }
  }

  lemma {:induction false} InsertSorts(q: Id, x: Id, s: seq<Id>)
    requires NearestFirst(q, s) && x !in s
    ensures NearestFirst(q, InsertByDistance(q, x, s))
    ensures Elems(InsertByDistance(q, x, s)) == Elems(s) + {x}
  {
    if s == [] {
    } else {
      if Xor(q, x) == Xor(q, s[0]) {
        XorInjective(q, x, s[0]);
      }
      if Xor(q, x) <= Xor(q, s[0]) {
        var r := [x] + s;
        assert forall i :: 1 <= i < |r| ==> r[i] == s[i - 1];
        assert forall i :: 1 <= i < |s| ==> Nearer(q, s[0], s[i]);
      } else {
        InsertSorts(q, x, s[1..]);
        var r := InsertByDistance(q, x, s[1..]);
        forall i | 0 <= i < |r|
          ensures Nearer(q, s[0], r[i])
        {
          assert r[i] in Elems(r);
          if r[i] != x {
            var j :| 0 <= j < |s[1..]| && s[1..][j] == r[i];
            assert Nearer(q, s[0], s[j + 1]);
          }
        }
        assert Elems(s) == Elems(s[1..]) + {s[0]};
        assert Elems([s[0]] + r) == Elems(r) + {s[0]};
      }
    }
  }

  lemma {:induction false} SortIsRanked(q: Id, s: seq<Id>)
    requires Distinct(s)
    ensures SortByDistance(q, s) == Ranked(q, Elems(s))
  {
    if s != [] {
      SortIsRanked(q, s[1..]);
      RankedSorts(q, Elems(s[1..]));
      var t := SortByDistance(q, s[1..]);
      assert s[0] !in Elems(t);
      InsertSorts(q, s[0], t);
      assert Elems(s) == Elems(s[1..]) + {s[0]};
      RankedUnique(q, SortByDistance(q, s));
    }
  }

  // ----- sorting lists that may repeat an id

  /** No farther id before a nearer one. */
  ghost predicate InOrder(q: Id, s: seq<Id>) {
    forall i, j :: 0 <= i < j < |s| ==> Xor(q, s[i]) <= Xor(q, s[j])
  }

  lemma {:induction false} WithoutInOrder(q: Id, s: seq<Id>, e: Id)
    requires InOrder(q, s)
    ensures InOrder(q, Without(s, e))
    decreases s
  {
    if s != [] {
      WithoutInOrder(q, s[1..], e);
      var r := Without(s[1..], e);
      assert forall i :: 0 <= i < |r| ==> r[i] in r;
    }
  }

  lemma {:induction false} InsertMembers(q: Id, x: Id, s: seq<Id>)
    ensures forall y :: y in InsertByDistance(q, x, s) <==> y == x || y in s
    ensures InOrder(q, s) ==> InOrder(q, InsertByDistance(q, x, s))
    decreases s
  {
    if s != [] && Xor(q, s[0]) < Xor(q, x) {
      InsertMembers(q, x, s[1..]);
      var r := InsertByDistance(q, x, s[1..]);
      assert forall i :: 0 <= i < |r| ==> r[i] in r;
    }
  }

  lemma {:induction false} SortMembers(q: Id, s: seq<Id>)
    ensures forall y :: y in SortByDistance(q, s) <==> y in s
    ensures InOrder(q, SortByDistance(q, s))
    decreases s
  {
    if s != [] {
      SortMembers(q, s[1..]);
      InsertMembers(q, s[0], SortByDistance(q, s[1..]));
    }
  }

  /** Insertions commute, because only equal ids tie. */
  lemma {:induction false} InsertCommutes(q: Id, x: Id, y: Id, s: seq<Id>)
    ensures InsertByDistance(q, x, InsertByDistance(q, y, s)) == InsertByDistance(q, y, InsertByDistance(q, x, s))
    decreases s
  {
    if Xor(q, x) == Xor(q, y) {
      XorInjective(q, x, y);
    } else if s != [] {
      InsertCommutes(q, x, y, s[1..]);
    }
  }

  lemma {:induction false} SortAppend(q: Id, s: seq<Id>, x: Id)
    ensures SortByDistance(q, s + [x]) == InsertByDistance(q, x, SortByDistance(q, s))
    decreases s
  {
    if s == [] {
      assert [] + [x] == [x];
    } else {
      SortAppend(q, s[1..], x);
      assert (s + [x])[1..] == s[1..] + [x];
      InsertCommutes(q, s[0], x, SortByDistance(q, s[1..]));
    }
  }

  /** The first k after an insertion depend on the first k before it. */
  lemma {:induction false} TakeInsert(q: Id, x: Id, s: seq<Id>, k: nat)
    ensures Take(InsertByDistance(q, x, s), k) == Take(InsertByDistance(q, x, Take(s, k)), k)
    decreases s
  {
    if s != [] && k > 0 {
      if Xor(q, x) > Xor(q, s[0]) {
        TakeInsert(q, x, s[1..], k - 1);
        assert Take(s, k)[1..] == Take(s[1..], k - 1);
        TakeCons(s[0], InsertByDistance(q, x, s[1..]), k);
        TakeCons(s[0], InsertByDistance(q, x, Take(s[1..], k - 1)), k);
      } else {
        TakeCons(x, s, k);
        TakeCons(x, Take(s, k), k);
      }
    }
  }

  lemma {:induction false} InsertFarthest(q: Id, x: Id, s: seq<Id>)
    requires InOrder(q, s) && (s != [] ==> Xor(q, x) > Xor(q, s[|s| - 1]))
    ensures InsertByDistance(q, x, s) == s + [x]
    decreases s
  {
    if s != [] {
      InsertFarthest(q, x, s[1..]);
    }
  }
}
