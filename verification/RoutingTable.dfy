/**
 The mutable routing table. Every method is proved against the value-level specification in
 Table.dfy; the k-nearest search is proved against the brute-force ranking of all live nodes.
 */
module RoutingTables {
  import opened Collections
  import opened Arithmetic
  import opened XorMetric
  import opened Ranking
  import opened KBuckets
  import opened Tables

  // ----- nearest-neighbour search: ids and sorting of candidate nodes

  function Ids(nodes: seq<Node>): (r: seq<Id>)
    ensures |r| == |nodes| && forall i :: 0 <= i < |r| ==> r[i] == nodes[i].id
  {
    seq(|nodes|, i requires 0 <= i < |nodes| => nodes[i].id)
  }

  function InsertNode(q: Id, n: Node, s: seq<Node>): seq<Node> {
    if s == [] || Xor(q, n.id) <= Xor(q, s[0].id) then [n] + s
    else [s[0]] + InsertNode(q, n, s[1..])
  }

  /** The candidate heap in pop order: (distance, id, peer) entries, least distance first. */
  function SortNodes(q: Id, nodes: seq<Node>): seq<Node> {
    if nodes == [] then [] else InsertNode(q, nodes[0], SortNodes(q, nodes[1..]))
  }

  lemma {:induction false} InsertNodeIds(q: Id, n: Node, s: seq<Node>)
    ensures Ids(InsertNode(q, n, s)) == InsertByDistance(q, n.id, Ids(s))
    ensures forall m :: m in InsertNode(q, n, s) <==> m == n || m in s
  {
    if s != [] {
      InsertNodeIds(q, n, s[1..]);
      assert Ids(s)[1..] == Ids(s[1..]);
      assert Ids([n] + s) == [n.id] + Ids(s);
      assert Ids([s[0]] + InsertNode(q, n, s[1..])) == [s[0].id] + Ids(InsertNode(q, n, s[1..]));
    }
  }

  lemma {:induction false} SortNodesIds(q: Id, nodes: seq<Node>)
    ensures Ids(SortNodes(q, nodes)) == SortByDistance(q, Ids(nodes))
    ensures forall n :: n in SortNodes(q, nodes) <==> n in nodes
  {
    if nodes != [] {
      SortNodesIds(q, nodes[1..]);
      assert Ids(nodes)[1..] == Ids(nodes[1..]);
      InsertNodeIds(q, nodes[0], SortNodes(q, nodes[1..]));
    }
  }

  /** Drop the excluded id from a result list. */
  function Excluding(nodes: seq<Node>, exclude: Option<Id>): seq<Node> {
    if exclude.None? then nodes else DropId(nodes, exclude.value)
  }

  lemma {:induction false} DropIdIds(nodes: seq<Node>, e: Id)
    ensures Ids(DropId(nodes, e)) == Without(Ids(nodes), e)
  {
    if nodes != [] {
      DropIdIds(nodes[1..], e);
      assert Ids(nodes)[1..] == Ids(nodes[1..]);
      assert Ids([nodes[0]] + DropId(nodes[1..], e)) == [nodes[0].id] + Ids(DropId(nodes[1..], e));
    }
  }

  // ----- live nodes

  ghost predicate LiveIn(bs: seq<KBucket>, left: int, right: int, n: Node) {
    exists i :: 0 <= left <= i < right <= |bs| && n in bs[i].live
  }

  /** The ids that a nearest-neighbour query may return. */
  ghost function LiveIds(bs: seq<KBucket>): set<Id> {
    set i, j | 0 <= i < |bs| && 0 <= j < |bs[i].live| :: bs[i].live[j].id
  }

  /** Same, over a range of buckets. */
  ghost function LiveIdsIn(bs: seq<KBucket>, left: nat, right: nat): set<Id>
    requires left <= right <= |bs|
  {
    set i, j | left <= i < right && 0 <= j < |bs[i].live| :: bs[i].live[j].id
  }

  /** `r` lists the k XOR-nearest live ids other than `exclude`, nearest first, each with its peer. */
  ghost predicate AreNearest(bs: seq<KBucket>, q: Id, k: nat, exclude: Option<Id>, r: seq<Node>) {
    && Ids(r) == Take(Ranked(q, LiveIds(bs) - (if exclude.None? then {} else {exclude.value})), k)
    && forall n :: n in r ==> LiveIn(bs, 0, |bs|, n)
  }

  /** `r` lists at most k live nodes other than `exclude`, no nearer one after a farther one. */
  ghost predicate AreLive(bs: seq<KBucket>, q: Id, k: nat, exclude: Option<Id>, r: seq<Node>) {
    && |r| <= k
    && (forall n :: n in r ==> LiveIn(bs, 0, |bs|, n) && Some(n.id) != exclude)
    && InOrder(q, Ids(r))
  }

  // ----- dyadic nesting: why whole buckets are merged at each level of the climb

  lemma NestRight(width: nat, b: KBucket, m: nat, lower: nat)
    requires IsBlock(width, b) && Aligned(m + 1, lower)
    requires lower + Pow2(m) <= b.lower < lower + Pow2(m + 1)
    ensures b.upper <= lower + Pow2(m + 1)
  {
    var s := width - b.depth;
    AlignedNext(m + 1, lower);
    if s <= m + 1 {
      AlignedWeaken(s, m + 1, lower + Pow2(m + 1));
      AlignedGap(s, b.lower, lower + Pow2(m + 1));
    } else {
      AlignedWeaken(m + 1, s, b.lower);
      AlignedGap(m + 1, lower, b.lower);
    }
  }

  lemma NestLeft(width: nat, b: KBucket, m: nat, lower: nat)
    requires IsBlock(width, b) && Aligned(m + 1, lower)
    requires lower < b.upper <= lower + Pow2(m)
    ensures b.lower >= lower
  {
    var s := width - b.depth;
    if s <= m + 1 {
      if b.lower < lower {
        AlignedWeaken(s, m + 1, lower);
        AlignedGap(s, b.lower, lower);
      }
    } else {
      AlignedNext(s, b.lower);
      AlignedWeaken(m + 1, s, b.upper);
      AlignedGap(m + 1, lower, b.upper);
    }
  }

  /** A block that starts inside the id space lies inside it. */
  lemma BlockFits(width: nat, m: nat, lower: nat)
    requires m <= width && Aligned(m, lower) && lower < Pow2(width)
    ensures lower + Pow2(m) <= Pow2(width)
  {
    AlignedZero(width);
    AlignedNext(width, 0);
    AlignedWeaken(m, width, Pow2(width));
    AlignedGap(m, lower, Pow2(width));
  }

  lemma TilingStart(width: nat, bs: seq<KBucket>, i: nat)
    requires Tiling(width, bs) && i < |bs|
    ensures bs[i].lower < Pow2(width)
  {
    assert IsBlock(width, bs[i]);
    if i < |bs| - 1 {
      TilingOrdered(width, bs, i, |bs| - 1);
      assert IsBlock(width, bs[|bs| - 1]);
    }
  }

  // ----- candidates gathered so far

  /** The candidate list holds the live nodes of buckets [left, right), each id once if all ids lie
      in their bucket's range. */
  ghost predicate Gathered(t: Table, left: nat, right: nat, candidates: seq<Node>) {
    && left <= right <= |t.buckets|
    && (forall n :: n in candidates <==> LiveIn(t.buckets, left, right, n))
    && (InRange(t) ==> DistinctIds(candidates))
  }

  lemma GatherDistinct(c: Config, t: Table, left: nat, right: nat, candidates: seq<Node>, i: nat)
    requires WellFormed(c, t) && InRange(t) && Gathered(t, left, right, candidates)
    requires i < |t.buckets| && (i + 1 == left || i == right)
    ensures DistinctIds(candidates + t.buckets[i].live)
  {
    var bs, extra := t.buckets, t.buckets[i].live;
    DistinctParts(extra, bs[i].replacements);
    forall m, n | m in candidates && n in extra
      ensures m.id != n.id
    {
      var j :| left <= j < right && m in bs[j].live;
      assert m in bs[j].Nodes() && n in bs[i].Nodes();
      if j < i {
        TilingOrdered(c.width, bs, j, i);
      } else {
        TilingOrdered(c.width, bs, i, j);
      }
    }
    DistinctParts(candidates, extra);
  }

  lemma GatherOne(c: Config, t: Table, left: nat, right: nat, candidates: seq<Node>, i: nat)
    requires WellFormed(c, t) && Gathered(t, left, right, candidates)
    requires i < |t.buckets| && (i + 1 == left || i == right)
    ensures Gathered(t, if i < left then i else left, if i < left then right else right + 1,
                     candidates + t.buckets[i].live)
  {
    var bs := t.buckets;
    var left', right' := if i < left then i else left, if i < left then right else right + 1;
    var extra := bs[i].live;
    forall n
      ensures n in candidates + extra <==> LiveIn(bs, left', right', n)
    {
      if j :| left' <= j < right' && n in bs[j].live {
        assert j != i ==> LiveIn(bs, left, right, n);
      }
    }
    if InRange(t) {
      GatherDistinct(c, t, left, right, candidates, i);
    }
  }

  lemma GatherFirst(c: Config, t: Table, i: nat)
    requires WellFormed(c, t) && i < |t.buckets|
    ensures Gathered(t, i, i + 1, t.buckets[i].live)
  {
    GatherOne(c, t, i, i, [], i);
    assert [] + t.buckets[i].live == t.buckets[i].live;
  }

  /** The gathered buckets tile an aligned block of width 2^m that contains the query. */
  ghost predicate Climbing(width: nat, bs: seq<KBucket>, q: Id, left: nat, right: nat, lower: nat, m: nat) {
    && left < right <= |bs|
    && m <= width
    && Aligned(m, lower)
    && lower <= q < lower + Pow2(m)
    && bs[left].lower == lower
    && bs[right - 1].upper == lower + Pow2(m)
  }

  /** Live ids of the gathered buckets are nearer to the query than all other live ids. */
  lemma GatheredIsNearer(c: Config, t: Table, q: Id, left: nat, right: nat, lower: nat, m: nat)
    requires WellFormed(c, t) && InRange(t)
    requires Climbing(c.width, t.buckets, q, left, right, lower, m)
    ensures LiveIdsIn(t.buckets, left, right) <= LiveIds(t.buckets)
    ensures forall x, y :: && x in LiveIdsIn(t.buckets, left, right)
                           && y in LiveIds(t.buckets) - LiveIdsIn(t.buckets, left, right)
                           ==> Nearer(q, x, y)
  {
    var bs := t.buckets;
    var S, T := LiveIds(bs), LiveIdsIn(bs, left, right);
    forall x, y | x in T && y in S - T
      ensures Nearer(q, x, y)
    {
      var i, a :| left <= i < right && 0 <= a < |bs[i].live| && bs[i].live[a].id == x;
      var j, b :| 0 <= j < |bs| && 0 <= b < |bs[j].live| && bs[j].live[b].id == y;
      BucketInside(c, t, left, right, i, bs[i].live[a]);
      BucketOutside(c, t, left, right, j, bs[j].live[b]);
      InsideIsNearer(m, lower, q, x, y);
    }
  }

  lemma BucketInside(c: Config, t: Table, left: nat, right: nat, i: nat, n: Node)
    requires WellFormed(c, t) && InRange(t) && left <= i < right <= |t.buckets| && n in t.buckets[i].live
    ensures t.buckets[left].lower <= n.id < t.buckets[right - 1].upper
  {
    var bs := t.buckets;
    assert n in bs[i].Nodes();
    assert IsBlock(c.width, bs[left]) && IsBlock(c.width, bs[right - 1]);
    if left < i {
      TilingOrdered(c.width, bs, left, i);
    }
    if i < right - 1 {
      TilingOrdered(c.width, bs, i, right - 1);
    }
  }

  lemma BucketOutside(c: Config, t: Table, left: nat, right: nat, i: nat, n: Node)
    requires WellFormed(c, t) && InRange(t) && left < right <= |t.buckets|
    requires i < |t.buckets| && !(left <= i < right) && n in t.buckets[i].live
    ensures !(t.buckets[left].lower <= n.id < t.buckets[right - 1].upper)
  {
    var bs := t.buckets;
    assert n in bs[i].Nodes();
    if i < left {
      TilingOrdered(c.width, bs, i, left);
    } else {
      TilingOrdered(c.width, bs, right - 1, i);
    }
  }

  lemma GatheredIds(t: Table, left: nat, right: nat, candidates: seq<Node>)
    requires InRange(t) && Gathered(t, left, right, candidates)
    ensures Elems(Ids(candidates)) == LiveIdsIn(t.buckets, left, right)
    ensures |LiveIdsIn(t.buckets, left, right)| == |candidates|
  {
    var bs := t.buckets;
    var T := LiveIdsIn(bs, left, right);
    forall x
      ensures x in Elems(Ids(candidates)) <==> x in T
    {
      if x in Ids(candidates) {
        var k :| 0 <= k < |candidates| && Ids(candidates)[k] == x;
        assert LiveIn(bs, left, right, candidates[k]);
        var i :| left <= i < right && candidates[k] in bs[i].live;
        var j :| 0 <= j < |bs[i].live| && bs[i].live[j] == candidates[k];
      }
      if x in T {
        var i, j :| left <= i < right && 0 <= j < |bs[i].live| && bs[i].live[j].id == x;
        assert LiveIn(bs, left, right, bs[i].live[j]);
        var k :| 0 <= k < |candidates| && candidates[k] == bs[i].live[j];
        assert Ids(candidates)[k] == x;
      }
    }
    SortIsRanked(0, Ids(candidates));
    RankedSorts(0, T);
    SortLength(0, Ids(candidates));
  }

  /** Selecting from enough gathered candidates is selecting from all live nodes. */
  lemma SelectionIsNearest(c: Config, t: Table, q: Id, k: nat, exclude: Option<Id>,
                           left: nat, right: nat, lower: nat, m: nat, candidates: seq<Node>)
    requires WellFormed(c, t) && InRange(t)
    requires Climbing(c.width, t.buckets, q, left, right, lower, m)
    requires Gathered(t, left, right, candidates)
    requires m == c.width || |candidates| >= k + (if exclude.None? then 0 else 1)
    ensures AreNearest(t.buckets, q, k, exclude,
                       Take(Excluding(Take(SortNodes(q, candidates), k + (if exclude.None? then 0 else 1)), exclude),
                            k))
  {
    var bs := t.buckets;
    var need := k + if exclude.None? then 0 else 1;
    var top := Take(SortNodes(q, candidates), need);
    TopIsNearest(c, t, q, need, left, right, lower, m, candidates);
    SelectExcluding(q, LiveIds(bs), k, exclude, top);
    forall n | n in Take(Excluding(top, exclude), k)
      ensures LiveIn(bs, 0, |bs|, n)
    {
      assert n in top;
    }
  }

  lemma SelectionIsLive(t: Table, q: Id, k: nat, exclude: Option<Id>, left: nat, right: nat, candidates: seq<Node>)
    requires Gathered(t, left, right, candidates)
    ensures AreLive(t.buckets, q, k, exclude,
                    Take(Excluding(Take(SortNodes(q, candidates), k + (if exclude.None? then 0 else 1)), exclude), k))
  {
    var sorted, need := SortNodes(q, candidates), k + if exclude.None? then 0 else 1;
    SortNodesIds(q, candidates);
    SortMembers(q, Ids(candidates));
    assert Ids(Take(sorted, need)) == Take(Ids(sorted), need);
    forall n | n in Take(sorted, need)
      ensures LiveIn(t.buckets, 0, |t.buckets|, n)
    {
      assert n in sorted && n in candidates;
      var i :| left <= i < right && n in t.buckets[i].live;
    }
    ExcludeLive(t.buckets, q, k, exclude, Take(sorted, need));
  }

  lemma ExcludeLive(bs: seq<KBucket>, q: Id, k: nat, exclude: Option<Id>, top: seq<Node>)
    requires InOrder(q, Ids(top)) && forall n :: n in top ==> LiveIn(bs, 0, |bs|, n)
    ensures AreLive(bs, q, k, exclude, Take(Excluding(top, exclude), k))
  {
    var rest := Excluding(top, exclude);
    if exclude.Some? {
      DropIdIds(top, exclude.value);
      WithoutInOrder(q, Ids(top), exclude.value);
    }
    assert Ids(Take(rest, k)) == Take(Ids(rest), k);
    forall n | n in Take(rest, k)
      ensures LiveIn(bs, 0, |bs|, n) && Some(n.id) != exclude
    {
      assert n in rest && n in top;
    }
  }

  lemma TopIsNearest(c: Config, t: Table, q: Id, need: nat,
                     left: nat, right: nat, lower: nat, m: nat, candidates: seq<Node>)
    requires WellFormed(c, t) && InRange(t)
    requires Climbing(c.width, t.buckets, q, left, right, lower, m)
    requires Gathered(t, left, right, candidates)
    requires m == c.width || |candidates| >= need
    ensures Ids(Take(SortNodes(q, candidates), need)) == Take(Ranked(q, LiveIds(t.buckets)), need)
    ensures forall n :: n in Take(SortNodes(q, candidates), need) ==> LiveIn(t.buckets, 0, |t.buckets|, n)
  {
    var bs := t.buckets;
    GatheredIsNearer(c, t, q, left, right, lower, m);
    GatheredIds(t, left, right, candidates);
    SortNodesIds(q, candidates);
    SortIsRanked(q, Ids(candidates));
    if m == c.width {
      WholeSpace(c, t, left, right, lower);
    }
    NearerPrefix(q, LiveIds(bs), LiveIdsIn(bs, left, right), need);
    var sorted := SortNodes(q, candidates);
    assert Ids(Take(sorted, need)) == Take(Ids(sorted), need);
    forall n | n in Take(sorted, need)
      ensures LiveIn(bs, 0, |bs|, n)
    {
      assert n in sorted && n in candidates;
      var i :| left <= i < right && n in bs[i].live;
    }
  }

  /** Asking for one more and dropping the excluded id leaves the k nearest of the others. */
  lemma SelectExcluding(q: Id, S: set<Id>, k: nat, exclude: Option<Id>, top: seq<Node>)
    requires Ids(top) == Take(Ranked(q, S), k + (if exclude.None? then 0 else 1))
    ensures Ids(Take(Excluding(top, exclude), k))
            == Take(Ranked(q, S - (if exclude.None? then {} else {exclude.value})), k)
  {
    assert Ids(Take(Excluding(top, exclude), k)) == Take(Ids(Excluding(top, exclude)), k);
    if exclude.Some? {
      DropIdIds(top, exclude.value);
      RankedDistinct(q, S);
      TakeWithout(Ranked(q, S), exclude.value, k);
      RankedWithout(q, S, exclude.value);
    } else {
      assert S - {} == S;
    }
  }

  lemma WholeSpace(c: Config, t: Table, left: nat, right: nat, lower: nat)
    requires WellFormed(c, t) && left < right <= |t.buckets|
    requires t.buckets[left].lower == lower && t.buckets[right - 1].upper == lower + Pow2(c.width)
    requires Aligned(c.width, lower)
    ensures left == 0 && right == |t.buckets|
    ensures LiveIdsIn(t.buckets, left, right) == LiveIds(t.buckets)
  {
    var bs := t.buckets;
    TilingStart(c.width, bs, left);
    AlignedZero(c.width);
    if lower > 0 {
      AlignedGap(c.width, 0, lower);
    }
    if left > 0 {
      TilingOrdered(c.width, bs, 0, left);
    }
    if right < |bs| {
      TilingOrdered(c.width, bs, right - 1, |bs| - 1);
    }
  }

  class RoutingTable {
    const c: Config
    var buckets: seq<KBucket>
    var uidToPeer: map<Id, Peer>
    var peerToUid: map<Peer, Id>

    function Model(): Table
      reads this
    {
      Table(buckets, uidToPeer, peerToUid)
    }

    ghost predicate Valid()
      reads this
    {
      c.Valid() && WellFormed(c, Model())
    }

    constructor (c: Config)
      requires c.Valid()
      ensures this.c == c && Model() == Empty(c) && Valid() && Consistent(c, Model())
    {
      this.c := c;
      buckets, uidToPeer, peerToUid := [Fresh(0, Pow2(c.width), c.size, 0)], map[], map[];
      EmptyConsistent(c);
    }

    /** Binary search for the one bucket whose range contains the id. */
    method GetBucketIndex(id: Id) returns (index: nat)
      requires Valid() && id < Pow2(c.width)
      ensures index < |buckets| && buckets[index].Covers(id)
      ensures forall j :: 0 <= j < |buckets| && buckets[j].Covers(id) ==> j == index
      ensures index == IndexOf(buckets, id)
    {
      var lower, upper := 0, |buckets|;
      while upper - lower > 1
        invariant 0 <= lower < upper <= |buckets|
        invariant buckets[lower].lower <= id
        invariant upper < |buckets| ==> id < buckets[upper].lower
      {
        var pivot := (lower + upper + 1) / 2;
        if id >= buckets[pivot].lower {
          lower := pivot;
        } else {
          upper := pivot;
        }
      }
      assert upper < |buckets| ==> buckets[upper - 1].upper == buckets[upper].lower;
      assert buckets[lower].Covers(id);
      IndexCovers(c.width, buckets, id);
      index := lower;
    }

    method SplitBucket(index: nat) returns (ok: bool)
      requires Valid() && index < |buckets|
      modifies this`buckets
      ensures ok <==> old(buckets)[index].depth < c.width
      ensures buckets == if ok then SplitAt(old(buckets), index) else old(buckets)
      ensures Valid()
    {
      SplitBlock(c.width, buckets[index]);
      var halves := Split(buckets[index]);
      match halves {
        case None =>
          ok := false;
        case Some((first, second)) =>
          SplitShape(c, Model(), index);
          buckets := buckets[..index] + [first, second] + buckets[index + 1..];
          ok := true;
      }
    }

    /** `raised` is the "bucket too small" assertion; `toPing` is the node returned for a ping. */
    method AddOrUpdateNode(id: Id, peer: Peer) returns (raised: bool, toPing: Option<Node>)
      requires Valid() && id < Pow2(c.width)
      modifies this
      ensures Valid()
      ensures Model() == Insert(c, old(Model()), id, peer).table
      ensures raised <==> Insert(c, old(Model()), id, peer).TooSmall?
      ensures toPing == (match Insert(c, old(Model()), id, peer) case Full(_, n) => n case _ => None)
      decreases c.width - buckets[IndexOf(buckets, id)].depth
    {
      ghost var before := Model();
      FirstStepShape(c, before, id, peer);
      FirstStepTiling(c, before, id, peer);
      var index := GetBucketIndex(id);
      var (bucket, success) := Add(buckets[index], id, peer);
      buckets := buckets[index := bucket];
      if bucket.Holds(id) {
        uidToPeer := uidToPeer[id := peer];
        peerToUid := peerToUid[peer := id];
      }
      assert Model() == FirstStep(before, id, peer).0;
      if success {
        return false, None;
      }
      SplitBlock(c.width, bucket);
      if bucket.Covers(c.nodeId) || bucket.depth % c.modulo != 0 {
        var ok := SplitBucket(index);
        if !ok {
          return true, None;
        }
        InsertDescends(c, before, id, peer);
        assert Model() == Descended(before, id, peer);
        raised, toPing := AddOrUpdateNode(id, peer);
      } else {
        PingKeepsShape(c, Model(), index);
        var (pinged, node) := RequestPing(bucket);
        buckets := buckets[index := pinged];
        return false, node;
      }
    }

    /** `__delitem__`; false is the KeyError, of the bucket or of the lookup after it. */
    method DeleteNode(id: Id) returns (ok: bool)
      requires Valid() && id < Pow2(c.width)
      modifies this
      ensures Valid()
      ensures (Model(), ok) == Remove(old(Model()), id)
      ensures ok <==> id in old(uidToPeer) && old(buckets)[IndexOf(old(buckets), id)].Holds(id)
      ensures uidToPeer == if ok then old(uidToPeer) - {id} else old(uidToPeer)
      ensures old(Consistent(c, Model())) ==> Consistent(c, Model()) && (ok <==> id in old(uidToPeer))
    {
      RemoveMeaning(c, Model(), id);
      var index := GetBucketIndex(id);
      match Delete(buckets[index], id) {
        case None =>
          ok := false;
        case Some(bucket) =>
          buckets := buckets[index := bucket];
          if id !in uidToPeer {
            return false;
          }
          var peer := uidToPeer[id];
          uidToPeer := uidToPeer - {id};
          if peer in peerToUid && peerToUid[peer] == id {
            peerToUid := peerToUid - {peer};
          }
          ok := true;
      }
    }

    /** Merge the buckets to the right of the current block up to the end of its parent. The
        returned flag is the internal assertion that the merge ended exactly there. */
    method MergeRight(q: Id, left: nat, right: nat, lower: nat, m: nat, candidates: seq<Node>)
      returns (right': nat, candidates': seq<Node>, aligned: bool)
      requires Valid()
      requires Climbing(c.width, buckets, q, left, right, lower, m) && m < c.width
      requires Gathered(Model(), left, right, candidates)
      requires Aligned(m + 1, lower)
      ensures aligned
      ensures Climbing(c.width, buckets, q, left, right', lower, m + 1)
      ensures Gathered(Model(), left, right', candidates')
    {
      var upper := lower + Pow2(m) + Pow2(m);
      assert IsBlock(c.width, buckets[left]);
      TilingStart(c.width, buckets, left);
      BlockFits(c.width, m + 1, lower);
      right', candidates' := right, candidates;
      while right' < |buckets| && buckets[right'].upper <= upper
        invariant right <= right' <= |buckets|
        invariant lower + Pow2(m) <= buckets[right' - 1].upper <= upper
        invariant Gathered(Model(), left, right', candidates')
      {
        assert buckets[right' - 1].upper == buckets[right'].lower;
        assert IsBlock(c.width, buckets[right']);
        GatherOne(c, Model(), left, right', candidates', right');
        candidates' := candidates' + buckets[right'].live;
        right' := right' + 1;
      }
      if buckets[right' - 1].upper < upper {
        assert right' < |buckets|;
        assert buckets[right' - 1].upper == buckets[right'].lower;
        NestRight(c.width, buckets[right'], m, lower);
        assert false;
      }
      aligned := buckets[right' - 1].upper == upper;
    }

    method MergeLeft(q: Id, left: nat, right: nat, lower: nat, m: nat, candidates: seq<Node>)
      returns (left': nat, candidates': seq<Node>, aligned: bool)
      requires Valid()
      requires Climbing(c.width, buckets, q, left, right, lower, m) && m < c.width
      requires Gathered(Model(), left, right, candidates)
      requires lower >= Pow2(m) && Aligned(m + 1, lower - Pow2(m))
      ensures aligned
      ensures Climbing(c.width, buckets, q, left', right, lower - Pow2(m), m + 1)
      ensures Gathered(Model(), left', right, candidates')
    {
      var lower' := lower - Pow2(m);
      left', candidates' := left, candidates;
      while left' > 0 && buckets[left' - 1].lower >= lower'
        invariant 0 <= left' <= left
        invariant lower' <= buckets[left'].lower <= lower
        invariant Gathered(Model(), left', right, candidates')
      {
        assert buckets[left' - 1].upper == buckets[left'].lower;
        assert IsBlock(c.width, buckets[left' - 1]);
        GatherOne(c, Model(), left', right, candidates', left' - 1);
        left' := left' - 1;
        candidates' := candidates' + buckets[left'].live;
      }
      if buckets[left'].lower > lower' {
        assert left' > 0;
        assert buckets[left' - 1].upper == buckets[left'].lower;
        NestLeft(c.width, buckets[left' - 1], m, lower');
        assert false;
      }
      aligned := buckets[left'].lower == lower';
    }

    /** Climb the bucket tree from the query's own bucket until `need` candidates are gathered or
        the whole space is covered. `assertions` is the conjunction of the internal assertions. */
    method GatherCandidates(q: Id, need: nat)
      returns (candidates: seq<Node>, assertions: bool, ghost left: nat, ghost right: nat, ghost lower: nat,
               ghost m: nat)
      requires Valid() && q < Pow2(c.width)
      ensures assertions
      ensures Climbing(c.width, buckets, q, left, right, lower, m)
      ensures Gathered(Model(), left, right, candidates)
      ensures m == c.width || |candidates| >= need
    {
      var index := GetBucketIndex(q);
      candidates, assertions := buckets[index].live, true;
      var leftIndex, rightIndex := index, index + 1;
      var currentLower: nat, depth := buckets[index].lower, buckets[index].depth;
      assert IsBlock(c.width, buckets[index]);
      GatherFirst(c, Model(), index);
      while depth > 0 && |candidates| < need
        invariant depth <= c.width
        invariant Climbing(c.width, buckets, q, leftIndex, rightIndex, currentLower, c.width - depth)
        invariant Gathered(Model(), leftIndex, rightIndex, candidates)
        invariant assertions
        decreases depth
      {
        var size := c.width - depth;
        var direction := currentLower / Pow2(size) % 2;
        DirectionBit(size, currentLower);
        depth := depth - 1;
        var aligned;
        if direction == 0 {
          rightIndex, candidates, aligned := MergeRight(q, leftIndex, rightIndex, currentLower, size, candidates);
        } else {
          AlignedPrevious(size, currentLower);
          leftIndex, candidates, aligned := MergeLeft(q, leftIndex, rightIndex, currentLower, size, candidates);
          currentLower := currentLower - Pow2(size);
        }
        assertions := assertions && aligned;
      }
      left, right, lower, m := leftIndex, rightIndex, currentLower, c.width - depth;
    }

    /** Live nodes other than `exclude`, in order of distance; if all ids lie in their bucket's range,
        the k nearest of them. The internal assertions hold on every table. */
    method GetNearestNeighbors(q: Id, k: nat, exclude: Option<Id>) returns (r: seq<Node>, assertions: bool)
      requires Valid() && q < Pow2(c.width)
      ensures assertions
      ensures AreLive(buckets, q, k, exclude, r)
      ensures InRange(Model()) ==> AreNearest(buckets, q, k, exclude, r)
    {
      var need := k + if exclude.None? then 0 else 1;
      var candidates;
      ghost var left, right, lower, m;
      candidates, assertions, left, right, lower, m := GatherCandidates(q, need);
      SelectionIsLive(Model(), q, k, exclude, left, right, candidates);
      if InRange(Model()) {
        SelectionIsNearest(c, Model(), q, k, exclude, left, right, lower, m, candidates);
      }
      r := Take(Excluding(Take(SortNodes(q, candidates), need), exclude), k);
    }
  }
}
