/**
 Which buckets an insertion splits, read off the bucket that covers the id before the call: how
 many held ids are near the id, and which levels may be split. Hence exactly when an insertion
 keeps the table consistent, without replaying it.
 */
module TableSplits {
  import opened Collections
  import opened Arithmetic
  import opened XorMetric
  import opened Ranking
  import opened KBuckets
  import opened Tables

  /** Every block around the id, from the first of these depths to the last, may be split. */
  ghost predicate SplitsDown(c: Config, id: Id, first: nat, last: nat)
    requires c.modulo >= 1 && last <= c.width
  {
    forall d :: first <= d <= last ==> Xor(id, c.nodeId) < Pow2(c.width - d) || d % c.modulo != 0
  }

  /** How many nodes other than the id itself are within 2^m of it. */
  ghost function Near(nodes: seq<Node>, id: Id, m: nat): nat {
    if nodes == [] then 0
    else (if nodes[0].id != id && Xor(id, nodes[0].id) < Pow2(m) then 1 else 0) + Near(nodes[1..], id, m)
  }

  /** The insertion splits a bucket at this depth: the id is not live, the block of this depth
      around it holds enough other ids, and every level down to this one may be split. */
  ghost predicate SplitsAt(c: Config, b: KBucket, id: Id, d: nat)
    requires c.modulo >= 1
  {
    && b.depth <= d < c.width
    && !HasId(b.live, id)
    && Near(b.Nodes(), id, c.width - d) >= c.size
    && SplitsDown(c, id, b.depth, d)
  }

  /** x is the middle of the block of 2^m ids around the id. */
  ghost predicate Halves(m: nat, id: Id, x: Id)
    requires m >= 1
  {
    Xor(id, x) < Pow2(m) && Aligned(m - 1, x) && !Aligned(m, x)
  }

  /** Neither the id nor one that the bucket holds is the middle of the block of 2^m ids. */
  ghost predicate MiddleFree(b: KBucket, id: Id, m: nat)
    requires m >= 1
  {
    forall x :: Halves(m, id, x) ==> x != id && !b.Holds(x)
  }

  ghost predicate FreeAt(c: Config, b: KBucket, id: Id, d: nat)
    requires c.modulo >= 1
  {
    SplitsAt(c, b, id, d) ==> MiddleFree(b, id, c.width - d)
  }

  /** At none of the depths split is there an id in the middle. */
  ghost predicate SplitsFree(c: Config, b: KBucket, id: Id)
    requires c.modulo >= 1
  {
    forall d: nat :: FreeAt(c, b, id, d)
  }

  // ----- counting near ids

  lemma {:induction false} NearAtMost(nodes: seq<Node>, id: Id, m: nat)
    ensures Near(nodes, id, m) <= |nodes|
  {
    if nodes != [] {
      NearAtMost(nodes[1..], id, m);
    }
  }

  lemma {:induction false} NearAll(nodes: seq<Node>, id: Id, m: nat)
    requires forall n :: n in nodes ==> n.id != id && Xor(id, n.id) < Pow2(m)
    ensures Near(nodes, id, m) == |nodes|
  {
    if nodes != [] {
      NearAll(nodes[1..], id, m);
    }
  }

  lemma {:induction false} NearAppend(s: seq<Node>, t: seq<Node>, id: Id, m: nat)
    ensures Near(s + t, id, m) == Near(s, id, m) + Near(t, id, m)
  {
    if s == [] {
      assert s + t == t;
    } else {
      NearAppend(s[1..], t, id, m);
      assert (s + t)[1..] == s[1..] + t;
    }
  }

  lemma {:induction false} NearDrop(nodes: seq<Node>, id: Id, m: nat)
    ensures Near(DropId(nodes, id), id, m) == Near(nodes, id, m)
  {
    if nodes != [] {
      NearDrop(nodes[1..], id, m);
      NearAppend([nodes[0]], DropId(nodes[1..], id), id, m);
    }
  }

  lemma {:induction false} NearSide(nodes: seq<Node>, id: Id, m: nat, mid: nat, left: bool)
    requires forall n :: n in nodes && Xor(id, n.id) < Pow2(m) ==> (n.id <= mid) == left
    ensures Near(Side(nodes, mid, left), id, m) == Near(nodes, id, m)
  {
    if nodes != [] {
      NearSide(nodes[1..], id, m, mid, left);
      var head := if (nodes[0].id <= mid) == left then [nodes[0]] else [];
      NearAppend(head, Side(nodes[1..], mid, left), id, m);
      assert nodes[0] in nodes;
    }
  }

  // ----- one split

  /** The middle of a block, told by alignment. */
  lemma MiddleIs(width: nat, b: KBucket, id: Id, x: Id)
    requires IsBlock(width, b) && b.Covers(id) && b.depth < width
    ensures Halves(width - b.depth, id, x) <==> x == b.Midpoint()
  {
    var m := width - b.depth;
    assert Pow2(m) == 2 * Pow2(m - 1);
    BlockIsBall(m, b.lower, id, x);
    AlignedWeaken(m - 1, m, b.lower);
    AlignedNext(m - 1, b.lower);
    if Halves(m, id, x) {
      AlignedGap(m - 1, b.lower, x);
      if x > b.Midpoint() {
        AlignedGap(m - 1, b.Midpoint(), x);
      }
    }
  }

  /** Whether a block around the id may be split. */
  lemma MaySplitIff(c: Config, b: KBucket, id: Id)
    requires c.Valid() && IsBlock(c.width, b) && b.Covers(id)
    ensures MaySplit(c, b) <==> Xor(id, c.nodeId) < Pow2(c.width - b.depth) || b.depth % c.modulo != 0
  {
    BlockIsBall(c.width - b.depth, b.lower, id, c.nodeId);
  }

  /** A bucket refuses the id exactly if the id is not live and enough others are held. */
  lemma RefusedIff(width: nat, b: KBucket, id: Id, peer: Peer)
    requires IsBlock(width, b) && b.Covers(id) && b.WellFormed() && b.InRange()
    ensures !Add(b, id, peer).1 <==> !HasId(b.live, id) && Near(b.Nodes(), id, width - b.depth) >= b.size
  {
    var m := width - b.depth;
    if |b.live| < b.size {
      NearAtMost(b.Nodes(), id, m);
    } else if !HasId(b.live, id) {
      forall n | n in b.live
        ensures n.id != id && Xor(id, n.id) < Pow2(m)
      {
        assert n in b.Nodes();
        BlockIsBall(m, b.lower, id, n.id);
      }
      NearAll(b.live, id, m);
      NearAppend(b.live, b.replacements, id, m);
    }
  }

  lemma RefusedNodes(b: KBucket, id: Id, peer: Peer, m: nat)
    requires !Add(b, id, peer).1
    ensures Add(b, id, peer).0.Nodes() == (b.live + DropId(b.replacements, id)) + [Node(id, peer)]
    ensures Near(Add(b, id, peer).0.Nodes(), id, m) == Near(b.Nodes(), id, m)
  {
    var x := Node(id, peer);
    assert Add(b, id, peer).0.Nodes() == (b.live + DropId(b.replacements, id)) + [x];
    NearAppend(b.live + DropId(b.replacements, id), [x], id, m);
    NearAppend(b.live, DropId(b.replacements, id), id, m);
    NearDrop(b.replacements, id, m);
    NearAppend(b.live, b.replacements, id, m);
  }

  /** The half that covers an id which was refused and is entered again. */
  ghost function OwnHalf(b: KBucket, id: Id, peer: Peer): KBucket {
    var b' := Add(b, id, peer).0;
    Half(b', id < b'.Midpoint())
  }

  lemma LastNotLive(side: seq<Node>, others: seq<Node>, size: nat, id: Id)
    requires others <= side && |others| >= size && forall n :: n in others ==> n.id != id
    ensures !HasId(Take(side, size), id)
  {
    assert forall i :: 0 <= i < size ==> side[i] == others[i] && others[i] in others;
  }

  lemma SideNotLive(before: seq<Node>, x: Node, mid: nat, left: bool, size: nat, m: nat)
    requires forall n :: n in before ==> n.id != x.id
    requires Near(Side(before + [x], mid, left), x.id, m) >= size
    ensures !HasId(Take(Side(before + [x], mid, left), size), x.id)
  {
    var others := Side(before, mid, left);
    SideAppend(before, x, mid, left);
    SideNodes(before, mid, left);
    NearAppend(others, if (x.id <= mid) == left then [x] else [], x.id, m);
    NearAtMost(others, x.id, m);
    LastNotLive(Side(before + [x], mid, left), others, size, x.id);
  }

  lemma HalfNodes(b: KBucket, left: bool)
    ensures var side := Side(b.Nodes(), b.Midpoint(), left);
            Half(b, left).Nodes() == side && Half(b, left).live == Take(side, b.size)
  {
  }

  /** In its half, too, the id comes last, so it is live there only if others leave it room. */
  lemma HalfNotLive(b: KBucket, id: Id, peer: Peer, m: nat)
    requires !Add(b, id, peer).1 && Near(OwnHalf(b, id, peer).Nodes(), id, m) >= b.size
    ensures !HasId(OwnHalf(b, id, peer).live, id)
  {
    var b' := Add(b, id, peer).0;
    var left, before := id < b'.Midpoint(), b.live + DropId(b.replacements, id);
    RefusedNodes(b, id, peer, m);
    HalfNodes(b', left);
    assert forall n :: n in b.live ==> n.id != id;
    SideNotLive(before, Node(id, peer), b'.Midpoint(), left, b.size, m);
  }

  lemma {:induction false} Pow2Grows(m: nat, n: nat)
    requires m <= n
    ensures Pow2(m) <= Pow2(n)
  {
    if m < n {
      Pow2Grows(m, n - 1);
    }
  }

  /** Ids of a deeper block around the id go the way of the id, the midpoint apart. */
  lemma GoesAlong(width: nat, b: KBucket, id: Id, x: Id, d: nat)
    requires IsBlock(width, b) && b.Covers(id) && b.depth < d <= width
    requires Xor(id, x) < Pow2(width - d) && x != b.Midpoint()
    ensures x <= b.Midpoint() <==> id < b.Midpoint()
  {
    var m := width - b.depth - 1;
    Pow2Grows(width - d, m);
    SplitBlock(width, b);
    BlockIsBall(m, if id < b.Midpoint() then b.lower else b.Midpoint(), id, x);
  }

  lemma SideOfNear(width: nat, b: KBucket, id: Id, d: nat)
    requires IsBlock(width, b) && b.Covers(id) && b.depth < d <= width && !b.Holds(b.Midpoint())
    ensures forall n :: n in b.Nodes() && Xor(id, n.id) < Pow2(width - d) ==>
                        (n.id <= b.Midpoint()) == (id < b.Midpoint())
  {
    forall n | n in b.Nodes() && Xor(id, n.id) < Pow2(width - d)
      ensures (n.id <= b.Midpoint()) == (id < b.Midpoint())
    {
      HoldsNode(b, n.id);
      GoesAlong(width, b, id, n.id, d);
    }
  }

  lemma NearInHalf(width: nat, b: KBucket, id: Id, d: nat)
    requires IsBlock(width, b) && b.Covers(id) && b.depth < d <= width && !b.Holds(b.Midpoint())
    ensures Near(Half(b, id < b.Midpoint()).Nodes(), id, width - d) == Near(b.Nodes(), id, width - d)
  {
    SideOfNear(width, b, id, d);
    HalfNodes(b, id < b.Midpoint());
    NearSide(b.Nodes(), id, width - d, b.Midpoint(), id < b.Midpoint());
  }

  lemma HalfNear(width: nat, b: KBucket, id: Id, peer: Peer, d: nat)
    requires IsBlock(width, b) && b.Covers(id) && b.depth < d <= width
    requires !Add(b, id, peer).1 && !Add(b, id, peer).0.Holds(b.Midpoint())
    ensures Near(OwnHalf(b, id, peer).Nodes(), id, width - d) == Near(b.Nodes(), id, width - d)
  {
    RefusedNodes(b, id, peer, width - d);
    NearInHalf(width, Add(b, id, peer).0, id, d);
  }

  lemma SplitsDownFrom(c: Config, id: Id, first: nat, last: nat)
    requires c.modulo >= 1 && first <= last <= c.width
    requires Xor(id, c.nodeId) < Pow2(c.width - first) || first % c.modulo != 0
    ensures SplitsDown(c, id, first, last) <==> SplitsDown(c, id, first + 1, last)
  {
  }

  /** The half of the id is split at the same deeper levels as the whole. */
  lemma HalfSplitsAt(c: Config, b: KBucket, id: Id, peer: Peer, d: nat)
    requires c.Valid() && IsBlock(c.width, b) && b.Covers(id) && b.size == c.size && b.depth < d
    requires !Add(b, id, peer).1 && !Add(b, id, peer).0.Holds(b.Midpoint()) && MaySplit(c, b)
    ensures SplitsAt(c, b, id, d) <==> SplitsAt(c, OwnHalf(b, id, peer), id, d)
  {
    if d < c.width {
      MaySplitIff(c, b, id);
      HalfNear(c.width, b, id, peer, d);
      if Near(b.Nodes(), id, c.width - d) >= c.size {
        HalfNotLive(b, id, peer, c.width - d);
      }
      SplitsDownFrom(c, id, b.depth, d);
    }
  }

  /** The half of the id holds the same ids of deeper blocks as the whole. */
  lemma HalfHolds(width: nat, b: KBucket, id: Id, peer: Peer, x: Id, d: nat)
    requires IsBlock(width, b) && b.Covers(id) && b.WellFormed() && b.depth < d <= width
    requires !Add(b, id, peer).0.Holds(b.Midpoint()) && x != id && Xor(id, x) < Pow2(width - d)
    ensures OwnHalf(b, id, peer).Holds(x) <==> b.Holds(x)
  {
    var b' := Add(b, id, peer).0;
    AddNodes(b, id, peer);
    SplitNodes(b');
    HoldsNode(b, x);
    HoldsNode(b', x);
    HoldsNode(OwnHalf(b, id, peer), x);
    if x != b.Midpoint() {
      GoesAlong(width, b, id, x, d);
    }
  }

  lemma HalfMiddle(width: nat, b: KBucket, id: Id, peer: Peer, d: nat)
    requires IsBlock(width, b) && b.Covers(id) && b.WellFormed() && b.depth < d < width
    requires !Add(b, id, peer).0.Holds(b.Midpoint())
    ensures MiddleFree(b, id, width - d) <==> MiddleFree(OwnHalf(b, id, peer), id, width - d)
  {
    var m := width - d;
    forall x | Halves(m, id, x) && x != id
      ensures OwnHalf(b, id, peer).Holds(x) <==> b.Holds(x)
    {
      HalfHolds(width, b, id, peer, x, d);
    }
  }

  /** At the first level the middle is free exactly if the bucket, with the id, does not hold it. */
  lemma FirstMiddle(width: nat, b: KBucket, id: Id, peer: Peer)
    requires IsBlock(width, b) && b.Covers(id) && b.WellFormed() && b.depth < width
    ensures MiddleFree(b, id, width - b.depth) <==> !Add(b, id, peer).0.Holds(b.Midpoint())
  {
    var m, mid := width - b.depth, b.Midpoint();
    forall x
      ensures Halves(m, id, x) <==> x == mid
    {
      MiddleIs(width, b, id, x);
    }
    AddNodes(b, id, peer);
    HoldsNode(b, mid);
    HoldsNode(Add(b, id, peer).0, mid);
    assert MiddleFree(b, id, m) <==> mid != id && !b.Holds(mid);
  }

  lemma FirstFree(c: Config, b: KBucket, id: Id, peer: Peer)
    requires c.Valid() && IsBlock(c.width, b) && b.Covers(id) && b.size == c.size && b.depth < c.width
    requires b.WellFormed() && b.InRange() && !Add(b, id, peer).1 && MaySplit(c, b)
    ensures FreeAt(c, b, id, b.depth) <==> !Add(b, id, peer).0.Holds(b.Midpoint())
  {
    RefusedIff(c.width, b, id, peer);
    MaySplitIff(c, b, id);
    FirstMiddle(c.width, b, id, peer);
  }

  lemma LaterFree(c: Config, b: KBucket, id: Id, peer: Peer, d: nat)
    requires c.Valid() && IsBlock(c.width, b) && b.Covers(id) && b.size == c.size && d != b.depth
    requires b.WellFormed() && !Add(b, id, peer).1 && MaySplit(c, b) && !Add(b, id, peer).0.Holds(b.Midpoint())
    ensures FreeAt(c, b, id, d) <==> FreeAt(c, OwnHalf(b, id, peer), id, d)
  {
    if b.depth < d < c.width {
      HalfSplitsAt(c, b, id, peer, d);
      HalfMiddle(c.width, b, id, peer, d);
    }
  }

  /** One level of the descent. */
  lemma HalfFree(c: Config, b: KBucket, id: Id, peer: Peer)
    requires c.Valid() && IsBlock(c.width, b) && b.Covers(id) && b.size == c.size && b.depth < c.width
    requires b.WellFormed() && b.InRange() && !Add(b, id, peer).1 && MaySplit(c, b)
    ensures SplitsFree(c, b, id) <==>
            !Add(b, id, peer).0.Holds(b.Midpoint()) && SplitsFree(c, OwnHalf(b, id, peer), id)
  {
    FirstFree(c, b, id, peer);
    if !Add(b, id, peer).0.Holds(b.Midpoint()) {
      forall d: nat | d != b.depth
        ensures FreeAt(c, b, id, d) <==> FreeAt(c, OwnHalf(b, id, peer), id, d)
      {
        LaterFree(c, b, id, peer, d);
      }
    }
  }

  lemma {:induction false} NearGrows(nodes: seq<Node>, id: Id, m: nat, n: nat)
    requires m <= n
    ensures Near(nodes, id, m) <= Near(nodes, id, n)
  {
    if nodes != [] {
      Pow2Grows(m, n);
      NearGrows(nodes[1..], id, m, n);
    }
  }

  /** A bucket that the insertion leaves whole is split at no depth. */
  lemma NotSplit(c: Config, b: KBucket, id: Id, peer: Peer, d: nat)
    requires c.Valid() && IsBlock(c.width, b) && b.Covers(id) && b.size == c.size
    requires b.WellFormed() && b.InRange()
    requires Add(b, id, peer).1 || !MaySplit(c, b) || b.depth == c.width
    ensures !SplitsAt(c, b, id, d)
  {
    RefusedIff(c.width, b, id, peer);
    MaySplitIff(c, b, id);
    if b.depth <= d < c.width {
      NearGrows(b.Nodes(), id, c.width - d, c.width - b.depth);
      assert SplitsDown(c, id, b.depth, d) ==> SplitsDown(c, id, b.depth, b.depth);
    }
  }

  // ----- the whole insertion

  lemma DescendFree(c: Config, t: Table, id: Id, peer: Peer)
    requires c.Valid() && WellFormed(c, t) && InRange(t) && id < Pow2(c.width) && Descends(c, t, id, peer)
    ensures var bs, bs' := t.buckets, Descended(t, id, peer).buckets;
            var b := FirstStep(t, id, peer).0.buckets[IndexOf(bs, id)];
            bs' != [] &&
            (SplitsFree(c, bs[IndexOf(bs, id)], id) <==>
             !b.Holds(b.Midpoint()) && SplitsFree(c, bs'[IndexOf(bs', id)], id))
  {
    FirstStepTiling(c, t, id, peer);
    IndexCovers(c.width, t.buckets, id);
    SplitDescends(c.width, FirstStep(t, id, peer).0.buckets, id);
    HalfFree(c, t.buckets[IndexOf(t.buckets, id)], id, peer);
  }

  lemma StopFree(c: Config, t: Table, id: Id, peer: Peer)
    requires c.Valid() && WellFormed(c, t) && InRange(t) && id < Pow2(c.width) && !Descends(c, t, id, peer)
    ensures SplitsCleanly(c, t, id, peer) && SplitsFree(c, t.buckets[IndexOf(t.buckets, id)], id)
  {
    var b := t.buckets[IndexOf(t.buckets, id)];
    FirstStepTiling(c, t, id, peer);
    IndexCovers(c.width, t.buckets, id);
    SplitBlock(c.width, Add(b, id, peer).0);
    forall d: nat
      ensures FreeAt(c, b, id, d)
    {
      NotSplit(c, b, id, peer, d);
    }
  }

  /** An insertion splits cleanly exactly if none of the blocks it splits around the id has the id
      or a held id in the middle. */
  lemma {:induction false} SplitsCleanlyIff(c: Config, t: Table, id: Id, peer: Peer)
    requires c.Valid() && WellFormed(c, t) && InRange(t) && id < Pow2(c.width)
    ensures SplitsCleanly(c, t, id, peer) <==> SplitsFree(c, t.buckets[IndexOf(t.buckets, id)], id)
    decreases c.width - t.buckets[IndexOf(t.buckets, id)].depth
  {
    if Descends(c, t, id, peer) {
      InsertDescends(c, t, id, peer);
      FirstStepInRange(c, t, id, peer);
      DescendInRange(c, t, id, peer);
      DescendFree(c, t, id, peer);
      if InRange(Descended(t, id, peer)) {
        SplitsCleanlyIff(c, Descended(t, id, peer), id, peer);
      }
    } else {
      StopFree(c, t, id, peer);
    }
  }

  /** A consistent table stays consistent exactly if the insertion meets no id in the middle of a
      block that it splits. */
  lemma InsertConsistentIff(c: Config, t: Table, id: Id, peer: Peer)
    requires c.Valid() && Consistent(c, t) && id < Pow2(c.width)
    ensures Consistent(c, Insert(c, t, id, peer).table) <==> SplitsFree(c, t.buckets[IndexOf(t.buckets, id)], id)
  {
    InsertConsistent(c, t, id, peer);
    SplitsCleanlyIff(c, t, id, peer);
  }
}
