/**
 The ping marks of the routing table over whole runs: which nodes are marked as being pinged, told
 by what the insertions of the run returned.
 */
module TablePings {
  import opened Collections
  import opened Arithmetic
  import opened XorMetric
  import opened Ranking
  import opened KBuckets
  import opened Tables
  import opened TableRuns

  /** Both buckets are for the same block of ids. A split ends a block for good. */
  ghost predicate SameBlock(b: KBucket, b': KBucket) {
    b.lower == b'.lower && b.upper == b'.upper && b.depth == b'.depth
  }

  /** The id is marked in the bucket for this block, if there is one. */
  ghost predicate Marked(bs: seq<KBucket>, b: KBucket, x: Id) {
    exists k :: 0 <= k < |bs| && SameBlock(bs[k], b) && x in bs[k].pinged
  }

  /** The operation returns this node of the bucket for a ping. */
  ghost predicate Returns(c: Config, t: Table, op: Op, b: KBucket, x: Id)
    requires c.Valid() && Tiling(c.width, t.buckets) && op.id < Pow2(c.width)
  {
    op.Update? &&
    var r := Insert(c, t, op.id, op.peer);
    && r.Full? && r.toPing.Some? && r.toPing.value.id == x
    && r.table.buckets != [] && SameBlock(r.table.buckets[IndexOf(r.table.buckets, op.id)], b)
  }

  /** The operation updates this node of the bucket. */
  predicate Renews(op: Op, b: KBucket, x: Id) {
    op.Update? && op.id == x && b.Covers(x)
  }

  // ----- one insertion

  /** Blocks of one depth around an id are the same. */
  lemma OneBlock(width: nat, b: KBucket, b': KBucket, id: Id)
    requires IsBlock(width, b) && IsBlock(width, b') && b.depth == b'.depth && b.Covers(id) && b'.Covers(id)
    ensures SameBlock(b, b')
  {
    var m := width - b.depth;
    if b.lower < b'.lower {
      AlignedGap(m, b.lower, b'.lower);
    } else if b'.lower < b.lower {
      AlignedGap(m, b'.lower, b.lower);
    }
  }

  /** A tiling has at most one bucket for a block. */
  lemma {:induction false} MarkedThere(width: nat, bs: seq<KBucket>, i: nat, b: KBucket, x: Id)
    requires Tiling(width, bs) && i < |bs| && SameBlock(bs[i], b)
    ensures Marked(bs, b, x) <==> x in bs[i].pinged
  {
    forall k | 0 <= k < |bs| && SameBlock(bs[k], b)
      ensures k == i
    {
      assert IsBlock(width, bs[i]) && IsBlock(width, bs[k]);
      if k < i {
        TilingOrdered(width, bs, k, i);
      } else if i < k {
        TilingOrdered(width, bs, i, k);
      }
    }
  }

  /** No bucket of the tiling is for a block that covers the id at another depth than its own. */
  lemma {:induction false} NotMarked(width: nat, bs: seq<KBucket>, b: KBucket, id: Id, x: Id)
    requires Tiling(width, bs) && id < Pow2(width) && b.Covers(id) && b.depth != bs[IndexOf(bs, id)].depth
    ensures !Marked(bs, b, x)
  {
    IndexCovers(width, bs, id);
  }

  /** A bucket other than the one for the id is as before, or is a half that a split left over. */
  ghost predicate LeftAlone(bs: seq<KBucket>, b: KBucket, id: Id)
    requires bs != []
  {
    b in bs || (b.pinged == {} && bs[IndexOf(bs, id)].Covers(b.lower))
  }

  lemma {:induction false} InsertOthers(c: Config, t: Table, id: Id, peer: Peer, k: nat)
    requires c.Valid() && WellFormed(c, t) && id < Pow2(c.width)
    requires k < |Insert(c, t, id, peer).table.buckets| && !Insert(c, t, id, peer).table.buckets[k].Covers(id)
    ensures LeftAlone(t.buckets, Insert(c, t, id, peer).table.buckets[k], id)
    decreases c.width - t.buckets[IndexOf(t.buckets, id)].depth
  {
    FirstStepTiling(c, t, id, peer);
    IndexCovers(c.width, t.buckets, id);
    if Descends(c, t, id, peer) {
      InsertDescends(c, t, id, peer);
      DescendShape(c, t, id, peer);
      InsertOthers(c, Descended(t, id, peer), id, peer, k);
      DescendOthers(c, t, id, peer, Insert(c, t, id, peer).table.buckets[k]);
    } else {
      StopOthers(c, t, id, peer, k);
    }
  }

  lemma StopOthers(c: Config, t: Table, id: Id, peer: Peer, k: nat)
    requires c.Valid() && WellFormed(c, t) && id < Pow2(c.width) && !Descends(c, t, id, peer)
    requires k < |Insert(c, t, id, peer).table.buckets| && k != IndexOf(t.buckets, id)
    ensures Insert(c, t, id, peer).table.buckets[k] in t.buckets
  {
    FirstStepTiling(c, t, id, peer);
    SplitBlock(c.width, FirstStep(t, id, peer).0.buckets[IndexOf(t.buckets, id)]);
  }

  lemma SplitOthers(bs: seq<KBucket>, i: nat, b: KBucket)
    requires i < |bs| && b in SplitAt(bs, i)
    ensures b == Half(bs[i], true) || b == Half(bs[i], false) || exists j :: 0 <= j < |bs| && j != i && bs[j] == b
  {
    var r := SplitAt(bs, i);
    var j :| 0 <= j < |r| && r[j] == b;
    if j < i {
      assert bs[j] == b;
    } else if j > i + 1 {
      assert bs[j - 1] == b;
    }
  }

  lemma HalfInside(width: nat, b: KBucket, left: bool, y: Id)
    requires IsBlock(width, b) && b.depth < width
    ensures Half(b, left).pinged == {} && b.Covers(Half(b, left).lower) && (Half(b, left).Covers(y) ==> b.Covers(y))
  {
    SplitBlock(width, b);
  }

  lemma {:induction false} DescendOthers(c: Config, t: Table, id: Id, peer: Peer, b: KBucket)
    requires c.Valid() && WellFormed(c, t) && id < Pow2(c.width) && Descends(c, t, id, peer)
    requires Descended(t, id, peer).buckets != [] && LeftAlone(Descended(t, id, peer).buckets, b, id)
    ensures LeftAlone(t.buckets, b, id)
  {
    var i := IndexOf(t.buckets, id);
    var bs := FirstStep(t, id, peer).0.buckets;
    FirstStepTiling(c, t, id, peer);
    SplitDescends(c.width, bs, id);
    HalfInside(c.width, bs[i], true, b.lower);
    HalfInside(c.width, bs[i], false, b.lower);
    if b in SplitAt(bs, i) {
      SplitOthers(bs, i, b);
      if j :| 0 <= j < |bs| && j != i && bs[j] == b {
        assert t.buckets[j] == b;
      }
    }
  }

  /** What one insertion does to the marks, bucket by bucket: the node returned is marked, the node
      updated is not, and in a bucket for the same block the others are as they were. */
  lemma {:induction false} InsertMarks(c: Config, t: Table, id: Id, peer: Peer, k: nat, x: Id)
    requires c.Valid() && WellFormed(c, t) && id < Pow2(c.width)
    requires k < |Insert(c, t, id, peer).table.buckets|
    ensures var b, op := Insert(c, t, id, peer).table.buckets[k], Update(id, peer);
            x in b.pinged <==> Returns(c, t, op, b, x) || (Marked(t.buckets, b, x) && !Renews(op, b, x))
  {
    var bs := Insert(c, t, id, peer).table.buckets;
    InsertKeepsShape(c, t, id, peer);
    IndexCovers(c.width, bs, id);
    IndexCovers(c.width, t.buckets, id);
    if bs[k].Covers(id) {
      CoverMarks(c, t, id, peer, x);
    } else {
      InsertOthers(c, t, id, peer, k);
      OtherMarks(c, t, id, bs[k], x);
    }
  }

  lemma CoverMarks(c: Config, t: Table, id: Id, peer: Peer, x: Id)
    requires c.Valid() && WellFormed(c, t) && id < Pow2(c.width)
    requires WellFormed(c, Insert(c, t, id, peer).table)
    ensures var bs, op := Insert(c, t, id, peer).table.buckets, Update(id, peer);
            var b := bs[IndexOf(bs, id)];
            x in b.pinged <==> Returns(c, t, op, b, x) || (Marked(t.buckets, b, x) && !Renews(op, b, x))
  {
    var i, bs := IndexOf(t.buckets, id), Insert(c, t, id, peer).table.buckets;
    var b := bs[IndexOf(bs, id)];
    InsertOutcome(c, t, id, peer);
    IndexCovers(c.width, bs, id);
    IndexCovers(c.width, t.buckets, id);
    if b.depth == t.buckets[i].depth {
      OneBlock(c.width, t.buckets[i], b, id);
      MarkedThere(c.width, t.buckets, i, b, x);
    } else {
      NotMarked(c.width, t.buckets, b, id, x);
    }
  }

  lemma OtherMarks(c: Config, t: Table, id: Id, b: KBucket, x: Id)
    requires Tiling(c.width, t.buckets) && id < Pow2(c.width) && !b.Covers(id) && LeftAlone(t.buckets, b, id)
    ensures Marked(t.buckets, b, x) <==> x in b.pinged
  {
    IndexCovers(c.width, t.buckets, id);
    if b in t.buckets {
      var k :| 0 <= k < |t.buckets| && t.buckets[k] == b;
      MarkedThere(c.width, t.buckets, k, b, x);
    } else {
      forall k | 0 <= k < |t.buckets| && SameBlock(t.buckets[k], b)
        ensures false
      {
        BlockInSpace(c.width, t.buckets, k);
        IndexCovers(c.width, t.buckets, b.lower);
        assert false;
      }
    }
  }

  lemma BlockInSpace(width: nat, bs: seq<KBucket>, k: nat)
    requires Tiling(width, bs) && k < |bs|
    ensures bs[k].Covers(bs[k].lower) && bs[k].lower < Pow2(width)
  {
    assert IsBlock(width, bs[k]);
    if k < |bs| - 1 {
      TilingOrdered(width, bs, k, |bs| - 1);
      assert IsBlock(width, bs[|bs| - 1]);
    }
  }

  /** A deletion leaves all marks. */
  lemma RemoveMarks(c: Config, t: Table, id: Id, k: nat, x: Id)
    requires WellFormed(c, t) && id < Pow2(c.width) && k < |Remove(t, id).0.buckets|
    ensures x in Remove(t, id).0.buckets[k].pinged <==> Marked(t.buckets, Remove(t, id).0.buckets[k], x)
  {
    MarkedThere(c.width, t.buckets, k, Remove(t, id).0.buckets[k], x);
  }

  // ----- whole runs

  lemma {:induction false} AfterThen(c: Config, t: Table, ops: seq<Op>, op: Op)
    requires c.Valid() && WellFormed(c, t) && InSpace(c, ops) && InSpace(c, ops + [op]) && op.id < Pow2(c.width)
    ensures After(c, t, ops + [op]) == Apply(c, After(c, t, ops), op)
    decreases ops
  {
    var more := ops + [op];
    if ops == [] {
      assert more[1..] == [];
    } else {
      ApplyShape(c, t, ops[0]);
      assert more[1..] == ops[1..] + [op];
      AfterThen(c, Apply(c, t, ops[0]), ops[1..], op);
    }
  }

  ghost predicate Present(bs: seq<KBucket>, b: KBucket) {
    exists k :: 0 <= k < |bs| && SameBlock(bs[k], b)
  }

  /** Ever since the i-th operation there has been a bucket for the block. */
  ghost predicate Persists(c: Config, ops: seq<Op>, b: KBucket, i: nat)
    requires c.Valid() && WellFormed(c, Empty(c)) && InSpace(c, ops)
  {
    forall j :: i < j <= |ops| ==> Present(After(c, Empty(c), ops[..j]).buckets, b)
  }

  /** The i-th operation returned the node for a ping, and since then no operation has updated the
      node or split the bucket. */
  ghost predicate PingedAt(c: Config, ops: seq<Op>, b: KBucket, x: Id, i: nat)
    requires c.Valid() && WellFormed(c, Empty(c)) && InSpace(c, ops)
  {
    && i < |ops|
    && Returns(c, After(c, Empty(c), ops[..i]), ops[i], b, x)
    && (forall j :: i < j < |ops| ==> !Renews(ops[j], b, x))
    && Persists(c, ops, b, i)
  }

  lemma {:induction false} PersistsOn(c: Config, ops: seq<Op>, op: Op, b: KBucket, i: nat)
    requires c.Valid() && WellFormed(c, Empty(c)) && InSpace(c, ops) && InSpace(c, ops + [op])
    requires Present(After(c, Empty(c), ops + [op]).buckets, b)
    ensures Persists(c, ops + [op], b, i) <==> Persists(c, ops, b, i)
  {
    var more := ops + [op];
    assert more[..|more|] == more;
    assert forall j :: 0 <= j <= |ops| ==> more[..j] == ops[..j];
  }

  lemma {:induction false} PersistsNow(c: Config, ops: seq<Op>, b: KBucket, i: nat)
    requires c.Valid() && WellFormed(c, Empty(c)) && InSpace(c, ops)
    requires Present(After(c, Empty(c), ops).buckets, b) && |ops| == i + 1
    ensures Persists(c, ops, b, i)
  {
    assert ops[..|ops|] == ops;
  }

  lemma {:induction false} PingedAtEnd(c: Config, ops: seq<Op>, op: Op, b: KBucket, x: Id)
    requires c.Valid() && WellFormed(c, Empty(c)) && InSpace(c, ops) && InSpace(c, ops + [op])
    requires Present(After(c, Empty(c), ops + [op]).buckets, b) && op.id < Pow2(c.width)
    ensures PingedAt(c, ops + [op], b, x, |ops|) <==> Returns(c, After(c, Empty(c), ops), op, b, x)
  {
    var more := ops + [op];
    PersistsNow(c, more, b, |ops|);
    assert more[..|ops|] == ops && more[|ops|] == op;
  }

  lemma {:induction false} PingedAtBefore(c: Config, ops: seq<Op>, op: Op, b: KBucket, x: Id, i: nat)
    requires c.Valid() && WellFormed(c, Empty(c)) && InSpace(c, ops) && InSpace(c, ops + [op])
    requires Present(After(c, Empty(c), ops + [op]).buckets, b) && i < |ops|
    ensures PingedAt(c, ops + [op], b, x, i) <==> PingedAt(c, ops, b, x, i) && !Renews(op, b, x)
  {
    var more := ops + [op];
    PersistsOn(c, ops, op, b, i);
    assert more[|ops|] == op && more[..i] == ops[..i];
    assert forall j :: 0 <= j < |ops| ==> more[j] == ops[j];
  }

  lemma {:induction false} ApplyMarks(c: Config, t: Table, op: Op, k: nat, x: Id)
    requires c.Valid() && WellFormed(c, t) && op.id < Pow2(c.width) && k < |Apply(c, t, op).buckets|
    ensures var b := Apply(c, t, op).buckets[k];
            x in b.pinged <==> Returns(c, t, op, b, x) || (Marked(t.buckets, b, x) && !Renews(op, b, x))
  {
    match op {
      case Update(id, peer) => InsertMarks(c, t, id, peer, k, x);
      case Forget(id) => RemoveMarks(c, t, id, k, x);
    }
  }

  lemma {:induction false} LastMarks(c: Config, ops: seq<Op>, op: Op, b: KBucket, x: Id)
    requires c.Valid() && WellFormed(c, Empty(c)) && InSpace(c, ops) && InSpace(c, ops + [op])
    requires Present(After(c, Empty(c), ops + [op]).buckets, b) && op.id < Pow2(c.width)
    ensures (exists i: nat :: PingedAt(c, ops + [op], b, x, i)) <==>
            || Returns(c, After(c, Empty(c), ops), op, b, x)
            || ((exists i: nat :: PingedAt(c, ops, b, x, i)) && !Renews(op, b, x))
  {
    PingedAtEnd(c, ops, op, b, x);
    forall i: nat | i < |ops|
      ensures PingedAt(c, ops + [op], b, x, i) <==> PingedAt(c, ops, b, x, i) && !Renews(op, b, x)
    {
      PingedAtBefore(c, ops, op, b, x, i);
    }
  }

  /** Only the block of the bucket matters. */
  lemma {:induction false} PingedSame(c: Config, ops: seq<Op>, b: KBucket, b': KBucket, x: Id, i: nat)
    requires c.Valid() && WellFormed(c, Empty(c)) && InSpace(c, ops) && SameBlock(b, b') && PingedAt(c, ops, b, x, i)
    ensures PingedAt(c, ops, b', x, i)
  {
    assert Persists(c, ops, b', i) by {
      forall j | i < j <= |ops|
        ensures Present(After(c, Empty(c), ops[..j]).buckets, b')
      {
        assert Present(After(c, Empty(c), ops[..j]).buckets, b);
      }
    }
    assert forall j :: i < j < |ops| ==> Renews(ops[j], b, x) == Renews(ops[j], b', x);
  }

  lemma {:induction false} PingedPresent(c: Config, ops: seq<Op>, b: KBucket, x: Id, i: nat)
    requires c.Valid() && WellFormed(c, Empty(c)) && InSpace(c, ops)
    ensures PingedAt(c, ops, b, x, i) ==> Present(After(c, Empty(c), ops).buckets, b)
  {
    assert ops[..|ops|] == ops;
  }

  lemma {:induction false} MarkedBefore(c: Config, ops: seq<Op>, b: KBucket, x: Id)
    requires c.Valid() && WellFormed(c, Empty(c)) && InSpace(c, ops)
    ensures Marked(After(c, Empty(c), ops).buckets, b, x) <==> exists i: nat :: PingedAt(c, ops, b, x, i)
    decreases |ops|, 1
  {
    var bs := After(c, Empty(c), ops).buckets;
    assert ops[..|ops|] == ops;
    if k :| 0 <= k < |bs| && SameBlock(bs[k], b) {
      MarkedThere(c.width, bs, k, b, x);
      RunMarks(c, ops, k, x);
      if x in bs[k].pinged {
        var i: nat :| PingedAt(c, ops, bs[k], x, i);
        PingedSame(c, ops, bs[k], b, x, i);
      } else if i: nat :| PingedAt(c, ops, b, x, i) {
        PingedSame(c, ops, b, bs[k], x, i);
        assert false;
      }
    } else {
      forall i: nat
        ensures !PingedAt(c, ops, b, x, i)
      {
        PingedPresent(c, ops, b, x, i);
      }
    }
  }

  /** In every run, whatever its operations: a node is marked in a bucket exactly if some insertion
      returned it for a ping, and since then no operation has updated it or split the bucket. */
  lemma {:induction false} RunMarks(c: Config, ops: seq<Op>, k: nat, x: Id)
    requires c.Valid() && WellFormed(c, Empty(c)) && InSpace(c, ops) && k < |After(c, Empty(c), ops).buckets|
    ensures var b := After(c, Empty(c), ops).buckets[k];
            x in b.pinged <==> exists i: nat :: PingedAt(c, ops, b, x, i)
    decreases |ops|, 0
  {
    if ops != [] {
      var init, op := ops[..|ops| - 1], ops[|ops| - 1];
      assert ops == init + [op];
      AfterThen(c, Empty(c), init, op);
      ApplyMarks(c, After(c, Empty(c), init), op, k, x);
      var b := After(c, Empty(c), ops).buckets[k];
      MarkedBefore(c, init, b, x);
      LastMarks(c, init, op, b, x);
    }
  }
}
