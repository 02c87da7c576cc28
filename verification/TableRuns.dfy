/**
 What every run of routing table operations keeps, whether or not an id was misplaced on the way,
 and exactly when the "bucket too small" assertion fails and when the lookup is a plain dictionary.
 */
module TableRuns {
  import opened Collections
  import opened Arithmetic
  import opened XorMetric
  import opened Ranking
  import opened KBuckets
  import opened Tables
  import opened TableSplits

  // ----- every table that can be reached

  /** What every operation keeps, misplaced ids or not: the shape, ids in range or just past it, a
      lookup that lists the nodes held in the bucket that covers them, and lists only held nodes. */
  ghost predicate Sound(c: Config, t: Table) {
    WellFormed(c, t) && Snug(t) && CoveredListed(t) && ListedKept(t)
  }

  ghost predicate Snug(t: Table) {
    forall i :: 0 <= i < |t.buckets| ==> t.buckets[i].Snug()
  }

  ghost predicate CoveredListed(t: Table) {
    forall i, n: Node :: 0 <= i < |t.buckets| && n in t.buckets[i].Nodes() && t.buckets[i].Covers(n.id) ==>
      n.id in t.uidToPeer && t.uidToPeer[n.id] == n.peer
  }

  ghost predicate ListedKept(t: Table) {
    forall k :: k in t.uidToPeer ==> Kept(t.buckets, Node(k, t.uidToPeer[k]))
  }

  lemma ConsistentIsSound(c: Config, t: Table)
    requires Consistent(c, t)
    ensures Sound(c, t)
  {
    forall i, n: Node | 0 <= i < |t.buckets| && n in t.buckets[i].Nodes()
      ensures n.id in t.uidToPeer && t.uidToPeer[n.id] == n.peer
    {
      assert Kept(t.buckets, n);
    }
  }

  lemma FirstStepSound(c: Config, t: Table, id: Id, peer: Peer)
    requires Sound(c, t) && id < Pow2(c.width)
    ensures Sound(c, FirstStep(t, id, peer).0)
  {
    FirstStepShape(c, t, id, peer);
    FirstStepSnug(c, t, id, peer);
    FirstStepListed(c, t, id, peer);
    FirstStepKeptListed(c, t, id, peer);
  }

  /** The updated bucket, and the buckets that an insertion leaves alone. */
  lemma FirstStepBuckets(c: Config, t: Table, id: Id, peer: Peer)
    requires WellFormed(c, t) && id < Pow2(c.width)
    ensures var i, t' := IndexOf(t.buckets, id), FirstStep(t, id, peer).0;
            && t'.buckets == t.buckets[i := t'.buckets[i]]
            && (forall n :: n in t'.buckets[i].Nodes() <==>
                            n == Node(id, peer) || (n in t.buckets[i].Nodes() && n.id != id))
            && t'.buckets[i].lower == t.buckets[i].lower && t'.buckets[i].upper == t.buckets[i].upper
            && t'.uidToPeer == t.uidToPeer[id := peer]
            && (forall j :: 0 <= j < |t.buckets| ==> (t.buckets[j].Covers(id) <==> j == i))
  {
    AddNodes(t.buckets[IndexOf(t.buckets, id)], id, peer);
    IndexCovers(c.width, t.buckets, id);
  }

  lemma FirstStepSnug(c: Config, t: Table, id: Id, peer: Peer)
    requires WellFormed(c, t) && Snug(t) && id < Pow2(c.width)
    ensures Snug(FirstStep(t, id, peer).0)
  {
    FirstStepBuckets(c, t, id, peer);
  }

  lemma FirstStepListed(c: Config, t: Table, id: Id, peer: Peer)
    requires WellFormed(c, t) && CoveredListed(t) && id < Pow2(c.width)
    ensures CoveredListed(FirstStep(t, id, peer).0)
  {
    FirstStepBuckets(c, t, id, peer);
    var t' := FirstStep(t, id, peer).0;
    forall j, n: Node | 0 <= j < |t'.buckets| && n in t'.buckets[j].Nodes() && t'.buckets[j].Covers(n.id)
      ensures n.id in t'.uidToPeer && t'.uidToPeer[n.id] == n.peer
    {
      if n != Node(id, peer) {
        assert n in t.buckets[j].Nodes() && t.buckets[j].Covers(n.id);
      }
    }
  }

  lemma FirstStepKeptListed(c: Config, t: Table, id: Id, peer: Peer)
    requires WellFormed(c, t) && ListedKept(t) && id < Pow2(c.width)
    ensures ListedKept(FirstStep(t, id, peer).0)
  {
    FirstStepBuckets(c, t, id, peer);
    var i, t' := IndexOf(t.buckets, id), FirstStep(t, id, peer).0;
    KeptAfterUpdate(t.buckets, i, t'.buckets[i]);
    forall k | k in t'.uidToPeer
      ensures Kept(t'.buckets, Node(k, t'.uidToPeer[k]))
    {
      if k != id {
        assert Kept(t.buckets, Node(k, t.uidToPeer[k]));
      }
    }
  }

  lemma SplitSound(c: Config, t: Table, i: nat)
    requires Sound(c, t) && i < |t.buckets| && t.buckets[i].depth < c.width
    ensures Sound(c, t.(buckets := SplitAt(t.buckets, i)))
  {
    SplitShape(c, t, i);
    SplitSnug(c, t, i);
    SplitListed(c, t, i);
    KeptAfterSplit(t.buckets, i);
  }

  lemma SplitSnug(c: Config, t: Table, i: nat)
    requires WellFormed(c, t) && Snug(t) && i < |t.buckets|
    ensures Snug(t.(buckets := SplitAt(t.buckets, i)))
  {
    var r := SplitAt(t.buckets, i);
    forall j | 0 <= j < |r|
      ensures r[j].Snug()
    {
      if j == i || j == i + 1 {
        HalfSnug(t.buckets[i], j == i);
      } else {
        assert t.buckets[if j < i then j else j - 1].Snug();
      }
    }
  }

  lemma HalfSnug(b: KBucket, left: bool)
    requires b.WellFormed() && b.Snug()
    ensures Half(b, left).Snug()
  {
    SplitNodes(b);
  }

  lemma SplitListed(c: Config, t: Table, i: nat)
    requires WellFormed(c, t) && CoveredListed(t) && i < |t.buckets| && t.buckets[i].depth < c.width
    ensures CoveredListed(t.(buckets := SplitAt(t.buckets, i)))
  {
    var r := SplitAt(t.buckets, i);
    SplitBlock(c.width, t.buckets[i]);
    SplitNodes(t.buckets[i]);
    forall j, n: Node | 0 <= j < |r| && n in r[j].Nodes() && r[j].Covers(n.id)
      ensures n.id in t.uidToPeer && t.uidToPeer[n.id] == n.peer
    {
      var k := if j <= i then j else j - 1;
      assert n in t.buckets[k].Nodes() && t.buckets[k].Covers(n.id);
    }
  }

  lemma PingSound(c: Config, t: Table, i: nat)
    requires Sound(c, t) && i < |t.buckets|
    ensures Sound(c, t.(buckets := t.buckets[i := RequestPing(t.buckets[i]).0]))
  {
    PingKeepsShape(c, t, i);
    PingListed(t, i);
  }

  lemma PingListed(t: Table, i: nat)
    requires Snug(t) && CoveredListed(t) && ListedKept(t) && i < |t.buckets|
    ensures var t' := t.(buckets := t.buckets[i := RequestPing(t.buckets[i]).0]);
            Snug(t') && CoveredListed(t') && ListedKept(t')
  {
    var b := RequestPing(t.buckets[i]).0;
    assert b.Nodes() == t.buckets[i].Nodes() && b.lower == t.buckets[i].lower && b.upper == t.buckets[i].upper;
    KeptSame(t.buckets, i, b);
  }

  lemma KeptSame(bs: seq<KBucket>, i: nat, b: KBucket)
    requires i < |bs| && b.Nodes() == bs[i].Nodes()
    ensures forall n :: Kept(bs, n) ==> Kept(bs[i := b], n)
  {
    forall n | Kept(bs, n)
      ensures Kept(bs[i := b], n)
    {
      var j :| 0 <= j < |bs| && n in bs[j].Nodes();
      assert n in bs[i := b][j].Nodes();
    }
  }

  /** Every insertion keeps the table sound. */
  lemma {:induction false} InsertSound(c: Config, t: Table, id: Id, peer: Peer)
    requires c.Valid() && Sound(c, t) && id < Pow2(c.width)
    ensures Sound(c, Insert(c, t, id, peer).table)
    decreases c.width - t.buckets[IndexOf(t.buckets, id)].depth
  {
    FirstStepSound(c, t, id, peer);
    FirstStepTiling(c, t, id, peer);
    if Descends(c, t, id, peer) {
      InsertDescends(c, t, id, peer);
      SplitSound(c, FirstStep(t, id, peer).0, IndexOf(t.buckets, id));
      InsertSound(c, Descended(t, id, peer), id, peer);
    } else {
      SplitBlock(c.width, FirstStep(t, id, peer).0.buckets[IndexOf(t.buckets, id)]);
      PingSound(c, FirstStep(t, id, peer).0, IndexOf(t.buckets, id));
    }
  }

  // ----- when the "bucket too small" assertion fails

  /** Buckets of one node, of which this one, for the id, holds the next id and has not the id live. */
  ghost predicate Doomed(c: Config, b: KBucket, id: Id)
    requires c.modulo >= 1
  {
    c.size == 1 && b.Holds(id + 1) && !HasId(b.live, id) && SplitsDown(c, id, b.depth, c.width)
  }

  /** An insertion fails the assertion exactly if the bucket that covers the id is doomed. */
  lemma {:induction false} TooSmallIff(c: Config, t: Table, id: Id, peer: Peer)
    requires c.Valid() && WellFormed(c, t) && Snug(t) && id < Pow2(c.width)
    ensures Insert(c, t, id, peer).TooSmall? <==> Doomed(c, t.buckets[IndexOf(t.buckets, id)], id)
    decreases c.width - t.buckets[IndexOf(t.buckets, id)].depth
  {
    if Descends(c, t, id, peer) {
      InsertDescends(c, t, id, peer);
      DescendSnug(c, t, id, peer);
      TooSmallIff(c, Descended(t, id, peer), id, peer);
      DescendDoomed(c, t, id, peer);
    } else {
      StopTooSmall(c, t, id, peer);
    }
  }

  lemma DescendDoomed(c: Config, t: Table, id: Id, peer: Peer)
    requires c.Valid() && WellFormed(c, t) && id < Pow2(c.width) && Descends(c, t, id, peer)
    ensures var bs, bs' := t.buckets, Descended(t, id, peer).buckets;
            bs' != [] && (Doomed(c, bs[IndexOf(bs, id)], id) <==> Doomed(c, bs'[IndexOf(bs', id)], id))
  {
    FirstStepTiling(c, t, id, peer);
    IndexCovers(c.width, t.buckets, id);
    SplitDescends(c.width, FirstStep(t, id, peer).0.buckets, id);
    HalfDoomed(c, t.buckets[IndexOf(t.buckets, id)], id, peer);
  }

  lemma DescendSnug(c: Config, t: Table, id: Id, peer: Peer)
    requires c.Valid() && WellFormed(c, t) && Snug(t) && id < Pow2(c.width) && Descends(c, t, id, peer)
    ensures WellFormed(c, Descended(t, id, peer)) && Snug(Descended(t, id, peer))
  {
    FirstStepShape(c, t, id, peer);
    FirstStepSnug(c, t, id, peer);
    SplitShape(c, FirstStep(t, id, peer).0, IndexOf(t.buckets, id));
    SplitSnug(c, FirstStep(t, id, peer).0, IndexOf(t.buckets, id));
  }

  /** A split passes the doom on to the half that covers the id. */
  lemma HalfDoomed(c: Config, b: KBucket, id: Id, peer: Peer)
    requires c.Valid() && b.WellFormed() && b.size == c.size && IsBlock(c.width, b) && b.Covers(id)
    requires b.depth < c.width && !Add(b, id, peer).1 && MaySplit(c, b)
    ensures var b' := Add(b, id, peer).0; Doomed(c, b, id) <==> Doomed(c, Half(b', id < b'.Midpoint()), id)
  {
    MaySplitIff(c, b, id);
    NextStays(b, id, peer);
    if c.size == 1 && b.Holds(id + 1) {
      HalfLive(b, id, peer);
    }
  }

  /** The next id always goes the way of the id's own half. */
  lemma NextStays(b: KBucket, id: Id, peer: Peer)
    requires b.WellFormed()
    ensures var b' := Add(b, id, peer).0; Half(b', id < b'.Midpoint()).Holds(id + 1) <==> b.Holds(id + 1)
  {
    var b' := Add(b, id, peer).0;
    AddNodes(b, id, peer);
    SplitNodes(b');
    HoldsNode(b, id + 1);
    HoldsNode(Half(b', id < b'.Midpoint()), id + 1);
  }

  /** In a one-node half, a node that was refused is not live if the next id is held. */
  lemma HalfLive(b: KBucket, id: Id, peer: Peer)
    requires b.WellFormed() && b.size == 1 && b.Holds(id + 1) && !Add(b, id, peer).1
    ensures var b' := Add(b, id, peer).0; !HasId(Half(b', id < b'.Midpoint()).live, id)
  {
    var b' := Add(b, id, peer).0;
    var before := b.live + DropId(b.replacements, id);
    assert b'.Nodes() == before + [Node(id, peer)];
    HoldsNode(b, id + 1);
    var n :| n in b.Nodes() && n.id == id + 1;
    FirstOfSide(before, Node(id, peer), n, b'.Midpoint(), id < b'.Midpoint());
  }

  lemma FirstOfSide(before: seq<Node>, last: Node, n: Node, mid: nat, left: bool)
    requires n in before && (n.id <= mid) == left && !HasId(before, last.id)
    ensures var side := Side(before + [last], mid, left); side != [] && side[0].id != last.id
  {
    SideAppend(before, last, mid, left);
    SideNodes(before, mid, left);
    var first := Side(before, mid, left)[0];
    assert first in Side(before, mid, left);
  }

  lemma StopTooSmall(c: Config, t: Table, id: Id, peer: Peer)
    requires c.Valid() && WellFormed(c, t) && Snug(t) && id < Pow2(c.width) && !Descends(c, t, id, peer)
    ensures Insert(c, t, id, peer).TooSmall? <==> Doomed(c, t.buckets[IndexOf(t.buckets, id)], id)
  {
    var b := t.buckets[IndexOf(t.buckets, id)];
    FirstStepTiling(c, t, id, peer);
    IndexCovers(c.width, t.buckets, id);
    SplitBlock(c.width, Add(b, id, peer).0);
    DoomedAtEnd(c, b, id, peer);
  }

  /** A bucket that the insertion does not split is doomed exactly if it should have been. */
  lemma DoomedAtEnd(c: Config, b: KBucket, id: Id, peer: Peer)
    requires c.Valid() && IsBlock(c.width, b) && b.Covers(id) && b.WellFormed() && b.Snug() && b.size == c.size
    requires !(!Add(b, id, peer).1 && MaySplit(c, b) && b.depth < c.width)
    ensures Doomed(c, b, id) <==> !Add(b, id, peer).1 && MaySplit(c, b)
  {
    MaySplitIff(c, b, id);
    if Add(b, id, peer).1 {
      StoredNotDoomed(c, b, id, peer);
    } else if MaySplit(c, b) {
      SingleIdFull(c, b, id);
    }
  }

  lemma StoredNotDoomed(c: Config, b: KBucket, id: Id, peer: Peer)
    requires c.Valid() && b.WellFormed() && b.size == c.size && Add(b, id, peer).1
    ensures !Doomed(c, b, id)
  {
    assert b.live == [] ==> b.Nodes() == [];
  }

  /** A full bucket for the id alone that has not the id live is one node wide and holds the next id. */
  lemma SingleIdFull(c: Config, b: KBucket, id: Id)
    requires c.Valid() && IsBlock(c.width, b) && b.depth == c.width && b.Covers(id)
    requires b.WellFormed() && b.Snug() && |b.live| == b.size && !HasId(b.live, id)
    ensures b.size == 1 && b.Holds(id + 1)
  {
    assert b.lower == id && b.upper == id + 1;
    forall j | 0 <= j < |b.live|
      ensures b.live[j].id == id + 1
    {
      assert b.live[j] in b.Nodes();
    }
    assert b.live[0].id == id + 1;
    OneId(b.live, b.replacements, id + 1);
  }

  lemma OneId(live: seq<Node>, rest: seq<Node>, id: Id)
    requires DistinctIds(live + rest) && forall j :: 0 <= j < |live| ==> live[j].id == id
    ensures |live| <= 1
  {
    if |live| >= 2 {
      TwoIds(live, rest, id);
    }
  }

  lemma TwoIds(live: seq<Node>, rest: seq<Node>, id: Id)
    requires |live| >= 2 && DistinctIds(live + rest)
    ensures exists j :: 0 <= j < |live| && live[j].id != id
  {
    DistinctParts(live, rest);
    assert live[0].id != live[1].id;
  }

  // ----- deletion

  /** On every sound table a deletion keeps soundness and succeeds exactly if the bucket that covers
      the id holds it: the lookup never raises after the bucket. */
  lemma RemoveSound(c: Config, t: Table, id: Id)
    requires Sound(c, t) && id < Pow2(c.width)
    ensures Sound(c, Remove(t, id).0)
    ensures Remove(t, id).1 <==> t.buckets[IndexOf(t.buckets, id)].Holds(id)
  {
    RemoveMeaning(c, t, id);
    RemoveSnug(c, t, id);
    RemoveListed(c, t, id);
  }

  lemma RemoveSnug(c: Config, t: Table, id: Id)
    requires WellFormed(c, t) && Snug(t) && id < Pow2(c.width)
    ensures Snug(Remove(t, id).0)
  {
    RemoveMeaning(c, t, id);
  }

  lemma RemoveListed(c: Config, t: Table, id: Id)
    requires WellFormed(c, t) && CoveredListed(t) && ListedKept(t) && id < Pow2(c.width)
    ensures CoveredListed(Remove(t, id).0) && ListedKept(Remove(t, id).0)
    ensures Remove(t, id).1 <==> t.buckets[IndexOf(t.buckets, id)].Holds(id)
  {
    var i := IndexOf(t.buckets, id);
    var t' := Remove(t, id).0;
    RemoveMeaning(c, t, id);
    HoldsNode(t.buckets[i], id);
    IndexCovers(c.width, t.buckets, id);
    if Remove(t, id).1 {
      StillListed(t, t', i, id);
      StillKept(t, t', i, id);
    }
  }

  lemma StillListed(t: Table, t': Table, i: nat, id: Id)
    requires CoveredListed(t) && i < |t.buckets| == |t'.buckets|
    requires t'.buckets == t.buckets[i := t'.buckets[i]]
    requires t'.buckets[i].lower == t.buckets[i].lower && t'.buckets[i].upper == t.buckets[i].upper
    requires forall n :: n in t'.buckets[i].Nodes() <==> n in t.buckets[i].Nodes() && n.id != id
    requires forall j :: 0 <= j < |t.buckets| && t.buckets[j].Covers(id) ==> j == i
    requires t'.uidToPeer == t.uidToPeer - {id}
    ensures CoveredListed(t')
  {
    forall j, n: Node | 0 <= j < |t'.buckets| && n in t'.buckets[j].Nodes() && t'.buckets[j].Covers(n.id)
      ensures n.id in t'.uidToPeer && t'.uidToPeer[n.id] == n.peer
    {
      assert n in t.buckets[j].Nodes() && t.buckets[j].Covers(n.id);
    }
  }

  lemma StillKept(t: Table, t': Table, i: nat, id: Id)
    requires ListedKept(t) && i < |t.buckets| == |t'.buckets|
    requires t'.buckets == t.buckets[i := t'.buckets[i]]
    requires forall n :: n in t'.buckets[i].Nodes() <==> n in t.buckets[i].Nodes() && n.id != id
    requires t'.uidToPeer == t.uidToPeer - {id}
    ensures ListedKept(t')
  {
    KeptAfterUpdate(t.buckets, i, t'.buckets[i]);
    forall k | k in t'.uidToPeer
      ensures Kept(t'.buckets, Node(k, t'.uidToPeer[k]))
    {
      assert Kept(t.buckets, Node(k, t.uidToPeer[k]));
    }
  }

  // ----- whole runs

  datatype Op = Update(id: Id, peer: Peer) | Forget(id: Id)

  /** One operation; one that raises leaves the table as it was when it raised. */
  function Apply(c: Config, t: Table, op: Op): Table
    requires c.Valid() && Tiling(c.width, t.buckets) && op.id < Pow2(c.width)
  {
    match op
    case Update(id, peer) => Insert(c, t, id, peer).table
    case Forget(id) => Remove(t, id).0
  }

  /** The operations name ids of the id space. */
  ghost predicate InSpace(c: Config, ops: seq<Op>) {
    forall i :: 0 <= i < |ops| ==> ops[i].id < Pow2(c.width)
  }

  lemma ApplyShape(c: Config, t: Table, op: Op)
    requires c.Valid() && WellFormed(c, t) && op.id < Pow2(c.width)
    ensures WellFormed(c, Apply(c, t, op))
  {
    match op {
      case Update(id, peer) => InsertKeepsShape(c, t, id, peer);
      case Forget(id) => RemoveMeaning(c, t, id);
    }
  }

  /** The table after any operations, one after the other: whatever happens on the way, the buckets
      stay a partition into aligned blocks and each of them well formed. */
  ghost function After(c: Config, t: Table, ops: seq<Op>): (t': Table)
    requires c.Valid() && WellFormed(c, t) && InSpace(c, ops)
    ensures WellFormed(c, t')
    decreases ops
  {
    if ops == [] then t
    else
      ApplyShape(c, t, ops[0]);
      After(c, Apply(c, t, ops[0]), ops[1..])
  }

  /** Every run keeps the table sound, misplaced ids or not. */
  lemma {:induction false} RunSound(c: Config, t: Table, ops: seq<Op>)
    requires c.Valid() && Sound(c, t) && InSpace(c, ops)
    ensures Sound(c, After(c, t, ops))
    decreases ops
  {
    if ops != [] {
      match ops[0] {
        case Update(id, peer) => InsertSound(c, t, id, peer);
        case Forget(id) => RemoveSound(c, t, id);
      }
      RunSound(c, Apply(c, t, ops[0]), ops[1..]);
    }
  }

  /** After any run from the empty table, an insertion fails the "bucket too small" assertion
      exactly if the bucket for its id is doomed. Hence it never does with buckets of two nodes or
      more; and if the levels that must not be split include the last one, as with 160-bit ids and
      a modulus of 5, only the owner's own id can. */
  lemma RunTooSmallIff(c: Config, ops: seq<Op>, id: Id, peer: Peer)
    requires c.Valid() && WellFormed(c, Empty(c)) && InSpace(c, ops) && id < Pow2(c.width)
    ensures var t := After(c, Empty(c), ops);
            && (Insert(c, t, id, peer).TooSmall? <==> Doomed(c, t.buckets[IndexOf(t.buckets, id)], id))
            && (c.size >= 2 ==> !Insert(c, t, id, peer).TooSmall?)
            && (Insert(c, t, id, peer).TooSmall? && c.width % c.modulo == 0 ==> id == c.nodeId)
  {
    var t := After(c, Empty(c), ops);
    EmptyConsistent(c);
    ConsistentIsSound(c, Empty(c));
    RunSound(c, Empty(c), ops);
    TooSmallIff(c, t, id, peer);
    if Insert(c, t, id, peer).TooSmall? && c.width % c.modulo == 0 {
      assert t.buckets[IndexOf(t.buckets, id)].depth <= c.width by {
        assert IsBlock(c.width, t.buckets[IndexOf(t.buckets, id)]);
      }
      assert Xor(id, c.nodeId) < Pow2(c.width - c.width);
      XorSelf(id);
      XorInjective(id, id, c.nodeId);
    }
  }

  /** The assertion does fail, for ids of any width: with one-node buckets, inserting the id after
      the owner's and then the owner's own. */
  lemma MidpointBreaksInsert(c: Config, peer: Peer, peer': Peer)
    requires c.Valid() && c.size == 1 && c.nodeId + 1 < Pow2(c.width)
    ensures WellFormed(c, Empty(c))
    ensures Insert(c, After(c, Empty(c), [Update(c.nodeId + 1, peer)]), c.nodeId, peer').TooSmall?
  {
    EmptyConsistent(c);
    var ops := [Update(c.nodeId + 1, peer)];
    FirstInsert(c, c.nodeId + 1, peer);
    OwnerDoomed(c, After(c, Empty(c), ops).buckets[0], Node(c.nodeId + 1, peer));
    RunTooSmallIff(c, ops, c.nodeId, peer');
  }

  lemma OwnerDoomed(c: Config, b: KBucket, n: Node)
    requires c.Valid() && c.size == 1 && b.live == [n] && n.id == c.nodeId + 1
    ensures Doomed(c, b, c.nodeId)
  {
    assert b.live[0].id == c.nodeId + 1;
    XorSelf(c.nodeId);
  }

  lemma FirstInsert(c: Config, id: Id, peer: Peer)
    requires c.Valid() && WellFormed(c, Empty(c)) && id < Pow2(c.width)
    ensures var t := After(c, Empty(c), [Update(id, peer)]);
            |t.buckets| == 1 && t.buckets[0].live == [Node(id, peer)]
  {
    var t, op := Empty(c), Update(id, peer);
    assert [op][1..] == [];
    assert After(c, t, [op]) == Apply(c, t, op);
    assert Add(t.buckets[0], id, peer).0.live == [Node(id, peer)];
  }

  /** No insertion of the run meets an id in the middle of a block that it splits. */
  ghost predicate Clean(c: Config, t: Table, ops: seq<Op>)
    requires c.Valid() && WellFormed(c, t) && InSpace(c, ops)
    decreases ops
  {
    ops != [] ==>
      && (ops[0].Update? ==> SplitsFree(c, t.buckets[IndexOf(t.buckets, ops[0].id)], ops[0].id))
      && (ApplyShape(c, t, ops[0]); Clean(c, Apply(c, t, ops[0]), ops[1..]))
  }

  function Enter(d: map<Id, Peer>, op: Op): map<Id, Peer> {
    match op case Update(id, peer) => d[id := peer] case Forget(id) => d - {id}
  }

  /** What the operations do to a plain dictionary. */
  function Directory(d: map<Id, Peer>, ops: seq<Op>): map<Id, Peer>
    decreases ops
  {
    if ops == [] then d
    else Directory(Enter(d, ops[0]), ops[1..])
  }

  lemma StepConsistent(c: Config, t: Table, op: Op)
    requires c.Valid() && Consistent(c, t) && op.id < Pow2(c.width)
    ensures Consistent(c, Apply(c, t, op)) <==>
            (op.Update? ==> SplitsFree(c, t.buckets[IndexOf(t.buckets, op.id)], op.id))
    ensures Apply(c, t, op).uidToPeer == Enter(t.uidToPeer, op)
  {
    match op {
      case Update(id, peer) =>
        InsertConsistent(c, t, id, peer);
        InsertConsistentIff(c, t, id, peer);
      case Forget(id) =>
        RemoveMeaning(c, t, id);
        assert id !in t.uidToPeer ==> t.uidToPeer - {id} == t.uidToPeer;
    }
  }

  /** The table is consistent at every point of the run. */
  ghost predicate AlwaysConsistent(c: Config, t: Table, ops: seq<Op>)
    requires c.Valid() && WellFormed(c, t) && InSpace(c, ops)
  {
    forall i :: 0 <= i <= |ops| ==> Consistent(c, After(c, t, ops[..i]))
  }

  /** The table is consistent at every point of a run exactly if the run is clean; then its lookup
      is a plain dictionary that saw the same operations. */
  lemma {:induction false} RunConsistent(c: Config, t: Table, ops: seq<Op>)
    requires c.Valid() && Consistent(c, t) && InSpace(c, ops)
    ensures AlwaysConsistent(c, t, ops) <==> Clean(c, t, ops)
    ensures Clean(c, t, ops) ==> After(c, t, ops).uidToPeer == Directory(t.uidToPeer, ops)
    decreases ops
  {
    if ops != [] {
      var t' := Apply(c, t, ops[0]);
      StepConsistent(c, t, ops[0]);
      ApplyShape(c, t, ops[0]);
      AlwaysStep(c, t, ops);
      if Consistent(c, t') {
        RunConsistent(c, t', ops[1..]);
      }
    }
  }

  lemma AlwaysStep(c: Config, t: Table, ops: seq<Op>)
    requires c.Valid() && WellFormed(c, t) && InSpace(c, ops) && ops != []
    requires WellFormed(c, Apply(c, t, ops[0]))
    ensures var t' := Apply(c, t, ops[0]);
            AlwaysConsistent(c, t, ops) <==> Consistent(c, t) && Consistent(c, t') && AlwaysConsistent(c, t', ops[1..])
  {
    var t', rest := Apply(c, t, ops[0]), ops[1..];
    assert ops[..0] == [] && rest[..0] == [];
    if AlwaysConsistent(c, t, ops) {
      AlwaysThen(c, t, ops);
      assert Consistent(c, After(c, t, ops[..0])) && Consistent(c, After(c, t', rest[..0]));
    }
    if Consistent(c, t) && AlwaysConsistent(c, t', rest) {
      forall i | 0 <= i <= |ops|
        ensures Consistent(c, After(c, t, ops[..i]))
      {
        if i >= 1 {
          AfterPrefix(c, t, ops, i);
        }
      }
    }
  }

  lemma AlwaysThen(c: Config, t: Table, ops: seq<Op>)
    requires c.Valid() && WellFormed(c, t) && InSpace(c, ops) && ops != []
    requires WellFormed(c, Apply(c, t, ops[0])) && AlwaysConsistent(c, t, ops)
    ensures AlwaysConsistent(c, Apply(c, t, ops[0]), ops[1..])
  {
    forall i | 0 <= i <= |ops[1..]|
      ensures Consistent(c, After(c, Apply(c, t, ops[0]), ops[1..][..i]))
    {
      AfterPrefix(c, t, ops, i + 1);
    }
  }

  lemma AfterPrefix(c: Config, t: Table, ops: seq<Op>, i: nat)
    requires c.Valid() && WellFormed(c, t) && InSpace(c, ops) && 1 <= i <= |ops|
    requires WellFormed(c, Apply(c, t, ops[0]))
    ensures After(c, t, ops[..i]) == After(c, Apply(c, t, ops[0]), ops[1..][..i - 1])
  {
    assert ops[..i][1..] == ops[1..][..i - 1];
  }
}
