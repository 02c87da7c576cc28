/**
 The Kademlia routing table as a value: a list of k-buckets that tiles the id space, plus the
 two lookup dictionaries. `Insert` and `Remove` are the specifications of the mutating methods
 of the class in RoutingTable.dfy; the lemmas say what one operation does and keeps.
 */
module Tables {
  import opened Collections
  import opened Arithmetic
  import opened XorMetric
  import opened Ranking
  import opened KBuckets

  /** width: bits of an id; nodeId: the owner; size: k; modulo: the parameter b of Kademlia, section 4.2 */
  datatype Config = Config(width: nat, nodeId: Id, size: nat, modulo: nat) {
    ghost predicate Valid() {
      size >= 1 && modulo >= 1
    }
  }

  datatype Table = Table(buckets: seq<KBucket>, uidToPeer: map<Id, Peer>, peerToUid: map<Peer, Id>)

  datatype Inserted =
    | Stored(table: Table)                         // the node is live
    | Full(table: Table, toPing: Option<Node>)     // kept as a replacement; ping this node
    | TooSmall(table: Table)                       // "bucket too small to be split" raised

  // ----- the tiling of the id space

  /** b spans an aligned block of width 2^(width - depth). */
  ghost predicate IsBlock(width: nat, b: KBucket) {
    && b.depth <= width
    && b.upper == b.lower + Pow2(width - b.depth)
    && Aligned(width - b.depth, b.lower)
  }

  ghost predicate Tiling(width: nat, bs: seq<KBucket>) {
    && |bs| > 0
    && bs[0].lower == 0
    && bs[|bs| - 1].upper == Pow2(width)
    && (forall i :: 0 <= i < |bs| ==> IsBlock(width, bs[i]))
    && (forall i :: 0 < i < |bs| ==> bs[i - 1].upper == bs[i].lower)
  }

  lemma {:induction false} TilingOrdered(width: nat, bs: seq<KBucket>, i: nat, j: nat)
    requires Tiling(width, bs) && i < j < |bs|
    ensures bs[i].upper <= bs[j].lower
  {
    assert bs[j - 1].upper == bs[j].lower;
    if i + 1 < j {
      TilingOrdered(width, bs, i, j - 1);
      assert IsBlock(width, bs[j - 1]);
    }
  }

  /** The last bucket, from the k-th on, whose range starts no later than the id. */
  function IndexFrom(bs: seq<KBucket>, id: Id, k: nat): (i: nat)
    requires k < |bs|
    ensures k <= i < |bs|
    decreases |bs| - k
  {
    if k + 1 == |bs| || id < bs[k + 1].lower then k else IndexFrom(bs, id, k + 1)
  }

  function IndexOf(bs: seq<KBucket>, id: Id): (i: nat)
    requires bs != []
    ensures i < |bs|
  {
    IndexFrom(bs, id, 0)
  }

  lemma {:induction false} IndexFromCovers(width: nat, bs: seq<KBucket>, id: Id, k: nat)
    requires Tiling(width, bs) && k < |bs| && bs[k].lower <= id < Pow2(width)
    ensures bs[IndexFrom(bs, id, k)].Covers(id)
    decreases |bs| - k
  {
    if k + 1 < |bs| {
      assert bs[k].upper == bs[k + 1].lower;
      if id >= bs[k + 1].lower {
        IndexFromCovers(width, bs, id, k + 1);
      }
    }
  }

  /** In a tiling exactly one bucket covers each id of the space. */
  lemma IndexCovers(width: nat, bs: seq<KBucket>, id: Id)
    requires Tiling(width, bs) && id < Pow2(width)
    ensures bs[IndexOf(bs, id)].Covers(id)
    ensures forall j :: 0 <= j < |bs| && bs[j].Covers(id) ==> j == IndexOf(bs, id)
  {
    IndexFromCovers(width, bs, id, 0);
    var i := IndexOf(bs, id);
    forall j | 0 <= j < |bs| && bs[j].Covers(id)
      ensures j == i
    {
      if i < j {
        TilingOrdered(width, bs, i, j);
      } else if j < i {
        TilingOrdered(width, bs, j, i);
      }
    }
  }

  function SplitAt(bs: seq<KBucket>, i: nat): (r: seq<KBucket>)
    requires i < |bs|
    ensures |r| == |bs| + 1
    ensures forall j :: 0 <= j < i ==> r[j] == bs[j]
    ensures r[i] == Half(bs[i], true) && r[i + 1] == Half(bs[i], false)
    ensures forall j :: i + 2 <= j < |r| ==> r[j] == bs[j - 1]
  {
    bs[..i] + [Half(bs[i], true), Half(bs[i], false)] + bs[i + 1..]
  }

  /** A block can be split unless it is a single id; its halves are blocks one level down. */
  lemma SplitBlock(width: nat, b: KBucket)
    requires IsBlock(width, b)
    ensures b.lower < b.Midpoint() < b.upper <==> b.depth < width
    ensures b.depth < width ==>
              && IsBlock(width, Half(b, true)) && IsBlock(width, Half(b, false))
              && b.Midpoint() == b.lower + Pow2(width - b.depth - 1)
  {
    var m := width - b.depth;
    if m > 0 {
      assert Pow2(m) == 2 * Pow2(m - 1);
      AlignedWeaken(m - 1, m, b.lower);
      AlignedNext(m - 1, b.lower);
    }
  }

  lemma SplitTiling(width: nat, bs: seq<KBucket>, i: nat)
    requires Tiling(width, bs) && i < |bs| && bs[i].depth < width
    ensures Tiling(width, SplitAt(bs, i))
  {
    SplitBlock(width, bs[i]);
    var r := SplitAt(bs, i);
    forall j | 0 < j < |r|
      ensures r[j - 1].upper == r[j].lower
    {
      if j == i + 2 {
        assert bs[i].upper == bs[i + 1].lower;
      }
    }
  }

  /** After splitting the covering bucket, the id is covered one level deeper. */
  lemma SplitDescends(width: nat, bs: seq<KBucket>, id: Id)
    requires Tiling(width, bs) && id < Pow2(width)
    requires bs[IndexOf(bs, id)].depth < width
    ensures var i := IndexOf(bs, id);
            var r := SplitAt(bs, i);
            && Tiling(width, r)
            && IndexOf(r, id) == (if id < bs[i].Midpoint() then i else i + 1)
            && r[IndexOf(r, id)].depth == bs[i].depth + 1
  {
    var i := IndexOf(bs, id);
    IndexCovers(width, bs, id);
    SplitTiling(width, bs, i);
    var r := SplitAt(bs, i);
    IndexCovers(width, r, id);
    assert r[if id < bs[i].Midpoint() then i else i + 1].Covers(id);
  }

  // ----- the operations

  /** Enter the node in the lookup dictionaries if its bucket holds it. */
  function Register(t: Table, i: nat, b: KBucket, id: Id, peer: Peer): Table
    requires i < |t.buckets|
  {
    var t := t.(buckets := t.buckets[i := b]);
    if b.Holds(id) then t.(uidToPeer := t.uidToPeer[id := peer], peerToUid := t.peerToUid[peer := id]) else t
  }

  /** Per section 4.2 of the Kademlia paper: split if the owner's id is in range, or off the
      b-level boundary. */
  predicate MaySplit(c: Config, b: KBucket)
    requires c.modulo >= 1
  {
    b.Covers(c.nodeId) || b.depth % c.modulo != 0
  }

  /** The two outcomes of the bucket update at the head of `add_or_update_node`. */
  function FirstStep(t: Table, id: Id, peer: Peer): (r: (Table, bool))
    requires t.buckets != []
    ensures |r.0.buckets| == |t.buckets|
  {
    var i := IndexOf(t.buckets, id);
    var (b, ok) := Add(t.buckets[i], id, peer);
    (Register(t, i, b, id, peer), ok)
  }

  lemma FirstStepTiling(c: Config, t: Table, id: Id, peer: Peer)
    requires Tiling(c.width, t.buckets) && id < Pow2(c.width)
    ensures var t' := FirstStep(t, id, peer).0;
            && Tiling(c.width, t'.buckets)
            && IndexOf(t'.buckets, id) == IndexOf(t.buckets, id)
            && t'.buckets[IndexOf(t.buckets, id)] == Add(t.buckets[IndexOf(t.buckets, id)], id, peer).0
            && t'.buckets[IndexOf(t.buckets, id)].depth == t.buckets[IndexOf(t.buckets, id)].depth
  {
    var i := IndexOf(t.buckets, id);
    var b := Add(t.buckets[i], id, peer).0;
    assert b.lower == t.buckets[i].lower && b.upper == t.buckets[i].upper && b.depth == t.buckets[i].depth;
    SameRange(c.width, t.buckets, i, b);
    IndexCovers(c.width, t.buckets, id);
    IndexCovers(c.width, t.buckets[i := b], id);
    assert t.buckets[i := b][i].Covers(id);
  }

  /** Changing what a bucket holds does not change the tiling. */
  lemma SameRange(width: nat, bs: seq<KBucket>, i: nat, b: KBucket)
    requires Tiling(width, bs) && i < |bs|
    requires b.lower == bs[i].lower && b.upper == bs[i].upper && b.depth == bs[i].depth
    ensures Tiling(width, bs[i := b])
  {
    var bs' := bs[i := b];
    assert IsBlock(width, bs[i]);
    forall j | 0 <= j < |bs'|
      ensures IsBlock(width, bs'[j])
    {
      assert IsBlock(width, bs[j]);
    }
    forall j | 0 < j < |bs'|
      ensures bs'[j - 1].upper == bs'[j].lower
    {
      assert bs[j - 1].upper == bs[j].lower;
    }
  }

  /** `RoutingTable.add_or_update_node`. */
  function Insert(c: Config, t: Table, id: Id, peer: Peer): Inserted
    requires c.Valid() && Tiling(c.width, t.buckets) && id < Pow2(c.width)
    decreases c.width - t.buckets[IndexOf(t.buckets, id)].depth
  {
    var i := IndexOf(t.buckets, id);
    var (t', ok) := FirstStep(t, id, peer);
    FirstStepTiling(c, t, id, peer);
    var b := t'.buckets[i];
    if ok then Stored(t')
    else if MaySplit(c, b) then
      SplitBlock(c.width, b);
      if !(b.lower < b.Midpoint() < b.upper) then TooSmall(t')
      else
        SplitDescends(c.width, t'.buckets, id);
        Insert(c, t'.(buckets := SplitAt(t'.buckets, i)), id, peer)
    else
      var (b', toPing) := RequestPing(b);
      Full(t'.(buckets := t'.buckets[i := b']), toPing)
  }

  /** No bucket that this insertion splits holds an id equal to its own midpoint. */
  predicate SplitsCleanly(c: Config, t: Table, id: Id, peer: Peer)
    requires c.Valid() && Tiling(c.width, t.buckets) && id < Pow2(c.width)
    decreases c.width - t.buckets[IndexOf(t.buckets, id)].depth
  {
    var i := IndexOf(t.buckets, id);
    var (t', ok) := FirstStep(t, id, peer);
    FirstStepTiling(c, t, id, peer);
    var b := t'.buckets[i];
    !ok && MaySplit(c, b) && b.lower < b.Midpoint() < b.upper ==>
      && !b.Holds(b.Midpoint())
      && (SplitBlock(c.width, b);
          SplitDescends(c.width, t'.buckets, id);
          SplitsCleanly(c, t'.(buckets := SplitAt(t'.buckets, i)), id, peer))
  }

  /** The table on which a splitting insertion starts over. */
  function Descended(t: Table, id: Id, peer: Peer): Table
    requires t.buckets != []
  {
    var t' := FirstStep(t, id, peer).0;
    t'.(buckets := SplitAt(t'.buckets, IndexOf(t.buckets, id)))
  }

  ghost predicate Descends(c: Config, t: Table, id: Id, peer: Peer)
    requires c.Valid() && t.buckets != []
  {
    var b := FirstStep(t, id, peer).0.buckets[IndexOf(t.buckets, id)];
    !FirstStep(t, id, peer).1 && MaySplit(c, b) && b.depth < c.width
  }

  lemma InsertDescends(c: Config, t: Table, id: Id, peer: Peer)
    requires c.Valid() && Tiling(c.width, t.buckets) && id < Pow2(c.width)
    requires Descends(c, t, id, peer)
    ensures var t' := Descended(t, id, peer);
            var b := FirstStep(t, id, peer).0.buckets[IndexOf(t.buckets, id)];
            && Tiling(c.width, t'.buckets)
            && t'.buckets[IndexOf(t'.buckets, id)].depth == t.buckets[IndexOf(t.buckets, id)].depth + 1
            && Insert(c, t, id, peer) == Insert(c, t', id, peer)
            && (SplitsCleanly(c, t, id, peer) <==> !b.Holds(b.Midpoint()) && SplitsCleanly(c, t', id, peer))
  {
    FirstStepTiling(c, t, id, peer);
    var t' := FirstStep(t, id, peer).0;
    SplitBlock(c.width, t'.buckets[IndexOf(t.buckets, id)]);
    SplitDescends(c.width, t'.buckets, id);
  }

  /** `RoutingTable.__delitem__`; false is a KeyError, raised by the bucket, which is then unchanged,
      or by the lookup, when the bucket has already dropped the node. */
  function Remove(t: Table, id: Id): (Table, bool)
    requires t.buckets != []
  {
    var i := IndexOf(t.buckets, id);
    match Delete(t.buckets[i], id)
    case None => (t, false)
    case Some(b) =>
      var t := t.(buckets := t.buckets[i := b]);
      if id !in t.uidToPeer then (t, false)
      else
        var peer := t.uidToPeer[id];
        var rest := if peer in t.peerToUid && t.peerToUid[peer] == id then t.peerToUid - {peer} else t.peerToUid;
        (Table(t.buckets, t.uidToPeer - {id}, rest), true)
  }

  // ----- what the operations keep

  ghost predicate WellFormed(c: Config, t: Table) {
    && Tiling(c.width, t.buckets)
    && forall i :: 0 <= i < |t.buckets| ==> t.buckets[i].WellFormed() && t.buckets[i].size == c.size
  }

  ghost predicate InRange(t: Table) {
    forall i :: 0 <= i < |t.buckets| ==> t.buckets[i].InRange()
  }

  ghost predicate Kept(bs: seq<KBucket>, n: Node) {
    exists i :: 0 <= i < |bs| && n in bs[i].Nodes()
  }

  /** `uid_to_peer_id` maps exactly the ids held in buckets, each to the peer stored there. */
  ghost predicate LookupAgrees(t: Table) {
    forall n: Node :: Kept(t.buckets, n) <==> n.id in t.uidToPeer && t.uidToPeer[n.id] == n.peer
  }

  ghost predicate Consistent(c: Config, t: Table) {
    WellFormed(c, t) && InRange(t) && LookupAgrees(t)
  }

  function Empty(c: Config): Table {
    Table([Fresh(0, Pow2(c.width), c.size, 0)], map[], map[])
  }

  lemma EmptyConsistent(c: Config)
    requires c.Valid()
    ensures Consistent(c, Empty(c))
  {
    AlignedZero(c.width);
  }

  /** The shape survives every insertion, misplaced ids or not. */
  lemma {:induction false} InsertKeepsShape(c: Config, t: Table, id: Id, peer: Peer)
    requires c.Valid() && WellFormed(c, t) && id < Pow2(c.width)
    ensures WellFormed(c, Insert(c, t, id, peer).table)
    decreases c.width - t.buckets[IndexOf(t.buckets, id)].depth
  {
    FirstStepShape(c, t, id, peer);
    FirstStepTiling(c, t, id, peer);
    if Descends(c, t, id, peer) {
      InsertDescends(c, t, id, peer);
      SplitShape(c, FirstStep(t, id, peer).0, IndexOf(t.buckets, id));
      InsertKeepsShape(c, Descended(t, id, peer), id, peer);
    } else {
      SplitBlock(c.width, FirstStep(t, id, peer).0.buckets[IndexOf(t.buckets, id)]);
      PingKeepsShape(c, FirstStep(t, id, peer).0, IndexOf(t.buckets, id));
    }
  }

  lemma FirstStepShape(c: Config, t: Table, id: Id, peer: Peer)
    requires WellFormed(c, t) && id < Pow2(c.width)
    ensures WellFormed(c, FirstStep(t, id, peer).0)
  {
    AddNodes(t.buckets[IndexOf(t.buckets, id)], id, peer);
    FirstStepTiling(c, t, id, peer);
  }

  lemma SplitShape(c: Config, t: Table, i: nat)
    requires WellFormed(c, t) && i < |t.buckets| && t.buckets[i].depth < c.width
    ensures WellFormed(c, t.(buckets := SplitAt(t.buckets, i)))
  {
    SplitTiling(c.width, t.buckets, i);
    SplitNodes(t.buckets[i]);
  }

  lemma PingKeepsShape(c: Config, t: Table, i: nat)
    requires WellFormed(c, t) && i < |t.buckets|
    ensures WellFormed(c, t.(buckets := t.buckets[i := RequestPing(t.buckets[i]).0]))
  {
    var b' := RequestPing(t.buckets[i]).0;
    SameRange(c.width, t.buckets, i, b');
    assert b'.WellFormed();
  }

  // ----- conservation: what the buckets hold after each elementary update

  lemma KeptAfterUpdate(bs: seq<KBucket>, i: nat, b: KBucket)
    requires i < |bs|
    ensures forall n :: Kept(bs[i := b], n) <==>
                        n in b.Nodes() || exists j :: 0 <= j < |bs| && j != i && n in bs[j].Nodes()
  {
    var bs' := bs[i := b];
    forall n
      ensures Kept(bs', n) <==> n in b.Nodes() || exists j :: 0 <= j < |bs| && j != i && n in bs[j].Nodes()
    {
      if n in b.Nodes() {
        assert n in bs'[i].Nodes();
      } else if j :| 0 <= j < |bs| && j != i && n in bs[j].Nodes() {
        assert n in bs'[j].Nodes();
      }
    }
  }

  lemma KeptAfterSplit(bs: seq<KBucket>, i: nat)
    requires i < |bs| && bs[i].WellFormed()
    ensures forall n :: Kept(SplitAt(bs, i), n) <==> Kept(bs, n)
  {
    SplitNodes(bs[i]);
    var r := SplitAt(bs, i);
    forall n
      ensures Kept(r, n) <==> Kept(bs, n)
    {
      if j :| 0 <= j < |bs| && n in bs[j].Nodes() {
        var right := j > i || (j == i && n.id > bs[i].Midpoint());
        assert n in r[if right then j + 1 else j].Nodes();
      }
      if k :| 0 <= k < |r| && n in r[k].Nodes() {
        assert n in bs[if k <= i then k else k - 1].Nodes();
      }
    }
  }

  lemma FirstStepConsistent(c: Config, t: Table, id: Id, peer: Peer)
    requires c.Valid() && Consistent(c, t) && id < Pow2(c.width)
    ensures var t' := FirstStep(t, id, peer).0;
            Consistent(c, t') && t'.uidToPeer == t.uidToPeer[id := peer]
  {
    var t' := FirstStep(t, id, peer).0;
    FirstStepShape(c, t, id, peer);
    FirstStepInRange(c, t, id, peer);
    AddNodes(t.buckets[IndexOf(t.buckets, id)], id, peer);
    forall n: Node
      ensures Kept(t'.buckets, n) <==> n.id in t'.uidToPeer && t'.uidToPeer[n.id] == n.peer
    {
      FirstStepKept(c, t, id, peer, n);
    }
  }

  lemma FirstStepInRange(c: Config, t: Table, id: Id, peer: Peer)
    requires WellFormed(c, t) && InRange(t) && id < Pow2(c.width)
    ensures InRange(FirstStep(t, id, peer).0)
  {
    AddNodes(t.buckets[IndexOf(t.buckets, id)], id, peer);
    IndexCovers(c.width, t.buckets, id);
  }

  lemma FirstStepKept(c: Config, t: Table, id: Id, peer: Peer, n: Node)
    requires WellFormed(c, t) && InRange(t) && id < Pow2(c.width)
    ensures Kept(FirstStep(t, id, peer).0.buckets, n) <==> n == Node(id, peer) || (n.id != id && Kept(t.buckets, n))
  {
    var i := IndexOf(t.buckets, id);
    AddNodes(t.buckets[i], id, peer);
    KeptAfterUpdate(t.buckets, i, Add(t.buckets[i], id, peer).0);
    if n.id == id {
      OnlyInCover(c, t, n);
    }
  }

  lemma OnlyInCover(c: Config, t: Table, n: Node)
    requires Tiling(c.width, t.buckets) && InRange(t) && n.id < Pow2(c.width)
    ensures forall j :: 0 <= j < |t.buckets| && n in t.buckets[j].Nodes() ==> j == IndexOf(t.buckets, n.id)
  {
    IndexCovers(c.width, t.buckets, n.id);
  }

  /** A consistent table stays consistent exactly on a clean insertion; whether clean or not, the
      lookup changes at exactly the inserted id, and the reverse lookup at exactly its peer. */
  lemma InsertConsistent(c: Config, t: Table, id: Id, peer: Peer)
    requires c.Valid() && Consistent(c, t) && id < Pow2(c.width)
    ensures Consistent(c, Insert(c, t, id, peer).table) <==> SplitsCleanly(c, t, id, peer)
    ensures Insert(c, t, id, peer).table.uidToPeer == t.uidToPeer[id := peer]
    ensures Insert(c, t, id, peer).table.peerToUid == t.peerToUid[peer := id]
  {
    InsertInRangeIff(c, t, id, peer);
    InsertLists(c, t, id, peer);
    if SplitsCleanly(c, t, id, peer) {
      CleanInsert(c, t, id, peer);
    }
  }

  /** The tables list the node in both dictionaries, and are otherwise the same in them. */
  ghost predicate Lists(t: Table, t': Table, id: Id, peer: Peer) {
    t'.uidToPeer == t.uidToPeer[id := peer] && t'.peerToUid == t.peerToUid[peer := id]
  }

  lemma ListsAgain(t: Table, t': Table, t'': Table, id: Id, peer: Peer)
    requires Lists(t, t', id, peer) && Lists(t', t'', id, peer)
    ensures Lists(t, t'', id, peer)
  {
  }

  lemma {:induction false} InsertLists(c: Config, t: Table, id: Id, peer: Peer)
    requires c.Valid() && WellFormed(c, t) && id < Pow2(c.width)
    ensures Lists(t, Insert(c, t, id, peer).table, id, peer)
    decreases c.width - t.buckets[IndexOf(t.buckets, id)].depth
  {
    FirstStepLookup(c, t, id, peer);
    if Descends(c, t, id, peer) {
      DescendShape(c, t, id, peer);
      InsertDescends(c, t, id, peer);
      InsertLists(c, Descended(t, id, peer), id, peer);
      assert Lists(t, Descended(t, id, peer), id, peer);
      ListsAgain(t, Descended(t, id, peer), Insert(c, t, id, peer).table, id, peer);
    } else {
      StopLookup(c, t, id, peer);
    }
  }

  lemma DescendShape(c: Config, t: Table, id: Id, peer: Peer)
    requires c.Valid() && WellFormed(c, t) && id < Pow2(c.width) && Descends(c, t, id, peer)
    ensures WellFormed(c, Descended(t, id, peer))
  {
    FirstStepShape(c, t, id, peer);
    SplitShape(c, FirstStep(t, id, peer).0, IndexOf(t.buckets, id));
  }

  lemma FirstStepLookup(c: Config, t: Table, id: Id, peer: Peer)
    requires WellFormed(c, t) && id < Pow2(c.width)
    ensures FirstStep(t, id, peer).0.uidToPeer == t.uidToPeer[id := peer]
    ensures FirstStep(t, id, peer).0.peerToUid == t.peerToUid[peer := id]
  {
    AddNodes(t.buckets[IndexOf(t.buckets, id)], id, peer);
  }

  lemma StopLookup(c: Config, t: Table, id: Id, peer: Peer)
    requires c.Valid() && Tiling(c.width, t.buckets) && id < Pow2(c.width) && !Descends(c, t, id, peer)
    ensures Insert(c, t, id, peer).table.uidToPeer == FirstStep(t, id, peer).0.uidToPeer
    ensures Insert(c, t, id, peer).table.peerToUid == FirstStep(t, id, peer).0.peerToUid
  {
    FirstStepTiling(c, t, id, peer);
    SplitBlock(c.width, FirstStep(t, id, peer).0.buckets[IndexOf(t.buckets, id)]);
  }

  lemma {:induction false} CleanInsert(c: Config, t: Table, id: Id, peer: Peer)
    requires c.Valid() && Consistent(c, t) && id < Pow2(c.width)
    requires SplitsCleanly(c, t, id, peer)
    ensures Consistent(c, Insert(c, t, id, peer).table)
    decreases c.width - t.buckets[IndexOf(t.buckets, id)].depth
  {
    FirstStepConsistent(c, t, id, peer);
    if Descends(c, t, id, peer) {
      InsertDescends(c, t, id, peer);
      SplitConsistent(c, FirstStep(t, id, peer).0, IndexOf(t.buckets, id));
      CleanInsert(c, Descended(t, id, peer), id, peer);
    } else {
      InsertStops(c, t, id, peer);
    }
  }

  lemma InsertStops(c: Config, t: Table, id: Id, peer: Peer)
    requires c.Valid() && Consistent(c, t) && id < Pow2(c.width)
    requires Consistent(c, FirstStep(t, id, peer).0)
    requires !Descends(c, t, id, peer)
    ensures Consistent(c, Insert(c, t, id, peer).table)
  {
    FirstStepTiling(c, t, id, peer);
    if !FirstStep(t, id, peer).1 {
      FullIsWide(c, t, id, peer);
      PingConsistent(c, FirstStep(t, id, peer).0, IndexOf(t.buckets, id));
    }
  }

  /** A bucket of in-range ids that turns a node away spans more than one id. */
  lemma FullIsWide(c: Config, t: Table, id: Id, peer: Peer)
    requires c.Valid() && Consistent(c, t) && id < Pow2(c.width)
    requires !FirstStep(t, id, peer).1
    ensures t.buckets[IndexOf(t.buckets, id)].depth < c.width
  {
    IndexCovers(c.width, t.buckets, id);
    var b := t.buckets[IndexOf(t.buckets, id)];
    assert |b.live| >= 1;
    assert b.live[0] in b.Nodes();
    assert b.live[0].id != id;
    assert IsBlock(c.width, b);
  }

  lemma SplitConsistent(c: Config, t: Table, i: nat)
    requires Consistent(c, t) && i < |t.buckets| && t.buckets[i].depth < c.width
    requires !t.buckets[i].Holds(t.buckets[i].Midpoint())
    ensures Consistent(c, t.(buckets := SplitAt(t.buckets, i)))
  {
    SplitShape(c, t, i);
    SplitInRangeIff(t.buckets[i]);
    KeptAfterSplit(t.buckets, i);
  }

  lemma PingConsistent(c: Config, t: Table, i: nat)
    requires Consistent(c, t) && i < |t.buckets|
    ensures Consistent(c, t.(buckets := t.buckets[i := RequestPing(t.buckets[i]).0]))
  {
    PingKeepsShape(c, t, i);
    var b' := RequestPing(t.buckets[i]).0;
    assert b'.Nodes() == t.buckets[i].Nodes();
    KeptAfterUpdate(t.buckets, i, b');
    forall n
      ensures Kept(t.buckets[i := b'], n) <==> Kept(t.buckets, n)
    {
    }
  }

  // ----- the misplaced midpoint

  /** Some bucket holds an id just past its range. */
  ghost predicate Spilled(bs: seq<KBucket>) {
    exists i, n :: 0 <= i < |bs| && n in bs[i].Nodes() && n.id == bs[i].upper
  }

  /** Splitting a bucket that holds its midpoint spills it ... */
  lemma SplitSpills(c: Config, t: Table, i: nat)
    requires WellFormed(c, t) && i < |t.buckets| && t.buckets[i].depth < c.width
    requires t.buckets[i].Holds(t.buckets[i].Midpoint())
    ensures Spilled(SplitAt(t.buckets, i))
  {
    var b, r := t.buckets[i], SplitAt(t.buckets, i);
    SplitNodes(b);
    HoldsNode(b, b.Midpoint());
    var n :| n in b.Nodes() && n.id == b.Midpoint();
    assert n in r[i].Nodes() && n.id == r[i].upper;
  }

  /** ... and no later split brings a spilled id back. */
  lemma SpilledSplit(c: Config, t: Table, i: nat)
    requires WellFormed(c, t) && i < |t.buckets| && t.buckets[i].depth < c.width
    requires Spilled(t.buckets)
    ensures Spilled(SplitAt(t.buckets, i))
  {
    var r := SplitAt(t.buckets, i);
    var j, n :| 0 <= j < |t.buckets| && n in t.buckets[j].Nodes() && n.id == t.buckets[j].upper;
    var k := if j < i then j else j + 1;
    if j == i {
      SplitNodes(t.buckets[i]);
      SplitBlock(c.width, t.buckets[i]);
      assert n in Half(t.buckets[i], false).Nodes();
    }
    assert n in r[k].Nodes() && n.id == r[k].upper;
  }

  lemma SpilledFirstStep(c: Config, t: Table, id: Id, peer: Peer)
    requires WellFormed(c, t) && id < Pow2(c.width) && Spilled(t.buckets)
    ensures Spilled(FirstStep(t, id, peer).0.buckets)
  {
    var i := IndexOf(t.buckets, id);
    AddNodes(t.buckets[i], id, peer);
    IndexCovers(c.width, t.buckets, id);
    var j, n :| 0 <= j < |t.buckets| && n in t.buckets[j].Nodes() && n.id == t.buckets[j].upper;
    var r := FirstStep(t, id, peer).0.buckets;
    assert n in r[j].Nodes() && n.id == r[j].upper;
  }

  lemma {:induction false} SpilledInsert(c: Config, t: Table, id: Id, peer: Peer)
    requires c.Valid() && WellFormed(c, t) && id < Pow2(c.width) && Spilled(t.buckets)
    ensures Spilled(Insert(c, t, id, peer).table.buckets)
    decreases c.width - t.buckets[IndexOf(t.buckets, id)].depth
  {
    var i := IndexOf(t.buckets, id);
    var t' := FirstStep(t, id, peer).0;
    FirstStepShape(c, t, id, peer);
    FirstStepTiling(c, t, id, peer);
    SpilledFirstStep(c, t, id, peer);
    if Descends(c, t, id, peer) {
      InsertDescends(c, t, id, peer);
      SplitShape(c, t', i);
      SpilledSplit(c, t', i);
      SpilledInsert(c, Descended(t, id, peer), id, peer);
    } else {
      SplitBlock(c.width, t'.buckets[i]);
      SpilledPing(t'.buckets, i);
    }
  }

  lemma SpilledPing(bs: seq<KBucket>, i: nat)
    requires i < |bs| && Spilled(bs)
    ensures Spilled(bs[i := RequestPing(bs[i]).0])
  {
    var j, n :| 0 <= j < |bs| && n in bs[j].Nodes() && n.id == bs[j].upper;
    var r := bs[i := RequestPing(bs[i]).0];
    assert n in r[j].Nodes() && n.id == r[j].upper;
  }

  /** An insertion keeps every id in its bucket's range exactly when none of the buckets it
      splits holds its own midpoint: the `<=` of `KBucket.split` sends that id left. */
  lemma {:induction false} InsertInRangeIff(c: Config, t: Table, id: Id, peer: Peer)
    requires c.Valid() && WellFormed(c, t) && InRange(t) && id < Pow2(c.width)
    ensures InRange(Insert(c, t, id, peer).table) <==> SplitsCleanly(c, t, id, peer)
    decreases c.width - t.buckets[IndexOf(t.buckets, id)].depth
  {
    FirstStepInRange(c, t, id, peer);
    if Descends(c, t, id, peer) {
      InsertDescends(c, t, id, peer);
      DescendInRange(c, t, id, peer);
      if InRange(Descended(t, id, peer)) {
        InsertInRangeIff(c, Descended(t, id, peer), id, peer);
      } else {
        SpilledInsert(c, Descended(t, id, peer), id, peer);
        SpilledOutOfRange(Insert(c, t, id, peer).table);
      }
    } else {
      StopInRange(c, t, id, peer);
    }
  }

  /** A split that meets its midpoint spills it; any other keeps ids in range. */
  lemma DescendInRange(c: Config, t: Table, id: Id, peer: Peer)
    requires c.Valid() && WellFormed(c, t) && id < Pow2(c.width) && Descends(c, t, id, peer)
    requires InRange(FirstStep(t, id, peer).0)
    ensures WellFormed(c, Descended(t, id, peer))
    ensures var b := FirstStep(t, id, peer).0.buckets[IndexOf(t.buckets, id)];
            if b.Holds(b.Midpoint()) then Spilled(Descended(t, id, peer).buckets) && !InRange(Descended(t, id, peer))
            else InRange(Descended(t, id, peer))
  {
    var i := IndexOf(t.buckets, id);
    var t' := FirstStep(t, id, peer).0;
    FirstStepShape(c, t, id, peer);
    SplitShape(c, t', i);
    SplitInRangeIff(t'.buckets[i]);
    if t'.buckets[i].Holds(t'.buckets[i].Midpoint()) {
      SplitSpills(c, t', i);
      SpilledOutOfRange(Descended(t, id, peer));
    }
  }

  lemma SpilledOutOfRange(t: Table)
    requires Spilled(t.buckets)
    ensures !InRange(t)
  {
  }

  lemma StopInRange(c: Config, t: Table, id: Id, peer: Peer)
    requires c.Valid() && WellFormed(c, t) && id < Pow2(c.width) && !Descends(c, t, id, peer)
    requires InRange(FirstStep(t, id, peer).0)
    ensures InRange(Insert(c, t, id, peer).table) && SplitsCleanly(c, t, id, peer)
  {
    var i := IndexOf(t.buckets, id);
    var t' := FirstStep(t, id, peer).0;
    FirstStepTiling(c, t, id, peer);
    SplitBlock(c.width, t'.buckets[i]);
    assert RequestPing(t'.buckets[i]).0.Nodes() == t'.buckets[i].Nodes();
  }

  // ----- what the returned value means

  /** Where an insertion ends: as the most recently updated live node of the covering bucket, or as
      the newest replacement in a full bucket that must not be split. Then the least recently updated
      live node that was not being pinged yet is returned for a ping, and marked; none, if all were.
      A bucket that was split on the way had forgotten its pings. */
  ghost predicate Outcome(c: Config, t: Table, r: Inserted, id: Id, peer: Peer)
    requires c.modulo >= 1 && t.buckets != []
  {
    r.table.buckets != [] &&
    var before, b := t.buckets[IndexOf(t.buckets, id)], r.table.buckets[IndexOf(r.table.buckets, id)];
    var marks := if b.depth == before.depth then before.pinged - {id} else {};
    b.depth >= before.depth &&
    match r
    case Stored(_) => b.live != [] && b.live[|b.live| - 1] == Node(id, peer) && b.pinged == marks
    case TooSmall(_) =>
      && b.replacements != [] && b.replacements[|b.replacements| - 1] == Node(id, peer)
      && b.depth == c.width && MaySplit(c, b) && |b.live| == c.size && b.pinged == marks
    case Full(_, toPing) =>
      && b.replacements != [] && b.replacements[|b.replacements| - 1] == Node(id, peer)
      && |b.live| == c.size
      && !MaySplit(c, b)
      && Pinged(b, marks, toPing)
  }

  /** The bucket after the choice of a node to ping, given the nodes being pinged before. */
  ghost predicate Pinged(b: KBucket, before: set<Id>, toPing: Option<Node>) {
    match toPing
    case None => b.pinged == before && forall n :: n in b.live ==> n.id in before
    case Some(n) =>
      && n.id !in before && b.pinged == before + {n.id}
      && exists i :: IsFirstUnpinged(b.live, before, n, i)
  }

  lemma PingKeepsIndex(width: nat, bs: seq<KBucket>, id: Id)
    requires Tiling(width, bs) && id < Pow2(width)
    ensures var i := IndexOf(bs, id);
            IndexOf(bs[i := RequestPing(bs[i]).0], id) == i
  {
    var i := IndexOf(bs, id);
    var bs' := bs[i := RequestPing(bs[i]).0];
    SameRange(width, bs, i, bs'[i]);
    IndexCovers(width, bs, id);
    IndexCovers(width, bs', id);
    assert bs'[i].Covers(id);
  }

  lemma {:induction false} InsertOutcome(c: Config, t: Table, id: Id, peer: Peer)
    requires c.Valid() && WellFormed(c, t) && id < Pow2(c.width)
    ensures Outcome(c, t, Insert(c, t, id, peer), id, peer)
    decreases c.width - t.buckets[IndexOf(t.buckets, id)].depth
  {
    if Descends(c, t, id, peer) {
      FirstStepTiling(c, t, id, peer);
      DescendShape(c, t, id, peer);
      InsertDescends(c, t, id, peer);
      InsertOutcome(c, Descended(t, id, peer), id, peer);
      SplitDescends(c.width, FirstStep(t, id, peer).0.buckets, id);
      OutcomeDescends(c, t, Descended(t, id, peer), Insert(c, t, id, peer), id, peer);
    } else {
      StopOutcome(c, t, id, peer);
    }
  }

  lemma OutcomeDescends(c: Config, t: Table, t': Table, r: Inserted, id: Id, peer: Peer)
    requires c.modulo >= 1 && t.buckets != [] && t'.buckets != [] && Outcome(c, t', r, id, peer)
    requires t'.buckets[IndexOf(t'.buckets, id)].depth == t.buckets[IndexOf(t.buckets, id)].depth + 1
    requires t'.buckets[IndexOf(t'.buckets, id)].pinged == {}
    ensures Outcome(c, t, r, id, peer)
  {
    var none: set<Id> := {};
    assert none - {id} == none;
  }

  lemma StopOutcome(c: Config, t: Table, id: Id, peer: Peer)
    requires c.Valid() && WellFormed(c, t) && id < Pow2(c.width)
    requires !Descends(c, t, id, peer)
    ensures Outcome(c, t, Insert(c, t, id, peer), id, peer)
  {
    var i := IndexOf(t.buckets, id);
    var (t', ok) := FirstStep(t, id, peer);
    FirstStepTiling(c, t, id, peer);
    AddEnds(t.buckets[i], id, peer);
    if !ok {
      SplitBlock(c.width, t'.buckets[i]);
      PingKeepsIndex(c.width, t'.buckets, id);
    }
  }

  lemma AddEnds(b: KBucket, id: Id, peer: Peer)
    requires b.WellFormed()
    ensures var (b', ok) := Add(b, id, peer);
            && |b'.live| <= b.size && b'.pinged == b.pinged - {id}
            && (if ok then b'.live != [] && b'.live[|b'.live| - 1] == Node(id, peer)
                else
                  && |b'.live| == b.size && b'.replacements != []
                  && b'.replacements[|b'.replacements| - 1] == Node(id, peer))
  {
    AddNodes(b, id, peer);
  }

  // ----- deletion

  /** Deleting succeeds exactly if the bucket that covers the id holds it and the lookup lists it;
      it takes the id out of that bucket, and out of the lookup if it succeeds, and changes nothing
      else. On a consistent table it succeeds exactly on the listed ids and keeps consistency. */
  lemma RemoveMeaning(c: Config, t: Table, id: Id)
    requires WellFormed(c, t) && id < Pow2(c.width)
    ensures var i, (t', ok) := IndexOf(t.buckets, id), Remove(t, id);
            && WellFormed(c, t')
            && (ok <==> t.buckets[i].Holds(id) && id in t.uidToPeer)
            && t'.uidToPeer == (if ok then t.uidToPeer - {id} else t.uidToPeer)
            && (forall p :: p in t'.peerToUid <==>
                  p in t.peerToUid && !(ok && t.peerToUid[p] == id && t.uidToPeer[id] == p))
            && (forall p :: p in t'.peerToUid ==> t'.peerToUid[p] == t.peerToUid[p])
            && (forall n :: n in t'.buckets[i].Nodes() <==> n in t.buckets[i].Nodes() && n.id != id)
            && t'.buckets == t.buckets[i := t'.buckets[i]]
            && t'.buckets[i].(live := t.buckets[i].live, replacements := t.buckets[i].replacements) == t.buckets[i]
            && (Consistent(c, t) ==> Consistent(c, t') && (ok <==> id in t.uidToPeer))
  {
    var i := IndexOf(t.buckets, id);
    var b := t.buckets[i];
    DeleteNodes(b, id);
    HoldsNode(b, id);
    if b.Holds(id) {
      SameRange(c.width, t.buckets, i, Delete(b, id).value);
    }
    if Consistent(c, t) {
      RemoveConsistent(c, t, id);
    }
  }

  lemma RemoveConsistent(c: Config, t: Table, id: Id)
    requires Consistent(c, t) && id < Pow2(c.width)
    ensures Consistent(c, Remove(t, id).0)
    ensures Remove(t, id).1 <==> id in t.uidToPeer
  {
    var i := IndexOf(t.buckets, id);
    RemoveDefined(c, t, id);
    if id in t.uidToPeer {
      DeleteNodes(t.buckets[i], id);
      var b, t' := Delete(t.buckets[i], id).value, Remove(t, id).0;
      SameRange(c.width, t.buckets, i, b);
      forall n: Node
        ensures Kept(t'.buckets, n) <==> n.id in t'.uidToPeer && t'.uidToPeer[n.id] == n.peer
      {
        RemoveKept(c, t, i, b, id, n);
      }
    }
  }

  lemma RemoveDefined(c: Config, t: Table, id: Id)
    requires Consistent(c, t) && id < Pow2(c.width)
    ensures Delete(t.buckets[IndexOf(t.buckets, id)], id).Some? <==> id in t.uidToPeer
  {
    var i := IndexOf(t.buckets, id);
    DeleteNodes(t.buckets[i], id);
    if id in t.uidToPeer {
      var n := Node(id, t.uidToPeer[id]);
      assert Kept(t.buckets, n);
      OnlyInCover(c, t, n);
    } else {
      forall n | n in t.buckets[i].Nodes()
        ensures n.id != id
      {
        assert Kept(t.buckets, n);
      }
    }
  }

  lemma RemoveKept(c: Config, t: Table, i: nat, b: KBucket, id: Id, n: Node)
    requires WellFormed(c, t) && InRange(t) && id < Pow2(c.width) && i == IndexOf(t.buckets, id)
    requires forall n :: n in b.Nodes() <==> n in t.buckets[i].Nodes() && n.id != id
    ensures Kept(t.buckets[i := b], n) <==> n.id != id && Kept(t.buckets, n)
  {
    KeptAfterUpdate(t.buckets, i, b);
    if n.id == id {
      OnlyInCover(c, t, n);
    }
  }
}
