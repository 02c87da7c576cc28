/**
 A k-bucket: up to `size` live nodes of the id range [lower, upper), least recently updated
 first, and the replacement nodes that arrived while it was full. Python's insertion-ordered
 dictionaries become sequences of nodes with distinct ids.
 */
module KBuckets {
  import opened Collections
  import opened XorMetric
  import opened Ranking

  type Peer = nat // a network address, never inspected

  datatype Node = Node(id: Id, peer: Peer)

  datatype KBucket = KBucket(
    lower: nat, upper: nat, size: nat, depth: nat,
    live: seq<Node>, replacements: seq<Node>, pinged: set<Id>)
  {
    predicate Covers(id: Id) {
      lower <= id < upper
    }

    function Nodes(): seq<Node> {
      live + replacements
    }

    predicate Holds(id: Id) {
      HasId(live, id) || HasId(replacements, id)
    }

    function Midpoint(): nat {
      (lower + upper) / 2
    }

    /** What every operation keeps: ids are distinct, the live list is bounded, and nodes
        wait as replacements only behind a full live list. */
    ghost predicate WellFormed() {
      && size >= 1
      && |live| <= size
      && DistinctIds(Nodes())
      && (replacements != [] ==> |live| == size)
    }

    /** Every held id lies in the bucket's own range. */
    ghost predicate InRange() {
      forall n :: n in Nodes() ==> Covers(n.id)
    }

    /** Every held id lies in the bucket's own range or just past its end. */
    ghost predicate Snug() {
      forall n :: n in Nodes() ==> lower <= n.id <= upper
    }
  }

  predicate HasId(nodes: seq<Node>, id: Id) {
    exists i :: 0 <= i < |nodes| && nodes[i].id == id
  }

  ghost predicate DistinctIds(nodes: seq<Node>) {
    forall i, j :: 0 <= i < j < |nodes| ==> nodes[i].id != nodes[j].id
  }

  function Fresh(lower: nat, upper: nat, size: nat, depth: nat): KBucket {
    KBucket(lower, upper, size, depth, [], [], {})
  }

  /** `del d[id]` on an insertion-ordered dictionary. */
  function DropId(nodes: seq<Node>, id: Id): (r: seq<Node>)
    ensures forall n :: n in r <==> n in nodes && n.id != id
    ensures !HasId(nodes, id) ==> r == nodes
  {
    if nodes == [] then []
    else
      assert nodes[0].id == id ==> HasId(nodes, id);
      assert HasId(nodes[1..], id) ==> HasId(nodes, id);
      if nodes[0].id == id then DropId(nodes[1..], id)
      else [nodes[0]] + DropId(nodes[1..], id)
  }

  lemma {:induction false} DropIdShape(nodes: seq<Node>, id: Id)
    requires DistinctIds(nodes)
    ensures DistinctIds(DropId(nodes, id))
    ensures |DropId(nodes, id)| == |nodes| - (if HasId(nodes, id) then 1 else 0)
  {
    if nodes != [] {
      DropIdShape(nodes[1..], id);
      var r := DropId(nodes[1..], id);
      if nodes[0].id == id {
        assert !HasId(nodes[1..], id);
      } else {
        assert HasId(nodes, id) <==> HasId(nodes[1..], id);
        forall j | 0 <= j < |r|
          ensures r[j].id != nodes[0].id
        {
          assert r[j] in nodes[1..];
        }
      }
    }
  }

  /** Add or refresh a node; the flag is false when the bucket was full and the node was kept
      as a replacement instead. */
  function Add(b: KBucket, id: Id, peer: Peer): (KBucket, bool) {
    var b := b.(pinged := b.pinged - {id});
    if HasId(b.live, id) then
      (b.(live := DropId(b.live, id) + [Node(id, peer)]), true)
    else if |b.live| < b.size then
      (b.(live := b.live + [Node(id, peer)]), true)
    else
      (b.(replacements := DropId(b.replacements, id) + [Node(id, peer)]), false)
  }

  lemma DistinctParts(s: seq<Node>, t: seq<Node>)
    ensures DistinctIds(s + t) <==>
            DistinctIds(s) && DistinctIds(t) && forall m, n :: m in s && n in t ==> m.id != n.id
  {
    if DistinctIds(s + t) {
      assert forall i :: 0 <= i < |s| ==> (s + t)[i] == s[i];
      assert forall i :: 0 <= i < |t| ==> (s + t)[|s| + i] == t[i];
      forall m, n | m in s && n in t
        ensures m.id != n.id
      {
        var i :| 0 <= i < |s| && s[i] == m;
        var j :| 0 <= j < |t| && t[j] == n;
        assert (s + t)[i].id != (s + t)[|s| + j].id;
      }
    } else if DistinctIds(s) && DistinctIds(t) && forall m, n :: m in s && n in t ==> m.id != n.id {
      forall i, j | 0 <= i < j < |s + t|
        ensures (s + t)[i].id != (s + t)[j].id
      {
        if i < |s| <= j {
          assert s[i] in s && t[j - |s|] in t;
        }
      }
    }
  }

  /** Adding replaces any earlier entry of the same id, changes no other node, and reports
      success exactly when the node ended up live. */
  lemma AddNodes(b: KBucket, id: Id, peer: Peer)
    requires b.WellFormed()
    ensures var (b', ok) := Add(b, id, peer);
            && b'.WellFormed()
            && (forall n :: n in b'.Nodes() <==> n == Node(id, peer) || (n in b.Nodes() && n.id != id))
            && (ok <==> Node(id, peer) in b'.live)
            && (!ok ==> |b'.live| == b.size && !HasId(b.live, id) && Node(id, peer) in b'.replacements)
            && b'.Holds(id)
            && b'.pinged == b.pinged - {id}
            && b'.(live := b.live, replacements := b.replacements, pinged := b.pinged) == b
  {
    var x := Node(id, peer);
    var (b', ok) := Add(b, id, peer);
    DistinctParts(b.live, b.replacements);
    if HasId(b.live, id) {
      DropIdShape(b.live, id);
      DistinctParts(DropId(b.live, id), [x]);
      assert b'.live[|b'.live| - 1] == x;
    } else if |b.live| < b.size {
      DistinctParts(b.live, [x]);
      assert b'.live[|b'.live| - 1] == x;
    } else {
      DropIdShape(b.replacements, id);
      DistinctParts(DropId(b.replacements, id), [x]);
      assert b'.replacements[|b'.replacements| - 1] == x;
    }
    DistinctParts(b'.live, b'.replacements);
  }

  /** The list with this node at its end, instead of the entry of its id, if any; the rest in order. */
  ghost predicate Renewed(before: seq<Node>, after: seq<Node>, x: Node) {
    if HasId(before, x.id) then
      exists i :: 0 <= i < |before| && before[i].id == x.id && after == (before[..i] + before[i + 1..]) + [x]
    else after == before + [x]
  }

  lemma {:induction false} DropIdAt(nodes: seq<Node>, id: Id, i: nat)
    requires DistinctIds(nodes) && i < |nodes| && nodes[i].id == id
    ensures DropId(nodes, id) == nodes[..i] + nodes[i + 1..]
  {
    if i == 0 {
      assert !HasId(nodes[1..], id);
    } else {
      assert nodes[0].id != id;
      DropIdAt(nodes[1..], id, i - 1);
      assert nodes[1..][..i - 1] == nodes[1..i] && nodes[1..][i..] == nodes[i + 1..];
      assert [nodes[0]] + (nodes[1..i] + nodes[i + 1..]) == ([nodes[0]] + nodes[1..i]) + nodes[i + 1..];
      assert [nodes[0]] + nodes[1..i] == nodes[..i];
    }
  }

  lemma DropRenews(nodes: seq<Node>, x: Node)
    requires DistinctIds(nodes)
    ensures Renewed(nodes, DropId(nodes, x.id) + [x], x)
  {
    if HasId(nodes, x.id) {
      var i :| 0 <= i < |nodes| && nodes[i].id == x.id;
      DropIdAt(nodes, x.id, i);
    }
  }

  /** A node that is live, or finds a free place, becomes the last live one; any other becomes the
      last replacement. All other nodes keep their place and order. */
  lemma AddOrder(b: KBucket, id: Id, peer: Peer)
    requires b.WellFormed()
    ensures var (b', ok) := Add(b, id, peer);
            && (ok <==> HasId(b.live, id) || |b.live| < b.size)
            && (if ok then Renewed(b.live, b'.live, Node(id, peer)) && b'.replacements == b.replacements
                else b'.live == b.live && Renewed(b.replacements, b'.replacements, Node(id, peer)))
  {
    DistinctParts(b.live, b.replacements);
    DropRenews(b.live, Node(id, peer));
    DropRenews(b.replacements, Node(id, peer));
  }

  /** Delete a node; None is the KeyError. A freed live slot goes to the newest replacement. */
  function Delete(b: KBucket, id: Id): Option<KBucket> {
    if !b.Holds(id) then None
    else
      var rest := DropId(b.replacements, id);
      if HasId(b.live, id) then
        var live := DropId(b.live, id);
        if rest != [] then
          Some(b.(live := live + [rest[|rest| - 1]], replacements := rest[..|rest| - 1]))
        else Some(b.(live := live, replacements := rest))
      else Some(b.(replacements := rest))
  }

  lemma DeleteNodes(b: KBucket, id: Id)
    requires b.WellFormed()
    ensures Delete(b, id).None? <==> forall n :: n in b.Nodes() ==> n.id != id
    ensures Delete(b, id).Some? ==>
              var b' := Delete(b, id).value;
              && b'.WellFormed()
              && (forall n :: n in b'.Nodes() <==> n in b.Nodes() && n.id != id)
              && b'.(live := b.live, replacements := b.replacements) == b
  {
    HoldsNode(b, id);
    if b.Holds(id) {
      DropBoth(b.live, b.replacements, id);
      var rest, live := DropId(b.replacements, id), DropId(b.live, id);
      if HasId(b.live, id) && rest != [] {
        PromoteLast(live, rest);
      }
    }
  }

  lemma DropBoth(live: seq<Node>, rest: seq<Node>, id: Id)
    requires DistinctIds(live + rest)
    ensures var l, r := DropId(live, id), DropId(rest, id);
            && DistinctIds(l + r) && (forall n :: n in l + r <==> n in live + rest && n.id != id)
            && |l| == |live| - (if HasId(live, id) then 1 else 0)
            && |r| == |rest| - (if HasId(rest, id) then 1 else 0)
            && (HasId(live, id) ==> !HasId(rest, id))
            && (!HasId(live, id) ==> l == live)
  {
    DistinctParts(live, rest);
    DropIdShape(live, id);
    DropIdShape(rest, id);
    DistinctParts(DropId(live, id), DropId(rest, id));
  }

  /** The list without the entry of this id, which it has, in order. */
  ghost predicate Dropped(before: seq<Node>, after: seq<Node>, id: Id) {
    exists i :: 0 <= i < |before| && before[i].id == id && after == before[..i] + before[i + 1..]
  }

  lemma DropIsDropped(nodes: seq<Node>, id: Id)
    requires DistinctIds(nodes) && HasId(nodes, id)
    ensures Dropped(nodes, DropId(nodes, id), id)
  {
    var i :| 0 <= i < |nodes| && nodes[i].id == id;
    DropIdAt(nodes, id, i);
  }

  /** When a live node goes, the newest replacement, if there is one, becomes the last live node; a
      replacement just goes. All other nodes keep their place and order, and all marks remain. */
  lemma DeleteOrder(b: KBucket, id: Id)
    requires b.WellFormed() && Delete(b, id).Some?
    ensures var b', r := Delete(b, id).value, b.replacements;
            && b'.pinged == b.pinged
            && (HasId(b.live, id) && r == [] ==> Dropped(b.live, b'.live, id) && b'.replacements == [])
            && (HasId(b.live, id) && r != [] ==>
                  && b'.live != [] && b'.live[|b'.live| - 1] == r[|r| - 1] && b'.replacements == r[..|r| - 1]
                  && Dropped(b.live, b'.live[..|b'.live| - 1], id))
            && (!HasId(b.live, id) ==> b'.live == b.live && Dropped(r, b'.replacements, id))
  {
    DistinctParts(b.live, b.replacements);
    if HasId(b.live, id) {
      DropIsDropped(b.live, id);
      assert !HasId(b.replacements, id);
      var live := DropId(b.live, id);
      assert b.replacements != [] ==> (live + [b.replacements[|b.replacements| - 1]])[..|live|] == live;
    } else {
      DropIsDropped(b.replacements, id);
    }
  }

  lemma HoldsNode(b: KBucket, id: Id)
    ensures b.Holds(id) <==> exists n :: n in b.Nodes() && n.id == id
  {
    if b.Holds(id) {
      if i :| 0 <= i < |b.live| && b.live[i].id == id {
        assert b.Nodes()[i] == b.live[i];
      } else {
        var j :| 0 <= j < |b.replacements| && b.replacements[j].id == id;
        assert b.Nodes()[|b.live| + j] == b.replacements[j];
      }
    }
  }

  lemma PromoteLast(live: seq<Node>, rest: seq<Node>)
    requires rest != [] && DistinctIds(live + rest)
    ensures DistinctIds((live + [rest[|rest| - 1]]) + rest[..|rest| - 1])
    ensures forall n :: n in (live + [rest[|rest| - 1]]) + rest[..|rest| - 1] <==> n in live + rest
  {
    var init, last := rest[..|rest| - 1], rest[|rest| - 1];
    assert rest == init + [last];
    DistinctParts(live, rest);
    DistinctParts(init, [last]);
    DistinctParts(live, [last]);
    DistinctParts(live + [last], init);
  }

  ghost predicate IsFirstUnpinged(live: seq<Node>, pinged: set<Id>, n: Node, i: nat) {
    i < |live| && live[i] == n && forall j :: 0 <= j < i ==> live[j].id in pinged
  }

  /** The least recently updated live node that is not being pinged yet, if any. */
  function FirstUnpinged(live: seq<Node>, pinged: set<Id>): (r: Option<Node>)
    ensures r.None? <==> forall n :: n in live ==> n.id in pinged
    ensures r.Some? ==> r.value.id !in pinged &&
                        exists i :: IsFirstUnpinged(live, pinged, r.value, i)
  {
    if live == [] then None
    else if live[0].id !in pinged then
      assert IsFirstUnpinged(live, pinged, live[0], 0);
      Some(live[0])
    else
      var r := FirstUnpinged(live[1..], pinged);
      assert r.Some? ==>
               var i: nat :| IsFirstUnpinged(live[1..], pinged, r.value, i);
               IsFirstUnpinged(live, pinged, r.value, i + 1);
      r
  }

  function RequestPing(b: KBucket): (KBucket, Option<Node>) {
    match FirstUnpinged(b.live, b.pinged)
    case None => (b, None)
    case Some(n) => (b.(pinged := b.pinged + {n.id}), Some(n))
  }

  /** The nodes that a split with this midpoint sends left (or right), in order. An id equal to
      the midpoint goes left, although the right half's range starts there. */
  function Side(nodes: seq<Node>, mid: nat, left: bool): seq<Node> {
    if nodes == [] then []
    else (if (nodes[0].id <= mid) == left then [nodes[0]] else []) + Side(nodes[1..], mid, left)
  }

  /** One half of a split bucket, given its nodes: the first `size` are live, the rest replace. */
  function Filled(b: KBucket, mine: seq<Node>, left: bool): KBucket {
    var live := Take(mine, b.size);
    KBucket(if left then b.lower else b.Midpoint(), if left then b.Midpoint() else b.upper,
            b.size, b.depth + 1, live, mine[|live|..], {})
  }

  function Half(b: KBucket, left: bool): KBucket {
    Filled(b, Side(b.Nodes(), b.Midpoint(), left), left)
  }

  lemma {:induction false} SideAppend(s: seq<Node>, n: Node, mid: nat, left: bool)
    ensures Side(s + [n], mid, left) == Side(s, mid, left) + (if (n.id <= mid) == left then [n] else [])
  {
    if s == [] {
      assert [] + [n] == [n];
      assert Side([n], mid, left) == (if (n.id <= mid) == left then [n] else []) + Side([], mid, left);
    } else {
      SideAppend(s[1..], n, mid, left);
      assert (s + [n])[1..] == s[1..] + [n];
    }
  }

  lemma {:induction false} SideNodes(nodes: seq<Node>, mid: nat, left: bool)
    ensures forall n :: n in Side(nodes, mid, left) <==> n in nodes && (n.id <= mid) == left
    ensures DistinctIds(nodes) ==> DistinctIds(Side(nodes, mid, left))
  {
    if nodes != [] {
      SideNodes(nodes[1..], mid, left);
      assert nodes == [nodes[0]] + nodes[1..];
      DistinctParts([nodes[0]], nodes[1..]);
      DistinctParts(if (nodes[0].id <= mid) == left then [nodes[0]] else [], Side(nodes[1..], mid, left));
    }
  }

  /** Splitting keeps the shape and conserves the nodes: each goes to exactly one half. */
  lemma SplitNodes(b: KBucket)
    requires b.WellFormed()
    ensures Half(b, true).WellFormed() && Half(b, false).WellFormed()
    ensures forall n, left :: n in Half(b, left).Nodes() <==> n in b.Nodes() && (n.id <= b.Midpoint()) == left
  {
    forall left
      ensures Half(b, left).WellFormed()
      ensures forall n :: n in Half(b, left).Nodes() <==> n in b.Nodes() && (n.id <= b.Midpoint()) == left
    {
      var mine := Side(b.Nodes(), b.Midpoint(), left);
      SideNodes(b.Nodes(), b.Midpoint(), left);
      assert Half(b, left).Nodes() == mine;
    }
  }

  /** Splitting keeps every id in its bucket's range exactly when no held id is the midpoint. */
  lemma SplitInRangeIff(b: KBucket)
    requires b.WellFormed() && b.InRange()
    ensures Half(b, true).InRange() && Half(b, false).InRange() <==> !b.Holds(b.Midpoint())
  {
    SplitNodes(b);
    HoldsNode(b, b.Midpoint());
    if n :| n in b.Nodes() && n.id == b.Midpoint() {
      assert n in Half(b, true).Nodes();
    }
  }

  /** `KBucket.split`: re-add every live node and then every replacement to one of two fresh
      buckets. None is the failed "bucket too small" assertion. */
  method Split(b: KBucket) returns (halves: Option<(KBucket, KBucket)>)
    requires b.WellFormed()
    ensures halves == if b.lower < b.Midpoint() < b.upper then Some((Half(b, true), Half(b, false))) else None
  {
    var mid := (b.lower + b.upper) / 2;
    if !(b.lower < mid < b.upper) {
      return None;
    }
    var nodes := b.live + b.replacements;
    assert nodes[..0] == [];
    var left := Fresh(b.lower, mid, b.size, b.depth + 1);
    var right := Fresh(mid, b.upper, b.size, b.depth + 1);
    var i := 0;
    while i < |nodes|
      invariant 0 <= i <= |nodes|
      invariant left == Filled(b, Side(nodes[..i], mid, true), true)
      invariant right == Filled(b, Side(nodes[..i], mid, false), false)
    {
      FillSide(b, nodes, i, nodes[i].id <= mid);
      if nodes[i].id <= mid {
        left := Add(left, nodes[i].id, nodes[i].peer).0;
      } else {
        right := Add(right, nodes[i].id, nodes[i].peer).0;
      }
      i := i + 1;
    }
    assert nodes[..i] == b.Nodes();
    halves := Some((left, right));
  }

  /** Re-adding the next node of a split extends the half it goes to by that node. */
  lemma FillSide(b: KBucket, nodes: seq<Node>, i: nat, left: bool)
    requires DistinctIds(nodes) && i < |nodes|
    requires (nodes[i].id <= b.Midpoint()) == left
    ensures Add(Filled(b, Side(nodes[..i], b.Midpoint(), left), left), nodes[i].id, nodes[i].peer).0
            == Filled(b, Side(nodes[..i + 1], b.Midpoint(), left), left)
    ensures Side(nodes[..i + 1], b.Midpoint(), !left) == Side(nodes[..i], b.Midpoint(), !left)
  {
    var mid := b.Midpoint();
    assert nodes[..i + 1] == nodes[..i] + [nodes[i]];
    SideAppend(nodes[..i], nodes[i], mid, left);
    SideAppend(nodes[..i], nodes[i], mid, !left);
    SideNodes(nodes[..i], mid, left);
    FillAppend(b, Side(nodes[..i], mid, left), nodes[i], left);
  }

  lemma FillAppend(b: KBucket, mine: seq<Node>, n: Node, left: bool)
    requires forall m :: m in mine ==> m.id != n.id
    ensures Add(Filled(b, mine, left), n.id, n.peer).0 == Filled(b, mine + [n], left)
  {
    var h := Filled(b, mine, left);
    assert forall j :: 0 <= j < |h.live| ==> h.live[j] == mine[j];
    assert forall j :: 0 <= j < |h.replacements| ==> h.replacements[j] == mine[|h.live| + j];
    assert !HasId(h.live, n.id) && !HasId(h.replacements, n.id);
    if |mine| < b.size {
      assert Take(mine + [n], b.size) == mine + [n];
    } else {
      assert Take(mine + [n], b.size) == mine[..b.size];
      assert (mine + [n])[b.size..] == mine[b.size..] + [n];
    }
  }
}
