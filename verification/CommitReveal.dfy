/**
 `MockHypertensorCommitReveal`: the record predicate that limits how often a peer may store
 heartbeats, commits and reveals per epoch, and separates the commit and the reveal phase of an
 epoch. The tracker of stores forgets epochs that are too old.
 */
module CommitReveals {
  import opened Collections

  type Peer = nat

  const MAX_EPOCH_HISTORY := 5
  const COMMIT_DEADLINE := 0.5
  const REVEAL_DEADLINE := 0.6
  const EPOCH_SECONDS := 6.0 * 300.0

  datatype Kind = Heartbeat | Commit | Reveal

  /** Record keys are hashes of names; distinct names are taken to have distinct hashes. */
  datatype RecordKey = HeartbeatKey | CommitKey(epoch: int) | RevealKey(epoch: int) | OtherKey

  /** A validation request. `peer` is None if the sub-key holds no valid public key. */
  datatype Post = Post(peer: Option<Peer>, key: RecordKey, expiration: real, isGet: bool, epoch: int, progress: real,
                       now: real)

  type Tracker = map<int, map<(Kind, Peer), nat>>

  function Limit(kind: Kind): nat {
    match kind case Heartbeat => 100 case Commit => 1 case Reveal => 1
  }

  function KindOf(key: RecordKey, epoch: int): Option<Kind> {
    match key
    case HeartbeatKey => Some(Heartbeat)
    case CommitKey(e) => if e == epoch then Some(Commit) else None
    case RevealKey(e) => if e == epoch then Some(Reveal) else None
    case OtherKey => None
  }

  function Count(t: Tracker, epoch: int, kind: Kind, peer: Peer): nat {
    if epoch in t && (kind, peer) in t[epoch] then t[epoch][(kind, peer)] else 0
  }

  /** Reading or writing a counter creates it, as a defaultdict does. */
  function SetCount(t: Tracker, epoch: int, kind: Kind, peer: Peer, n: nat): Tracker {
    var counts: map<(Kind, Peer), nat> := if epoch in t then t[epoch] else map[];
    t[epoch := counts[(kind, peer) := n]]
  }

  function Cleanup(t: Tracker, epoch: int): Tracker {
    map e | e in t && e >= epoch - MAX_EPOCH_HISTORY :: t[e]
  }

  /** Deadlines and expirations. */
  predicate Timely(kind: Kind, p: Post) {
    match kind
    case Heartbeat => p.expiration <= p.now + EPOCH_SECONDS * 1.1
    case Commit => p.progress <= COMMIT_DEADLINE && p.expiration <= p.now + EPOCH_SECONDS * 2.0
    case Reveal => COMMIT_DEADLINE < p.progress <= REVEAL_DEADLINE && p.expiration <= p.now + EPOCH_SECONDS * 2.0
  }

  /** `__call__`. */
  function Judge(t: Tracker, p: Post): (Tracker, bool) {
    if p.peer.None? then (t, false)
    else if p.isGet then (t, true)
    else
      var t := Cleanup(t, p.epoch);
      var kind := KindOf(p.key, p.epoch);
      if kind.None? then (t, false)
      else
        var n := Count(t, p.epoch, kind.value, p.peer.value);
        var t := SetCount(t, p.epoch, kind.value, p.peer.value, n);
        if n >= Limit(kind.value) || !Timely(kind.value, p) then (t, false)
        else (SetCount(t, p.epoch, kind.value, p.peer.value, n + 1), true)
  }

  class CommitReveal {
    var tracker: Tracker

    constructor ()
      ensures tracker == map[]
    {
      tracker := map[];
    }

    method Call(p: Post) returns (valid: bool)
      modifies this
      ensures (tracker, valid) == Judge(old(tracker), p)
    {
      if p.peer.None? {
        return false;
      }
      if p.isGet {
        return true;
      }
      var peer := p.peer.value;
      CleanupOldEpochs(p.epoch);
      var kind := KindOf(p.key, p.epoch);
      if kind.None? {
        return false;
      }
      var n := Count(tracker, p.epoch, kind.value, peer);
      tracker := SetCount(tracker, p.epoch, kind.value, peer, n);
      if n >= Limit(kind.value) {
        return false;
      }
      if kind.value == Heartbeat {
        if p.expiration > p.now + EPOCH_SECONDS * 1.1 {
          return false;
        }
      } else if kind.value == Commit {
        if p.progress > COMMIT_DEADLINE {
          return false;
        }
        if p.expiration > p.now + EPOCH_SECONDS * 2.0 {
          return false;
        }
      } else {
        if p.progress <= COMMIT_DEADLINE || p.progress > REVEAL_DEADLINE {
          return false;
        }
        if p.expiration > p.now + EPOCH_SECONDS * 2.0 {
          return false;
        }
      }
      tracker := SetCount(tracker, p.epoch, kind.value, peer, n + 1);
      return true;
    }

    /** Delete the old epochs one by one. */
    method CleanupOldEpochs(epoch: int)
      modifies this
      ensures tracker == Cleanup(old(tracker), epoch)
    {
      var outdated := set e | e in tracker && e < epoch - MAX_EPOCH_HISTORY;
      while outdated != {}
        invariant forall e :: e in tracker ==> (e in outdated <==> e < epoch - MAX_EPOCH_HISTORY)
        invariant outdated <= tracker.Keys
        invariant Cleanup(tracker, epoch) == Cleanup(old(tracker), epoch)
        decreases outdated
      {
        ghost var some := SomeElement(outdated);
        var e: int :| e in outdated;
        ghost var before := tracker;
        outdated, tracker := outdated - {e}, tracker - {e};
        assert Cleanup(tracker, epoch) == Cleanup(before, epoch);
      }
      assert Cleanup(tracker, epoch) == tracker;
    }
  }

  // ----- whole runs

  /** Epochs never go back, and progress does not go back within an epoch. */
  ghost predicate Chronological(run: seq<Post>) {
    forall i, j :: 0 <= i < j < |run| ==>
      run[i].epoch < run[j].epoch || (run[i].epoch == run[j].epoch && run[i].progress <= run[j].progress)
  }

  function After(run: seq<Post>): Tracker {
    if run == [] then map[] else Judge(After(run[..|run| - 1]), run[|run| - 1]).0
  }

  /** The i-th request was a store of this kind, accepted. */
  ghost predicate Accepted(run: seq<Post>, i: nat, kind: Kind)
    requires i < |run|
  {
    !run[i].isGet && KindOf(run[i].key, run[i].epoch) == Some(kind) && Judge(After(run[..i]), run[i]).1
  }

  /** How many stores of this kind by this peer in this epoch were accepted. */
  ghost function Total(run: seq<Post>, epoch: int, kind: Kind, peer: Peer): nat {
    if run == [] then 0
    else
      var n := |run| - 1;
      Total(run[..n], epoch, kind, peer) +
      (if run[n].epoch == epoch && run[n].peer == Some(peer) && Accepted(run, n, kind) then 1 else 0)
  }

  /** Only epochs up to the last one are tracked, and for each of the last few epochs the tracker
      counts exactly the accepted stores. */
  ghost predicate Counts(run: seq<Post>, t: Tracker, epoch: int) {
    && (forall e :: e in t ==> e <= epoch)
    && (forall e, k, p: Peer :: e >= epoch - MAX_EPOCH_HISTORY ==> Count(t, e, k, p) == Total(run, e, k, p))
    && (forall e, k, p: Peer :: e > epoch ==> Total(run, e, k, p) == 0)
    && (forall e, k, p: Peer :: Total(run, e, k, p) <= Limit(k))
  }

  /** One request changes one counter by one if it is accepted, and no other. */
  lemma JudgeCounts(t: Tracker, q: Post, e: int, k: Kind, p: Peer)
    ensures var hit := q.epoch == e && q.peer == Some(p) && !q.isGet && KindOf(q.key, q.epoch) == Some(k)
            && Judge(t, q).1;
            && (e >= q.epoch - MAX_EPOCH_HISTORY ==>
                  Count(Judge(t, q).0, e, k, p) == Count(t, e, k, p) + (if hit then 1 else 0))
            && (hit ==> Count(t, e, k, p) < Limit(k))
  {
  }

  lemma JudgeKeys(t: Tracker, q: Post)
    ensures forall e :: e in Judge(t, q).0 ==> e in t || e == q.epoch
    ensures q.peer.Some? && !q.isGet ==> forall e :: e in Judge(t, q).0 ==> e >= q.epoch - MAX_EPOCH_HISTORY
  {
  }

  lemma {:induction false} RunCounts(run: seq<Post>)
    requires run != [] && Chronological(run)
    ensures Counts(run, After(run), run[|run| - 1].epoch)
    decreases run
  {
    var n := |run| - 1;
    var init, q := run[..n], run[n];
    var last := if n == 0 then q.epoch else run[n - 1].epoch;
    if n > 0 {
      RunCounts(init);
    }
    assert Counts(init, After(init), last);
    JudgeKeys(After(init), q);
    forall e, k, p: Peer
      ensures e >= q.epoch - MAX_EPOCH_HISTORY ==> Count(After(run), e, k, p) == Total(run, e, k, p)
      ensures e > q.epoch ==> Total(run, e, k, p) == 0
      ensures Total(run, e, k, p) <= Limit(k)
    {
      JudgeCounts(After(init), q, e, k, p);
      assert Total(run, e, k, p) == Total(init, e, k, p)
             + (if q.epoch == e && q.peer == Some(p) && Accepted(run, n, k) then 1 else 0);
    }
  }

  /** Accepted stores per epoch, kind and peer never exceed the limit, although the tracker
      forgets old epochs. */
  lemma StoreLimit(run: seq<Post>, epoch: int, kind: Kind, peer: Peer)
    requires Chronological(run)
    ensures Total(run, epoch, kind, peer) <= Limit(kind)
  {
    if run != [] {
      RunCounts(run);
    }
  }

  /** Every accepted commit of an epoch precedes every accepted reveal of that epoch. */
  lemma CommitsBeforeReveals(run: seq<Post>, i: nat, j: nat)
    requires Chronological(run) && i < |run| && j < |run| && run[i].epoch == run[j].epoch
    requires Accepted(run, i, Commit) && Accepted(run, j, Reveal)
    ensures i < j
  {
    assert run[i].progress <= COMMIT_DEADLINE < run[j].progress;
  }

  /** In every chronological run a store is accepted exactly if the peer has accepted stores of this
      kind left in this epoch and the store is timely; for a commit that is a matter of the commit
      deadline and the expiration alone, however early in the epoch. */
  lemma AcceptedIff(run: seq<Post>, i: nat, kind: Kind)
    requires Chronological(run) && i < |run| && !run[i].isGet
    requires run[i].peer.Some? && KindOf(run[i].key, run[i].epoch) == Some(kind)
    ensures var p := run[i];
            && (Accepted(run, i, kind) <==>
                Total(run[..i], p.epoch, kind, p.peer.value) < Limit(kind) && Timely(kind, p))
            && (kind == Commit ==>
                  (Accepted(run, i, kind) <==>
                   && Total(run[..i], p.epoch, kind, p.peer.value) == 0
                   && p.progress <= COMMIT_DEADLINE
                   && p.expiration <= p.now + EPOCH_SECONDS * 2.0))
  {
    var p, init := run[i], run[..i];
    if i > 0 {
      RunCounts(init);
      assert Count(After(init), p.epoch, kind, p.peer.value) == Total(init, p.epoch, kind, p.peer.value) by {
        assert init[i - 1].epoch <= p.epoch;
      }
    }
  }

  /** In every chronological run, what every request is answered. Without a valid peer it is refused. A
      GET is granted, and changes nothing. A heartbeat is stored if the peer has stored fewer than 100 in
      this epoch and it expires within 1980 seconds; a commit if it is the first of the peer for the
      current epoch, comes by half of it, and expires within 3600 seconds; a reveal likewise, but after
      half and by three fifths; anything else is refused. */
  lemma AnswerIff(run: seq<Post>, i: nat)
    requires Chronological(run) && i < |run|
    ensures var p, before := run[i], run[..i];
            && (Judge(After(before), p).1 <==>
                && p.peer.Some?
                && (p.isGet ||
                    match p.key
                    case HeartbeatKey =>
                      Total(before, p.epoch, Heartbeat, p.peer.value) < 100 && p.expiration <= p.now + 1980.0
                    case CommitKey(e) =>
                      && e == p.epoch && Total(before, p.epoch, Commit, p.peer.value) == 0
                      && p.progress <= 0.5 && p.expiration <= p.now + 3600.0
                    case RevealKey(e) =>
                      && e == p.epoch && Total(before, p.epoch, Reveal, p.peer.value) == 0
                      && 0.5 < p.progress <= 0.6 && p.expiration <= p.now + 3600.0
                    case OtherKey => false))
            && (p.peer.None? || p.isGet ==> Judge(After(before), p).0 == After(before))
  {
    var p := run[i];
    var kind := KindOf(p.key, p.epoch);
    if p.peer.Some? && !p.isGet && kind.Some? {
      AcceptedIff(run, i, kind.value);
    }
  }

  /** A commit at the very start of an epoch is accepted. */
  lemma EarlyCommit(peer: Peer, epoch: int, now: real)
    ensures Accepted([Post(Some(peer), CommitKey(epoch), now, false, epoch, 0.0, now)], 0, Commit)
  {
    AcceptedIff([Post(Some(peer), CommitKey(epoch), now, false, epoch, 0.0, now)], 0, Commit);
  }

  /** Of the current epoch and the five before it the tracker forgets no accepted store. */
  lemma TrackerRemembers(run: seq<Post>, epoch: int, kind: Kind, peer: Peer)
    requires Chronological(run) && run != [] && epoch >= run[|run| - 1].epoch - 5
    ensures Count(After(run), epoch, kind, peer) == Total(run, epoch, kind, peer)
  {
    RunCounts(run);
  }

  /** After every request the tracker holds at most MAX_EPOCH_HISTORY + 1 epochs. */
  lemma {:induction false} TrackerBounded(run: seq<Post>)
    requires Chronological(run)
    ensures |After(run)| <= MAX_EPOCH_HISTORY + 1
    decreases run
  {
    if run != [] {
      var q := run[|run| - 1];
      if q.peer.Some? && !q.isGet {
        RunCounts(run);
        JudgeKeys(After(run[..|run| - 1]), q);
        IntervalSize(After(run).Keys, q.epoch - MAX_EPOCH_HISTORY, MAX_EPOCH_HISTORY + 1);
      } else {
        TrackerBounded(run[..|run| - 1]);
      }
    }
  }

  lemma {:induction false} IntervalSize(S: set<int>, low: int, n: nat)
    requires forall e :: e in S ==> low <= e < low + n
    ensures |S| <= n
    decreases n
  {
    if n == 0 {
      if S != {} {
        var x := SomeElement(S);
        assert false;
      }
    } else {
      var top := low + n - 1;
      IntervalSize(S - {top}, low, n - 1);
      assert S <= (S - {top}) + {top};
      assert |S| <= |(S - {top}) + {top}|;
    }
  }
}
