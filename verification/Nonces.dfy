/**
 Replay protection in `SignatureAuthorizer.validate_request`: a request is accepted only if its
 time stamp is within a minute of the local clock and its nonce is not in the store of recent
 nonces, where an accepted nonce is kept for three minutes. Signature checks are predicates of the
 request.
 */
module Nonces {
  import opened Collections
  import opened TimedStorages

  /** _MAX_CLIENT_SERVICER_TIME_DIFF, in seconds. */
  const MAX_DIFFERENCE := 60.0

  /** `genuine`: the signature verifies; `forUs`: no other service key is named. */
  datatype Request = Request(nonce: Key, time: real, genuine: bool, forUs: bool)

  /** The clock readings taken while one request is handled: at the start, for the second
      membership test, and for the guard and the purge of the nonce store. */
  datatype Clock = Clock(start: real, check: real, guard: real, purge: real) {
    ghost predicate Ordered() {
      start <= check <= guard <= purge
    }
  }

  type NonceStore = FlatState<()>

  predicate InWindow(time: real, now: real) {
    -MAX_DIFFERENCE <= time - now <= MAX_DIFFERENCE
  }

  function Validate(s: NonceStore, r: Request, t: Clock): (NonceStore, bool) {
    if !r.genuine || !r.forUs || !InWindow(r.time, t.start) || r.nonce in s.records then (s, false)
    else
      var s := Purged(s, t.check);
      if r.nonce in s.records then (s, false)
      else (Store(s, r.nonce, (), t.start + 3.0 * MAX_DIFFERENCE, t.guard, t.purge).0, true)
  }

  class SignatureAuthorizer {
    const recentNonces: TimedStorage<()>

    constructor ()
      ensures fresh(recentNonces) && recentNonces.Valid() && recentNonces.Flat() == FlatState(map[], false, Unlimited)
    {
      recentNonces := new TimedStorage(None);
    }

    method ValidateRequest(r: Request, t: Clock) returns (accepted: bool)
      requires recentNonces.Valid() && !recentNonces.frozen
      modifies recentNonces
      ensures recentNonces.Valid() && !recentNonces.frozen
      ensures (recentNonces.Flat(), accepted) == Validate(old(recentNonces.Flat()), r, t)
    {
      if !r.genuine || !r.forUs {
        return false;
      }
      var was := recentNonces.SetFrozen(true);
      if r.time - t.start > MAX_DIFFERENCE || t.start - r.time > MAX_DIFFERENCE {
        was := recentNonces.SetFrozen(was);
        return false;
      }
      var seen := recentNonces.Get(r.nonce, t.start);
      was := recentNonces.SetFrozen(was);
      if seen.Some? {
        return false;
      }
      seen := recentNonces.Get(r.nonce, t.check);
      if seen.Some? {
        return false;
      }
      var _ := recentNonces.StoreValue(r.nonce, (), t.start + 3.0 * MAX_DIFFERENCE, t.guard, t.purge);
      return true;
    }
  }

  // ----- whole runs

  type Run = seq<(Request, Clock)>

  /** The clock never goes back, within a request or from one to the next. */
  ghost predicate Nondecreasing(run: Run) {
    && (forall i :: 0 <= i < |run| ==> run[i].1.Ordered())
    && (forall i, j :: 0 <= i < j < |run| ==> run[i].1.purge <= run[j].1.start)
  }

  ghost function After(run: Run): NonceStore {
    if run == [] then FlatState(map[], false, Unlimited)
    else Validate(After(run[..|run| - 1]), run[|run| - 1].0, run[|run| - 1].1).0
  }

  ghost predicate Accepted(run: Run, i: nat)
    requires i < |run|
  {
    Validate(After(run[..i]), run[i].0, run[i].1).1
  }

  /** Until it is overdue at the last clock reading, an accepted nonce is in the store. */
  ghost predicate Remembered(s: NonceStore, r: Request, t: Clock, last: real) {
    last <= t.start + 3.0 * MAX_DIFFERENCE ==>
      r.nonce in s.records && s.records[r.nonce].evictAt >= t.start + 3.0 * MAX_DIFFERENCE
  }

  lemma StoreRecords(s: NonceStore, nonce: Key, due: real, guard: real, purge: real)
    requires s.limit == Unlimited && nonce !in s.records && guard <= purge <= due
    ensures var s' := Store(s, nonce, (), due, guard, purge).0; nonce in s'.records && s'.records[nonce].evictAt == due
  {
    UnlimitedPurge(s.records[nonce := Record((), due, due)], purge);
  }

  lemma ValidateRemembers(s: NonceStore, r: Request, t: Clock)
    requires s.limit == Unlimited && !s.frozen && t.Ordered() && Validate(s, r, t).1
    ensures Remembered(Validate(s, r, t).0, r, t, t.purge)
  {
    var due := t.start + 3.0 * MAX_DIFFERENCE;
    if t.purge <= due {
      StoreRecords(Purged(s, t.check), r.nonce, due, t.guard, t.purge);
    }
  }

  lemma ValidateKeeps(s: NonceStore, r: Request, t: Clock, r0: Request, t0: Clock, last: real)
    requires s.limit == Unlimited && !s.frozen && t.Ordered() && last <= t.start && t0.start <= t.start
    requires Remembered(s, r0, t0, last)
    ensures Remembered(Validate(s, r, t).0, r0, t0, t.purge)
  {
    UnlimitedPurge(s.records, t.check);
    var s1 := Purged(s, t.check);
    UnlimitedPurge(s1.records[r.nonce := Record((), t.start + 3.0 * MAX_DIFFERENCE, t.start + 3.0 * MAX_DIFFERENCE)],
                   t.purge);
  }

  lemma {:induction false} RunShape(run: Run)
    ensures After(run).limit == Unlimited && !After(run).frozen
    decreases run
  {
    if run != [] {
      RunShape(run[..|run| - 1]);
    }
  }

  lemma {:induction false} RunRemembers(run: Run, i: nat)
    requires Nondecreasing(run) && i < |run| && Accepted(run, i)
    ensures Remembered(After(run), run[i].0, run[i].1, run[|run| - 1].1.purge)
    decreases |run|
  {
    var n := |run| - 1;
    var init := run[..n];
    RunShape(init);
    if i == n {
      ValidateRemembers(After(init), run[n].0, run[n].1);
    } else {
      assert run[..i] == init[..i];
      RunRemembers(init, i);
      assert run[i].1.Ordered() && run[n].1.Ordered();
      ValidateKeeps(After(init), run[n].0, run[n].1, run[i].0, run[i].1, run[n - 1].1.purge);
    }
  }

  /** Two accepted requests with the same nonce carry time stamps more than a minute apart. In
      particular the same request is never accepted twice. */
  lemma NoReplay(run: Run, i: nat, j: nat)
    requires Nondecreasing(run) && i < j < |run| && Accepted(run, i) && Accepted(run, j)
    requires run[i].0.nonce == run[j].0.nonce
    ensures run[j].0.time - run[i].0.time > MAX_DIFFERENCE
  {
    var before := run[..j];
    assert before[..i] == run[..i];
    RunRemembers(before, i);
    assert run[i].1.Ordered() && run[j - 1].1.purge <= run[j].1.start;
  }

  /** A request is accepted exactly if it is genuine, for this service, stamped within a minute of the
      local clock, and its nonce is not in the store. */
  lemma ValidateIff(s: NonceStore, r: Request, t: Clock)
    ensures Validate(s, r, t).1 <==>
            r.genuine && r.forUs && -60.0 <= r.time - t.start <= 60.0 && r.nonce !in s.records
    ensures !Validate(s, r, t).1 ==> Validate(s, r, t).0 == s
  {
    PurgeMeaning(s.records, s.limit, t.check);
  }

  /** Only nonces of accepted requests are in the store. */
  lemma {:induction false} RecordedWasAccepted(run: Run, nonce: Key) returns (i: nat)
    requires nonce in After(run).records
    ensures i < |run| && Accepted(run, i) && run[i].0.nonce == nonce
    decreases run
  {
    var n := |run| - 1;
    var init, s := run[..n], After(run[..n]);
    if Accepted(run, n) && run[n].0.nonce == nonce {
      i := n;
    } else {
      ValidateAdds(s, run[n].0, run[n].1, nonce);
      i := RecordedWasAccepted(init, nonce);
      assert init[..i] == run[..i];
    }
  }

  lemma ValidateAdds(s: NonceStore, r: Request, t: Clock, nonce: Key)
    requires nonce in Validate(s, r, t).0.records
    ensures nonce in s.records || (Validate(s, r, t).1 && r.nonce == nonce)
  {
    PurgeMeaning(s.records, s.limit, t.check);
    if Validate(s, r, t).1 {
      StoreAnswer(Purged(s, t.check), r.nonce, (), t.start + 3.0 * MAX_DIFFERENCE, t.guard, t.purge);
      PurgeMeaning(Purged(s, t.check).records[r.nonce := Record((), t.start + 3.0 * MAX_DIFFERENCE,
                                                                t.start + 3.0 * MAX_DIFFERENCE)], s.limit, t.purge);
    }
  }

  /** No accepted request before the i-th has carried its nonce. */
  ghost predicate NewNonce(run: Run, i: nat)
    requires i < |run|
  {
    forall j :: 0 <= j < i && Accepted(run, j) ==> run[j].0.nonce != run[i].0.nonce
  }

  /** In every run an accepted request is genuine, for this service and timely, and every genuine, timely
      request for this service is accepted whose nonce no accepted request has carried before. */
  lemma FreshIsAccepted(run: Run, i: nat)
    requires i < |run|
    ensures Accepted(run, i) ==> run[i].0.genuine && run[i].0.forUs && InWindow(run[i].0.time, run[i].1.start)
    ensures run[i].0.genuine && run[i].0.forUs && InWindow(run[i].0.time, run[i].1.start) && NewNonce(run, i) ==>
              Accepted(run, i)
  {
    var before, r := run[..i], run[i].0;
    ValidateIff(After(before), r, run[i].1);
    if r.nonce in After(before).records {
      var j := RecordedWasAccepted(before, r.nonce);
      assert before[..j] == run[..j];
      assert Accepted(run, j);
    }
  }

  // ----- exactly which nonces are refused

  /** When an accepted nonce is due to leave the store. */
  function Due(t: Clock): real {
    t.start + 3.0 * MAX_DIFFERENCE
  }

  /** The last reading at which an accepted request purges the store: a nonce that is overdue by then is
      not stored, and so does not purge it again. */
  function Swept(t: Clock): real {
    if t.guard <= Due(t) then t.purge else t.check
  }

  /** If the k-th request was accepted, it purged the store no later than this. */
  ghost predicate InTime(run: Run, k: nat, due: real)
    requires k < |run|
  {
    Accepted(run, k) ==> Swept(run[k].1) <= due
  }

  /** The j-th request was accepted with this nonce, and no request has been accepted too late since. */
  ghost predicate KeptSince(run: Run, nonce: Key, j: nat) {
    && j < |run| && Accepted(run, j) && run[j].0.nonce == nonce && run[j].1.guard <= Due(run[j].1)
    && forall k :: j <= k < |run| ==> InTime(run, k, Due(run[j].1))
  }

  /** What the store holds after an accepted request. */
  lemma ValidateStore(s: NonceStore, r: Request, t: Clock)
    requires s.limit == Unlimited && !s.frozen && t.Ordered() && Validate(s, r, t).1
    ensures var m := Validate(s, r, t).0.records;
            && (forall x :: x != r.nonce ==> (x in m <==> x in s.records && s.records[x].evictAt >= Swept(t)))
            && (forall x :: x != r.nonce && x in m ==> m[x] == s.records[x])
            && (r.nonce in m <==> t.guard <= Due(t) && Swept(t) <= Due(t))
            && (r.nonce in m ==> m[r.nonce].evictAt == Due(t))
  {
    var s1 := Purged(s, t.check);
    UnlimitedPurge(s.records, t.check);
    UnlimitedPurge(s1.records[r.nonce := Record((), Due(t), Due(t))], t.purge);
  }

  lemma PrefixAccepts(run: Run, n: nat, k: nat)
    requires k < n <= |run|
    ensures Accepted(run[..n], k) == Accepted(run, k)
  {
    assert run[..n][..k] == run[..k];
  }

  lemma {:induction false} KeptBefore(run: Run, nonce: Key, j: nat)
    requires run != [] && j < |run| - 1
    ensures var n := |run| - 1;
            KeptSince(run, nonce, j) <==>
            KeptSince(run[..n], nonce, j) && InTime(run, n, Due(run[j].1))
  {
    var n := |run| - 1;
    PrefixAccepts(run, n, j);
    forall k | 0 <= k < n
      ensures InTime(run[..n], k, Due(run[j].1)) == InTime(run, k, Due(run[j].1))
    {
      PrefixAccepts(run, n, k);
    }
  }

  /** In every run a nonce is in the store exactly if it is kept since some request, and due with it. */
  ghost predicate StoreAgrees(run: Run) {
    var m := After(run).records;
    && (forall x, j: nat :: KeptSince(run, x, j) ==> x in m && m[x].evictAt == Due(run[j].1))
    && (forall x :: x in m ==> exists j: nat :: KeptSince(run, x, j) && m[x].evictAt == Due(run[j].1))
  }

  lemma {:induction false} RunAgrees(run: Run)
    requires Nondecreasing(run)
    ensures StoreAgrees(run)
    decreases run
  {
    if run != [] {
      var n := |run| - 1;
      RunAgrees(run[..n]);
      RunShape(run[..n]);
      forall x, j: nat | KeptSince(run, x, j)
        ensures x in After(run).records && After(run).records[x].evictAt == Due(run[j].1)
      {
        KeptIsStored(run, x, j);
      }
      forall x | x in After(run).records
        ensures exists j: nat :: KeptSince(run, x, j) && After(run).records[x].evictAt == Due(run[j].1)
      {
        var j := StoredIsKept(run, x);
      }
    }
  }

  lemma {:induction false} KeptIsStored(run: Run, x: Key, j: nat)
    requires run != [] && StoreAgrees(run[..|run| - 1]) && KeptSince(run, x, j)
    requires After(run[..|run| - 1]).limit == Unlimited && !After(run[..|run| - 1]).frozen && run[|run| - 1].1.Ordered()
    ensures x in After(run).records && After(run).records[x].evictAt == Due(run[j].1)
  {
    var n := |run| - 1;
    var s := After(run[..n]);
    assert InTime(run, n, Due(run[j].1));
    ValidateIff(s, run[n].0, run[n].1);
    if Accepted(run, n) {
      ValidateStore(s, run[n].0, run[n].1);
    }
    if j < n {
      KeptBefore(run, x, j);
    }
  }

  lemma {:induction false} StoredIsKept(run: Run, x: Key) returns (j: nat)
    requires run != [] && StoreAgrees(run[..|run| - 1]) && x in After(run).records
    requires After(run[..|run| - 1]).limit == Unlimited && !After(run[..|run| - 1]).frozen && run[|run| - 1].1.Ordered()
    ensures KeptSince(run, x, j) && After(run).records[x].evictAt == Due(run[j].1)
  {
    var n := |run| - 1;
    var s := After(run[..n]);
    ValidateIff(s, run[n].0, run[n].1);
    if Accepted(run, n) {
      ValidateStore(s, run[n].0, run[n].1);
    }
    if Accepted(run, n) && x == run[n].0.nonce {
      j := n;
    } else {
      j :| KeptSince(run[..n], x, j) && s.records[x].evictAt == Due(run[..n][j].1);
      KeptBefore(run, x, j);
    }
  }

  /** In every run a request is accepted exactly if it is genuine, for this service and timely, and its
      nonce is not kept since an earlier one: if a request with it was accepted, then another has been
      accepted more than three minutes later. Until then the nonce is refused, however old. */
  lemma AcceptedIff(run: Run, i: nat)
    requires Nondecreasing(run) && i < |run|
    ensures Accepted(run, i) <==>
            && run[i].0.genuine && run[i].0.forUs && InWindow(run[i].0.time, run[i].1.start)
            && forall j: nat :: !KeptSince(run[..i], run[i].0.nonce, j)
  {
    RunAgrees(run[..i]);
    ValidateIff(After(run[..i]), run[i].0, run[i].1);
  }
}
