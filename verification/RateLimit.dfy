/**
 The sliding-window rate limiter: `_check_rate_limit` admits or refuses a request of a peer,
 `_detect_threat` and `_handle_threat` grade and punish refusals, `_record_violation` counts
 other offences.
 */
module RateLimits {
  import opened Collections

  type PeerId = nat

  datatype Level = Normal | Suspicious | Moderate | High | Critical {
    function Rank(): nat {
      match this case Normal => 0 case Suspicious => 1 case Moderate => 2 case High => 3 case Critical => 4
    }
  }

  datatype Config = Config(
    perSecond: nat, perMinute: nat, perHour: nat, burst: nat,
    suspicious: real, blocking: real, ipBan: real,              // multiples of perSecond
    short: real, medium: real, long: real,                      // window lengths
    temporaryBlock: real, extendedBlock: real,
    banning: bool,                                              // enabled, with a callback
    banCount: nat)
  {
    ghost predicate Valid() {
      0.0 < short <= medium <= long && suspicious >= 0.0
    }

    /** The most requests that one short window can admit. */
    function ShortLimit(): nat
      requires suspicious >= 0.0
    {
      var soft := (perSecond as real * suspicious).Floor + 1;
      if burst <= soft then burst else soft
    }
  }

  /** What is tracked for one peer. */
  datatype Peer = Peer(requests: seq<real>, level: Level, blockedUntil: Option<real>, violations: nat, banned: bool)

  const NEW_PEER := Peer([], Normal, None, 0, false)

  /** How many of the times lie after t. */
  function CountAfter(times: seq<real>, t: real): nat {
    if times == [] then 0 else CountAfter(times[..|times| - 1], t) + (if times[|times| - 1] > t then 1 else 0)
  }

  /** Drop the leading requests older than the cutoff. */
  function DropOld(times: seq<real>, cutoff: real): seq<real> {
    if times != [] && times[0] < cutoff then DropOld(times[1..], cutoff) else times
  }

  function Detect(c: Config, violations: nat, inShort: nat, inMedium: nat, inLong: nat): Level {
    var rate := c.perSecond as real;
    if inShort as real > rate * c.ipBan || violations >= c.banCount then Critical
    else if inShort as real > rate * c.blocking then High
    else if inMedium >= c.perMinute then Moderate
    else if inLong >= c.perHour then Moderate
    else if inShort >= c.burst then Suspicious
    else if inShort as real > rate * c.suspicious then Suspicious
    else Normal
  }

  function Handle(c: Config, p: Peer, level: Level, now: real): Peer {
    var p := p.(level := if level.Rank() > p.level.Rank() then level else p.level, violations := p.violations + 1);
    match level
    case Normal => p
    case Suspicious => p
    case Moderate => p.(blockedUntil := Some(now + c.temporaryBlock))
    case High => p.(blockedUntil := Some(now + c.extendedBlock))
    case Critical => if c.banning then p.(banned := true) else p.(blockedUntil := Some(now + 86400.0))
  }

  /** `_check_rate_limit` for one peer; a block is timed by a second, later clock reading. */
  function Check(c: Config, p: Peer, now: real, later: real): (Peer, bool) {
    if p.banned then (p, false)
    else if p.blockedUntil.Some? && now < p.blockedUntil.value then (p, false)
    else
      var p := p.(blockedUntil := None, requests := DropOld(p.requests, now - c.long));
      var level := Detect(c, p.violations, CountAfter(p.requests, now - c.short),
                          CountAfter(p.requests, now - c.medium), |p.requests|);
      if level != Normal then (Handle(c, p, level, later), false)
      else (p.(requests := p.requests + [now]), true)
  }

  /** `_record_violation`. */
  function Violate(c: Config, p: Peer, now: real): Peer {
    var p := p.(violations := p.violations + 1);
    if p.violations >= 5 then Handle(c, p, Suspicious, now) else p
  }

  /** The clean-up loop over the front of the deque. */
  method Prune(times: seq<real>, cutoff: real) returns (recent: seq<real>)
    ensures recent == DropOld(times, cutoff)
  {
    recent := times;
    while recent != [] && recent[0] < cutoff
      invariant DropOld(recent, cutoff) == DropOld(times, cutoff)
      decreases |recent|
    {
      recent := recent[1..];
    }
  }

  class RateLimiter {
    const c: Config
    var requests: map<PeerId, seq<real>>
    var levels: map<PeerId, Level>
    var blocked: map<PeerId, real>
    var violations: map<PeerId, nat>
    var banned: set<PeerId>

    function PeerState(id: PeerId): Peer
      reads this
    {
      Peer(if id in requests then requests[id] else [],
           if id in levels then levels[id] else Normal,
           if id in blocked then Some(blocked[id]) else None,
           if id in violations then violations[id] else 0,
           id in banned)
    }

    constructor (c: Config)
      ensures this.c == c && forall id :: PeerState(id) == NEW_PEER
    {
      this.c := c;
      requests, levels, blocked, violations, banned := map[], map[], map[], map[], {};
    }

    method CheckRateLimit(id: PeerId, now: real, later: real) returns (allowed: bool)
      modifies this
      ensures (PeerState(id), allowed) == Check(c, old(PeerState(id)), now, later)
      ensures forall o :: o != id ==> PeerState(o) == old(PeerState(o))
    {
      var refused := StillBlocked(id, now);
      if refused {
        return false;
      }
      var recent := Prune(if id in requests then requests[id] else [], now - c.long);
      requests := requests[id := recent];
      assert PeerState(id) == old(PeerState(id)).(blockedUntil := None, requests := recent);
      var level := Detect(c, if id in violations then violations[id] else 0,
                          CountAfter(recent, now - c.short), CountAfter(recent, now - c.medium), |recent|);
      if level != Normal {
        HandleThreat(id, level, later);
        return false;
      }
      requests := requests[id := recent + [now]];
      return true;
    }

    /** Banned, or blocked for a while longer; a block that has run out is lifted. */
    method StillBlocked(id: PeerId, now: real) returns (refused: bool)
      modifies this`blocked
      ensures refused <==> id in banned || (id in old(blocked) && now < old(blocked)[id])
      ensures blocked == if refused then old(blocked) else old(blocked) - {id}
    {
      if id in banned {
        return true;
      }
      if id in blocked && now < blocked[id] {
        return true;
      }
      blocked := blocked - {id};
      return false;
    }

    method HandleThreat(id: PeerId, level: Level, now: real)
      modifies this`levels, this`blocked, this`violations, this`banned
      ensures PeerState(id) == Handle(c, old(PeerState(id)), level, now)
      ensures forall o :: o != id ==> PeerState(o) == old(PeerState(o))
    {
      var current := if id in levels then levels[id] else Normal;
      if level.Rank() > current.Rank() {
        levels := levels[id := level];
      }
      violations := violations[id := (if id in violations then violations[id] else 0) + 1];
      if level == Moderate {
        blocked := blocked[id := now + c.temporaryBlock];
      } else if level == High {
        blocked := blocked[id := now + c.extendedBlock];
      } else if level == Critical {
        if c.banning {
          banned := banned + {id};
        } else {
          blocked := blocked[id := now + 86400.0];
        }
      }
    }

    method RecordViolation(id: PeerId, now: real)
      modifies this`levels, this`blocked, this`violations, this`banned
      ensures PeerState(id) == Violate(c, old(PeerState(id)), now)
      ensures forall o :: o != id ==> PeerState(o) == old(PeerState(o))
    {
      violations := violations[id := (if id in violations then violations[id] else 0) + 1];
      if violations[id] >= 5 {
        HandleThreat(id, Suspicious, now);
      }
    }
  }

  // ----- runs of one peer

  datatype Event = Ask(now: real, later: real) | Offend(now: real)

  ghost predicate Nondecreasing(run: seq<Event>) {
    forall i, j :: 0 <= i < j < |run| ==> run[i].now <= run[j].now
  }

  function Step(c: Config, p: Peer, e: Event): (Peer, bool) {
    match e
    case Ask(now, later) => Check(c, p, now, later)
    case Offend(now) => (Violate(c, p, now), false)
  }

  function After(c: Config, run: seq<Event>): Peer {
    if run == [] then NEW_PEER else Step(c, After(c, run[..|run| - 1]), run[|run| - 1]).0
  }

  /** The times of the requests admitted in a run. */
  function Admitted(c: Config, run: seq<Event>): seq<real> {
    if run == [] then []
    else
      var init := run[..|run| - 1];
      Admitted(c, init) + (if Step(c, After(c, init), run[|run| - 1]).1 then [run[|run| - 1].now] else [])
  }

  ghost predicate Sorted(times: seq<real>) {
    forall i, j :: 0 <= i < j < |times| ==> times[i] <= times[j]
  }

  /** Any limit + 1 admitted requests in a row span at least the window. */
  ghost predicate Spaced(times: seq<real>, limit: nat, window: real) {
    forall i :: 0 <= i < |times| - limit ==> times[i + limit] - times[i] >= window
  }

  /** How many of the times lie in (from, to]. */
  function CountIn(times: seq<real>, from: real, to: real): nat {
    if times == [] then 0
    else CountIn(times[..|times| - 1], from, to) + (if from < times[|times| - 1] <= to then 1 else 0)
  }

  lemma {:induction false} CountInAtMost(times: seq<real>, from: real, to: real, k: nat)
    requires k <= |times| && forall i :: 0 <= i < k ==> !(from < times[i] <= to)
    ensures CountIn(times, from, to) <= |times| - k
    decreases times
  {
    if |times| > k {
      CountInAtMost(times[..|times| - 1], from, to, k);
    } else if times != [] {
      CountInAtMost(times[..|times| - 1], from, to, k - 1);
    }
  }

  /** Spaced admissions never exceed the limit in any window, wherever it lies. */
  lemma {:induction false} WindowBound(times: seq<real>, limit: nat, window: real, to: real)
    requires Sorted(times) && Spaced(times, limit, window)
    ensures CountIn(times, to - window, to) <= limit
    decreases times
  {
    if times != [] {
      var n := |times| - 1;
      if times[n] > to {
        WindowBound(times[..n], limit, window, to);
      } else if limit <= n {
        assert times[(n - limit) + limit] - times[n - limit] >= window;
        CountInAtMost(times, to - window, to, n - limit + 1);
      } else {
        CountInAtMost(times, to - window, to, 0);
      }
    }
  }

  // ----- the deque against the full history

  /** The deque is the end of the history; what was dropped was older than the long window. */
  ghost predicate Tail(c: Config, deque: seq<real>, history: seq<real>, last: real) {
    && |deque| <= |history|
    && deque == history[|history| - |deque|..]
    && Sorted(history)
    && (forall i :: 0 <= i < |history| ==> history[i] <= last)
    && (forall i :: 0 <= i < |history| - |deque| ==> history[i] < last - c.long)
  }

  lemma {:induction false} DropOldTail(times: seq<real>, cutoff: real)
    requires Sorted(times)
    ensures var r := DropOld(times, cutoff);
            && |r| <= |times| && r == times[|times| - |r|..]
            && (forall i :: 0 <= i < |times| - |r| ==> times[i] < cutoff)
            && (forall i :: |times| - |r| <= i < |times| ==> times[i] >= cutoff)
            && (forall i :: 0 <= i < |r| ==> r[i] >= cutoff)
  {
    if times != [] && times[0] < cutoff {
      DropOldTail(times[1..], cutoff);
    }
  }

  /** If fewer than `limit` times of a sorted list lie after t, the limit-th from the end does not. */
  lemma {:induction false} CountAfterLow(times: seq<real>, t: real, limit: nat)
    requires Sorted(times) && CountAfter(times, t) < limit <= |times|
    ensures times[|times| - limit] <= t
    decreases times
  {
    var n := |times| - 1;
    if times[n] > t {
      CountAfterLow(times[..n], t, limit - 1);
    } else {
      assert times[|times| - limit] <= times[n] by {
        if limit > 1 {
          assert |times| - limit < n;
        }
      }
    }
  }

  lemma {:induction false} AppendSpaced(history: seq<real>, limit: nat, window: real, now: real)
    requires Spaced(history, limit, window) && limit >= 1
    requires |history| >= limit ==> history[|history| - limit] <= now - window
    ensures Spaced(history + [now], limit, window)
  {
    var h := history + [now];
    forall i | 0 <= i < |h| - limit
      ensures h[i + limit] - h[i] >= window
    {
      assert i + limit < |history| ==> history[i + limit] - history[i] >= window;
    }
  }

  lemma {:induction false} SuffixOfSuffix(s: seq<real>, t: seq<real>, u: seq<real>)
    requires |t| <= |s| && t == s[|s| - |t|..] && |u| <= |t| && u == t[|t| - |u|..]
    ensures u == s[|s| - |u|..]
  {
  }

  /** Pruning by the long window keeps the deque the end of the history. */
  lemma {:induction false} PruneTail(c: Config, deque: seq<real>, history: seq<real>, last: real, now: real)
    requires Tail(c, deque, history, last) && last <= now
    ensures Tail(c, DropOld(deque, now - c.long), history, now)
  {
    var k := |history| - |deque|;
    assert forall i :: k <= i < |history| ==> history[i] == deque[i - k];
    DropOldTail(deque, now - c.long);
    SuffixOfSuffix(history, deque, DropOld(deque, now - c.long));
  }

  /** A window count below the limit leaves room in that window of the whole history. */
  lemma {:induction false} RoomInWindow(c: Config, deque: seq<real>, history: seq<real>, now: real, limit: nat,
                                        window: real)
    requires Tail(c, deque, history, now) && window <= c.long
    requires CountAfter(deque, now - window) < limit
    ensures |history| >= limit ==> history[|history| - limit] <= now - window
  {
    if |history| >= limit && |deque| >= limit {
      CountAfterLow(deque, now - window, limit);
      assert deque[|deque| - limit] == history[|history| - limit];
    }
  }

  ghost predicate WithinLimits(c: Config, perShort: nat, history: seq<real>) {
    && Spaced(history, c.perMinute, c.medium)
    && Spaced(history, c.perHour, c.long)
    && Spaced(history, perShort, c.short)
  }

  /** What one event can do to the deque, and what an admission says about its counts. */
  ghost predicate DequeStep(c: Config, deque: seq<real>, deque': seq<real>, now: real, admitted: bool)
    requires c.Valid()
  {
    var r := DropOld(deque, now - c.long);
    if admitted then
      && CountAfter(r, now - c.short) < c.ShortLimit()
      && CountAfter(r, now - c.medium) < c.perMinute
      && |r| < c.perHour
      && deque' == r + [now]
    else deque' == deque || deque' == r
  }

  lemma StepDeque(c: Config, p: Peer, e: Event)
    requires c.Valid()
    ensures DequeStep(c, p.requests, Step(c, p, e).0.requests, e.now, Step(c, p, e).1)
  {
  }

  lemma {:induction false} AppendTail(c: Config, deque: seq<real>, history: seq<real>, now: real)
    requires Tail(c, deque, history, now)
    ensures Tail(c, deque + [now], history + [now], now)
  {
  }

  lemma {:induction false} AdmitWithinLimits(c: Config, perShort: nat, deque: seq<real>, history: seq<real>, now: real)
    requires c.short <= c.medium <= c.long && Tail(c, deque, history, now) && WithinLimits(c, perShort, history)
    requires CountAfter(deque, now - c.short) < perShort
    requires CountAfter(deque, now - c.medium) < c.perMinute
    requires |deque| < c.perHour
    ensures WithinLimits(c, perShort, history + [now])
  {
    AdmitSpaced(c, deque, history, now, c.perMinute, c.medium);
    AdmitLong(c, deque, history, now, c.perHour);
    AdmitSpaced(c, deque, history, now, perShort, c.short);
  }

  lemma {:induction false} AdmitLong(c: Config, deque: seq<real>, history: seq<real>, now: real, limit: nat)
    requires Tail(c, deque, history, now) && Spaced(history, limit, c.long) && |deque| < limit
    ensures Spaced(history + [now], limit, c.long)
  {
    AppendSpaced(history, limit, c.long, now);
  }

  lemma {:induction false} AdmitSpaced(c: Config, deque: seq<real>, history: seq<real>, now: real, limit: nat,
                                       window: real)
    requires Tail(c, deque, history, now) && window <= c.long && Spaced(history, limit, window)
    requires CountAfter(deque, now - window) < limit
    ensures Spaced(history + [now], limit, window)
  {
    RoomInWindow(c, deque, history, now, limit, window);
    AppendSpaced(history, limit, window, now);
  }

  /** One event: the deque stays the end of the history, and the history within the limits. */
  lemma {:induction false} NextWithinLimits(c: Config, deque: seq<real>, deque': seq<real>, history: seq<real>,
                                            last: real, now: real,
                         admitted: bool)
    requires c.Valid() && Tail(c, deque, history, last) && last <= now && WithinLimits(c, c.ShortLimit(), history)
    requires DequeStep(c, deque, deque', now, admitted)
    ensures var history' := history + (if admitted then [now] else []);
            Tail(c, deque', history', now) && WithinLimits(c, c.ShortLimit(), history')
  {
    PruneTail(c, deque, history, last, now);
    if admitted {
      var r := DropOld(deque, now - c.long);
      AppendTail(c, r, history, now);
      AdmitWithinLimits(c, c.ShortLimit(), r, history, now);
    } else {
      assert history + [] == history;
      assert Tail(c, deque, history, now);
    }
  }

  lemma {:induction false} RunWithinLimits(c: Config, run: seq<Event>)
    requires c.Valid() && Nondecreasing(run) && run != []
    ensures Tail(c, After(c, run).requests, Admitted(c, run), run[|run| - 1].now)
    ensures WithinLimits(c, c.ShortLimit(), Admitted(c, run))
    decreases run
  {
    var n := |run| - 1;
    var init, e := run[..n], run[n];
    var last := if n == 0 then e.now else run[n - 1].now;
    if n > 0 {
      RunWithinLimits(c, init);
    }
    var p := After(c, init);
    StepDeque(c, p, e);
    NextWithinLimits(c, p.requests, Step(c, p, e).0.requests, Admitted(c, init), last, e.now, Step(c, p, e).1);
  }

  /** In every run, every window of a minute, an hour or a second, wherever it lies, contains at
      most the configured number of admitted requests. */
  lemma AdmissionBounds(c: Config, run: seq<Event>, to: real)
    requires c.Valid() && Nondecreasing(run)
    ensures var times := Admitted(c, run);
            && CountIn(times, to - c.medium, to) <= c.perMinute
            && CountIn(times, to - c.long, to) <= c.perHour
            && CountIn(times, to - c.short, to) <= c.ShortLimit()
  {
    if run != [] {
      RunWithinLimits(c, run);
    }
    LimitBounds(c, Admitted(c, run), to);
  }

  lemma {:induction false} LimitBounds(c: Config, times: seq<real>, to: real)
    requires c.Valid() && Sorted(times) && WithinLimits(c, c.ShortLimit(), times)
    ensures CountIn(times, to - c.medium, to) <= c.perMinute
    ensures CountIn(times, to - c.long, to) <= c.perHour
    ensures CountIn(times, to - c.short, to) <= c.ShortLimit()
  {
    WindowBound(times, c.perMinute, c.medium, to);
    WindowBound(times, c.perHour, c.long, to);
    WindowBound(times, c.ShortLimit(), c.short, to);
  }

  lemma BannedStep(c: Config, p: Peer, e: Event)
    requires p.violations >= c.banCount
    ensures !Step(c, p, e).1 && Step(c, p, e).0.violations >= p.violations
  {
  }

  lemma BannedLast(c: Config, run: seq<Event>)
    requires run != [] && After(c, run[..|run| - 1]).violations >= c.banCount
    ensures After(c, run).violations >= c.banCount
    ensures Admitted(c, run) == Admitted(c, run[..|run| - 1])
  {
    BannedStep(c, After(c, run[..|run| - 1]), run[|run| - 1]);
    assert Admitted(c, run) == Admitted(c, run[..|run| - 1]) + [];
  }

  /** Once a peer's violations reach the ban count, no later request of it is admitted. */
  lemma {:induction false} BannedForGood(c: Config, run: seq<Event>, i: nat)
    requires i <= |run| && After(c, run[..i]).violations >= c.banCount
    ensures After(c, run).violations >= c.banCount
    ensures Admitted(c, run) == Admitted(c, run[..i])
    decreases |run|
  {
    if i == |run| {
      assert run[..i] == run;
    } else {
      var n := |run| - 1;
      assert run[..n][..i] == run[..i];
      BannedForGood(c, run[..n], i);
      BannedLast(c, run);
    }
  }

  lemma BlockedStep(c: Config, p: Peer, e: Event, u: real)
    requires p.blockedUntil == Some(u) && e.now < u
    ensures !Step(c, p, e).1 && Step(c, p, e).0.blockedUntil == Some(u)
  {
  }

  lemma AfterNext(c: Config, run: seq<Event>, j: nat)
    requires j < |run|
    ensures After(c, run[..j + 1]) == Step(c, After(c, run[..j]), run[j]).0
  {
    assert run[..j + 1][..j] == run[..j];
  }

  lemma {:induction false} BlockStays(c: Config, run: seq<Event>, j: nat, u: real)
    requires j < |run| && After(c, run[..j]).blockedUntil == Some(u) && run[j].now < u
    ensures !Step(c, After(c, run[..j]), run[j]).1
    ensures After(c, run[..j + 1]).blockedUntil == Some(u)
  {
    BlockedStep(c, After(c, run[..j]), run[j], u);
    AfterNext(c, run, j);
  }

  lemma {:induction false} Lasts(blocks: seq<Option<real>>, i: nat, j: nat, u: real)
    requires i <= j < |blocks| && blocks[i] == Some(u)
    requires forall k :: i <= k < j && blocks[k] == Some(u) ==> blocks[k + 1] == Some(u)
    ensures blocks[j] == Some(u)
    decreases j
  {
    if i < j {
      Lasts(blocks, i, j - 1, u);
    }
  }

  /** Once a peer is blocked until some time, no request of it before that time is admitted, and nothing
      shortens or prolongs the block. */
  lemma {:induction false} BlockHolds(c: Config, run: seq<Event>, i: nat, j: nat, u: real)
    requires Nondecreasing(run) && i <= j < |run| && After(c, run[..i]).blockedUntil == Some(u) && run[j].now < u
    ensures !Step(c, After(c, run[..j]), run[j]).1
    ensures After(c, run[..j + 1]).blockedUntil == Some(u)
  {
    var blocks := seq(|run| + 1, k requires 0 <= k <= |run| => After(c, run[..k]).blockedUntil);
    forall k | i <= k < j && blocks[k] == Some(u)
      ensures blocks[k + 1] == Some(u)
    {
      BlockStays(c, run, k, u);
    }
    Lasts(blocks, i, j, u);
    BlockStays(c, run, j, u);
  }

  // ----- who is admitted, and what a refusal starts

  /** How many of the times lie at t or after it. */
  function CountFrom(times: seq<real>, t: real): nat {
    if times == [] then 0 else CountFrom(times[..|times| - 1], t) + (if times[|times| - 1] >= t then 1 else 0)
  }

  lemma {:induction false} CountAfterTail(times: seq<real>, t: real, k: nat)
    requires k <= |times| && forall i :: 0 <= i < k ==> times[i] <= t
    ensures CountAfter(times[k..], t) == CountAfter(times, t)
    decreases |times|
  {
    if k < |times| {
      var n := |times| - 1;
      CountAfterTail(times[..n], t, k);
      assert times[k..][..n - k] == times[..n][k..];
    } else if times != [] {
      var n := |times| - 1;
      CountAfterTail(times[..n], t, n);
      assert times[..n][n..] == [] && times[k..] == [];
    }
  }

  lemma {:induction false} CountFromTail(times: seq<real>, t: real, k: nat)
    requires k <= |times| && (forall i :: 0 <= i < k ==> times[i] < t)
             && (forall i :: k <= i < |times| ==> times[i] >= t)
    ensures CountFrom(times, t) == |times| - k
    decreases |times|
  {
    if times != [] {
      var n := |times| - 1;
      CountFromTail(times[..n], t, if k <= n then k else n);
    }
  }

  /** How many requests were admitted in the short and the medium window before now, and in the long
      one with its closed end. */
  datatype Load = Load(inShort: nat, inMedium: nat, inLong: nat)

  function LoadOf(c: Config, history: seq<real>, now: real): Load {
    Load(CountAfter(history, now - c.short), CountAfter(history, now - c.medium), CountFrom(history, now - c.long))
  }

  /** The peer is not served now, whatever its load. */
  predicate ShutOut(p: Peer, now: real) {
    p.banned || (p.blockedUntil.Some? && now < p.blockedUntil.value)
  }

  /** The request goes above this multiple of the permitted rate. */
  predicate Above(c: Config, l: Load, multiple: real) {
    l.inShort as real > c.perSecond as real * multiple
  }

  /** The load as counted over the pruned deque. */
  ghost predicate Measures(c: Config, deque: seq<real>, now: real, l: Load) {
    var recent := DropOld(deque, now - c.long);
    l == Load(CountAfter(recent, now - c.short), CountAfter(recent, now - c.medium), |recent|)
  }

  lemma {:induction false} TailLoad(c: Config, history: seq<real>, now: real, k: nat)
    requires c.Valid() && k <= |history|
    requires forall i :: 0 <= i < |history| ==> (history[i] >= now - c.long <==> i >= k)
    ensures LoadOf(c, history, now) ==
            Load(CountAfter(history[k..], now - c.short), CountAfter(history[k..], now - c.medium), |history| - k)
  {
    CountAfterTail(history, now - c.short, k);
    CountAfterTail(history, now - c.medium, k);
    CountFromTail(history, now - c.long, k);
  }

  lemma {:induction false} TailSplitsAt(c: Config, recent: seq<real>, history: seq<real>, now: real)
    requires Tail(c, recent, history, now) && forall i :: 0 <= i < |recent| ==> recent[i] >= now - c.long
    ensures forall i :: 0 <= i < |history| ==> (history[i] >= now - c.long <==> i >= |history| - |recent|)
  {
    var k := |history| - |recent|;
    assert forall i :: k <= i < |history| ==> history[i] == recent[i - k];
  }

  lemma {:induction false} TailSplits(c: Config, deque: seq<real>, history: seq<real>, last: real, now: real)
    requires Tail(c, deque, history, last) && last <= now
    ensures var recent := DropOld(deque, now - c.long);
            && |recent| <= |history| && recent == history[|history| - |recent|..]
            && forall i :: 0 <= i < |history| ==> (history[i] >= now - c.long <==> i >= |history| - |recent|)
  {
    PruneTail(c, deque, history, last, now);
    DropOldTail(deque, now - c.long);
    TailSplitsAt(c, DropOld(deque, now - c.long), history, now);
  }

  /** The counts over the pruned deque are counts over all requests ever admitted. */
  lemma {:induction false} HistoryMeasures(c: Config, deque: seq<real>, history: seq<real>, last: real, now: real)
    requires c.Valid() && Tail(c, deque, history, last) && last <= now
    ensures Measures(c, deque, now, LoadOf(c, history, now))
  {
    TailSplits(c, deque, history, last, now);
    TailLoad(c, history, now, |history| - |DropOld(deque, now - c.long)|);
  }

  lemma {:induction false} RunMeasures(c: Config, run: seq<Event>, now: real)
    requires c.Valid() && Nondecreasing(run) && (run != [] ==> run[|run| - 1].now <= now)
    ensures Measures(c, After(c, run).requests, now, LoadOf(c, Admitted(c, run), now))
  {
    if run == [] {
      assert Measures(c, [], now, LoadOf(c, [], now));
    } else {
      RunWithinLimits(c, run);
      HistoryMeasures(c, After(c, run).requests, Admitted(c, run), run[|run| - 1].now, now);
    }
  }

  /** What is admitted at a load. */
  ghost predicate Admissible(c: Config, p: Peer, now: real, l: Load) {
    && !ShutOut(p, now) && p.violations < c.banCount
    && l.inMedium < c.perMinute && l.inLong < c.perHour && l.inShort < c.burst
    && !Above(c, l, c.suspicious) && !Above(c, l, c.blocking) && !Above(c, l, c.ipBan)
  }

  lemma StepAdmits(c: Config, p: Peer, e: Event, l: Load)
    requires e.Ask? && Measures(c, p.requests, e.now, l)
    ensures Step(c, p, e).1 <==> Admissible(c, p, e.now, l)
    ensures Step(c, p, e).1 ==> Step(c, p, e).0 ==
                                p.(blockedUntil := None, requests := DropOld(p.requests, e.now - c.long) + [e.now])
  {
  }

  /** In every run, by the requests admitted so far: a request is admitted exactly if the peer is not
      shut out, has fewer violations than the ban count, and its load is below the limits for a minute
      and an hour and for a burst, and above none of the three rates. */
  lemma AdmittedIff(c: Config, run: seq<Event>, e: Event)
    requires c.Valid() && Nondecreasing(run) && (run != [] ==> run[|run| - 1].now <= e.now) && e.Ask?
    ensures Step(c, After(c, run), e).1 <==> Admissible(c, After(c, run), e.now, LoadOf(c, Admitted(c, run), e.now))
  {
    RunMeasures(c, run, e.now);
    StepAdmits(c, After(c, run), e, LoadOf(c, Admitted(c, run), e.now));
  }

  /** What a refusal makes of a peer at a load. One that is shut out stays as it is. Any other refusal
      counts a violation and records no request. Above the ban rate, or with the ban count reached, the
      peer is banned, or blocked for a day; else above the blocking rate it is blocked for the extended
      time; else with its minute or its hour used up for the temporary time; else not at all. */
  ghost predicate Punished(c: Config, p: Peer, p': Peer, e: Event, l: Load)
    requires e.Ask?
  {
    var worst := Above(c, l, c.ipBan) || p.violations >= c.banCount;
    var severe := Above(c, l, c.blocking);
    var usedUp := l.inMedium >= c.perMinute || l.inLong >= c.perHour;
    if ShutOut(p, e.now) then p' == p
    else
      && p'.violations == p.violations + 1
      && p'.requests == DropOld(p.requests, e.now - c.long)
      && p'.banned == (worst && c.banning)
      && p'.blockedUntil == (if worst && c.banning then None
                             else if worst then Some(e.later + 86400.0)
                             else if severe then Some(e.later + c.extendedBlock)
                             else if usedUp then Some(e.later + c.temporaryBlock)
                             else None)
      && var grade := if worst then 4 else if severe then 3 else if usedUp then 2 else 1;
      p'.level.Rank() == if grade > p.level.Rank() then grade else p.level.Rank()
  }

  lemma StepPunishes(c: Config, p: Peer, e: Event, l: Load)
    requires e.Ask? && Measures(c, p.requests, e.now, l) && !Step(c, p, e).1
    ensures Punished(c, p, Step(c, p, e).0, e, l)
  {
  }

  /** In every run a refused request is punished by the load of the requests admitted so far. */
  lemma RefusedThen(c: Config, run: seq<Event>, e: Event)
    requires c.Valid() && Nondecreasing(run) && (run != [] ==> run[|run| - 1].now <= e.now) && e.Ask?
    requires !Step(c, After(c, run), e).1
    ensures Punished(c, After(c, run), Step(c, After(c, run), e).0, e, LoadOf(c, Admitted(c, run), e.now))
  {
    RunMeasures(c, run, e.now);
    StepPunishes(c, After(c, run), e, LoadOf(c, Admitted(c, run), e.now));
  }

  /** An offence counts once, from the fifth violation on twice, and neither blocks nor bans. */
  lemma OffenceThen(c: Config, p: Peer, now: real)
    ensures var p' := Step(c, p, Offend(now)).0;
            && p'.violations == p.violations + (if p.violations >= 4 then 2 else 1)
            && p'.(violations := p.violations, level := p.level) == p
            && p'.level == if p.violations >= 4 && p.level == Normal then Suspicious else p.level
  {
  }

  /** At this load the minute or the hour is used up, and the peer has done no worse. */
  ghost predicate UsedUp(c: Config, p: Peer, now: real, l: Load) {
    && !ShutOut(p, now) && p.violations < c.banCount && !Above(c, l, c.ipBan) && !Above(c, l, c.blocking)
    && (l.inMedium >= c.perMinute || l.inLong >= c.perHour)
  }

  lemma {:induction false} UsedUpStarts(c: Config, run: seq<Event>, e: Event)
    requires c.Valid() && Nondecreasing(run) && (run != [] ==> run[|run| - 1].now <= e.now) && e.Ask?
    requires UsedUp(c, After(c, run), e.now, LoadOf(c, Admitted(c, run), e.now))
    ensures Step(c, After(c, run), e).0.blockedUntil == Some(e.later + c.temporaryBlock)
  {
    AdmittedIff(c, run, e);
    RefusedThen(c, run, e);
  }

  lemma {:induction false} UsedUpBlocked(c: Config, run: seq<Event>, i: nat)
    requires c.Valid() && Nondecreasing(run) && i < |run| && run[i].Ask?
    requires UsedUp(c, After(c, run[..i]), run[i].now, LoadOf(c, Admitted(c, run[..i]), run[i].now))
    ensures After(c, run[..i + 1]).blockedUntil == Some(run[i].later + c.temporaryBlock)
  {
    UsedUpStarts(c, run[..i], run[i]);
    AfterNext(c, run, i);
  }

  /** A request that finds the minute or the hour used up, and no worse, blocks its peer: in every run
      nothing of it is admitted for the block duration from then on. */
  lemma {:induction false} UsedUpBlocks(c: Config, run: seq<Event>, i: nat, j: nat)
    requires c.Valid() && Nondecreasing(run) && i < j < |run| && run[i].Ask?
    requires UsedUp(c, After(c, run[..i]), run[i].now, LoadOf(c, Admitted(c, run[..i]), run[i].now))
    requires run[j].now < run[i].later + c.temporaryBlock
    ensures !Step(c, After(c, run[..j]), run[j]).1
  {
    UsedUpBlocked(c, run, i);
    BlockHolds(c, run, i + 1, j, run[i].later + c.temporaryBlock);
  }
}
