/**
 What a GET returns for any sequence of answers, regular values and dictionaries in any mix: which
 answer dates the search and decides what it holds, told by kinds and expirations alone.
 */
module MixedAnswers {
  import opened Collections
  import opened TimedStorages
  import opened LocalStorages
  import opened SearchStates

  /** An answer as `add_candidate` sees it, with the iteration order of its items, if it has any. */
  datatype Reply = Reply(value: DhtValue, expiry: real, source: Option<Source>, order: seq<(Key, Timed<Bytes>)>,
                         now: real)

  /** `add_candidate` for an answer. */
  function Heard(sufficient: real, p: Progress, r: Reply): Progress {
    Absorb(sufficient, p, Some(Timed(r.value, r.expiry)), r.source, r.order, r.now)
  }

  function Absorbed(sufficient: real, replies: seq<Reply>): Progress {
    if replies == [] then Progress(None, None, None, None)
    else Heard(sufficient, Absorbed(sufficient, replies[..|replies| - 1]), replies[|replies| - 1])
  }

  // ----- the answer that dates the search

  /** The answer that dates the search: none after it expires later, and every one before it expires
      earlier. Only, an expiration of 0 counts as none. So one that expires at 0 dates a search only if
      it is the last, and if nothing expires after 0, what came before an answer at 0 is forgotten. */
  ghost predicate Wins(replies: seq<Reply>, w: nat) {
    && w < |replies|
    && (forall j :: w < j < |replies| ==> replies[j].expiry <= replies[w].expiry)
    && (replies[w].expiry == 0.0 ==> w == |replies| - 1)
    && (replies[w].expiry <= 0.0 ==> forall j :: 0 <= j < |replies| ==> replies[j].expiry <= 0.0)
    && (forall j :: 0 <= j < w ==>
          || replies[j].expiry < replies[w].expiry
          || (replies[w].expiry <= 0.0 && ZeroIn(replies, j, w)))
  }

  ghost predicate ZeroIn(replies: seq<Reply>, from: nat, to: nat)
    requires to <= |replies|
  {
    exists z :: from <= z < to && replies[z].expiry == 0.0
  }

  lemma WinsUnique(replies: seq<Reply>, w: nat, w': nat)
    requires Wins(replies, w) && Wins(replies, w')
    ensures w == w'
  {
    if w < w' {
      NotBoth(replies, w, w');
    } else if w' < w {
      NotBoth(replies, w', w);
    }
  }

  lemma NotBoth(replies: seq<Reply>, w: nat, w': nat)
    requires w < w' && Wins(replies, w)
    ensures !Wins(replies, w')
  {
  }

  lemma NextWins(replies: seq<Reply>, w: nat, r: Reply)
    requires Wins(replies, w)
    ensures Wins(replies + [r], if Exceeds(r.expiry, Some(replies[w].expiry)) then |replies| else w)
  {
    var more := replies + [r];
    if Exceeds(r.expiry, Some(replies[w].expiry)) {
      forall j | 0 <= j < |replies|
        ensures replies[j].expiry < r.expiry || (r.expiry <= 0.0 && ZeroIn(more, j, |replies|))
      {
        if !(replies[j].expiry < r.expiry) {
          EarlierForgotten(replies, w, r, j);
          var z :| j <= z < |replies| && replies[z].expiry == 0.0;
          assert more[z] == replies[z];
        }
      }
    } else {
      forall j | 0 <= j < w
        ensures more[j].expiry < more[w].expiry || (more[w].expiry <= 0.0 && ZeroIn(more, j, w))
      {
        if !(replies[j].expiry < replies[w].expiry) {
          var z :| j <= z < w && replies[z].expiry == 0.0;
          assert more[z] == replies[z];
        }
      }
    }
  }

  lemma EarlierForgotten(replies: seq<Reply>, w: nat, r: Reply, j: nat)
    requires Wins(replies, w) && Exceeds(r.expiry, Some(replies[w].expiry))
    requires j < |replies| && replies[j].expiry >= r.expiry
    ensures r.expiry <= 0.0 && ZeroIn(replies, j, |replies|)
  {
    if replies[w].expiry == 0.0 {
      assert ZeroIn(replies, j, |replies|);
    } else {
      assert j < w && !(replies[j].expiry < replies[w].expiry);
      var z :| j <= z < w && replies[z].expiry == 0.0;
    }
  }

  ghost predicate IsGreatest(e: real, replies: seq<Reply>) {
    && (exists i :: 0 <= i < |replies| && replies[i].expiry == e)
    && (forall i :: 0 <= i < |replies| ==> replies[i].expiry <= e)
  }

  lemma NoZero(replies: seq<Reply>, e: real, j: nat, w: nat)
    requires w <= |replies| && (forall i :: 0 <= i < |replies| ==> replies[i].expiry <= e) && e < 0.0
    ensures !ZeroIn(replies, j, w)
  {
  }

  lemma EarlierIsLess(replies: seq<Reply>, w: nat, e: real, j: nat)
    requires Wins(replies, w) && IsGreatest(e, replies) && e != 0.0 && j < w
    ensures replies[j].expiry < replies[w].expiry
  {
    if e < 0.0 {
      NoZero(replies, e, j, w);
    } else {
      assert replies[w].expiry > 0.0;
    }
  }

  lemma WinnerOfNonzero(replies: seq<Reply>, w: nat, e: real)
    requires Wins(replies, w) && IsGreatest(e, replies) && e != 0.0
    ensures replies[w].expiry == e && forall j :: 0 <= j < w ==> replies[j].expiry < e
  {
    forall j | 0 <= j < w
      ensures replies[j].expiry < replies[w].expiry
    {
      EarlierIsLess(replies, w, e, j);
    }
    assert forall j :: 0 <= j < |replies| ==> replies[j].expiry <= replies[w].expiry;
  }

  /** The winner has the greatest expiration exactly if that is not 0 or the last answer has it, and
      then it is the first that has it, or the last if it is 0. */
  lemma WinnerIsGreatest(replies: seq<Reply>, w: nat, e: real)
    requires Wins(replies, w) && IsGreatest(e, replies)
    ensures replies[w].expiry == e <==> e != 0.0 || replies[|replies| - 1].expiry == 0.0
    ensures e != 0.0 ==> forall j :: 0 <= j < w ==> replies[j].expiry < e
    ensures e == 0.0 && replies[w].expiry == e ==> w == |replies| - 1
  {
    if e != 0.0 {
      WinnerOfNonzero(replies, w, e);
    } else {
      assert w < |replies| - 1 ==> replies[|replies| - 1].expiry <= replies[w].expiry <= e;
    }
  }

  // ----- what the search holds

  function Widened(d: Dictionary, d': Dictionary): Dictionary {
    d.(items := d.items.(limit := LargerLimit(d.items.limit, d'.items.limit)))
  }

  /** The dictionary of the u-th answer with the items of all later dictionary answers stored into it. */
  function Combined(replies: seq<Reply>, u: nat): Dictionary
    requires u < |replies| && replies[u].value.Nested?
    decreases |replies|
  {
    if u == |replies| - 1 then replies[u].value.dictionary
    else
      var d, last := Combined(replies[..|replies| - 1], u), replies[|replies| - 1];
      if last.value.Nested? then MergeItems(Widened(d, last.value.dictionary), last.order, last.now) else d
  }

  /** The u-th answer dated the search, and is the first or took it over from a regular value. */
  ghost predicate TakesOver(replies: seq<Reply>, u: nat) {
    && u < |replies| && Wins(replies[..u + 1], u)
    && (u == 0 || exists w: nat :: w < u && Wins(replies[..u], w) && replies[w].value.Binary?)
  }

  /** No regular answer from the u-th on has dated the search. */
  ghost predicate NoneRegular(replies: seq<Reply>, u: nat) {
    forall j :: u <= j < |replies| && Wins(replies[..j + 1], j) ==> replies[j].value.Nested?
  }

  /** What the search holds. If the answer that dates it is regular, just its value. If it is a
      dictionary, all dictionaries since one took over, and no regular answer has dated it since. */
  ghost predicate BuiltFrom(value: Option<DhtValue>, replies: seq<Reply>, w: nat, u: nat) {
    && u <= w < |replies|
    && if replies[w].value.Binary? then u == w && value == Some(replies[w].value)
       else
         && replies[u].value.Nested? && TakesOver(replies, u) && NoneRegular(replies, u)
         && value == Some(Nested(Combined(replies, u)))
  }

  ghost predicate Holds(p: Progress, replies: seq<Reply>, w: nat, u: nat) {
    && Wins(replies, w)
    && p.outcome.None? && p.expiration == Some(replies[w].expiry) && p.source == replies[w].source
    && BuiltFrom(p.value, replies, w, u)
  }

  lemma TakesOverStays(replies: seq<Reply>, r: Reply, u: nat)
    requires TakesOver(replies, u)
    ensures TakesOver(replies + [r], u)
  {
    var more := replies + [r];
    assert more[..u + 1] == replies[..u + 1] && more[..u] == replies[..u];
    if u > 0 {
      var w: nat :| w < u && Wins(replies[..u], w) && replies[w].value.Binary?;
      assert more[w] == replies[w];
    }
  }

  lemma NoneRegularStays(replies: seq<Reply>, r: Reply, u: nat)
    requires NoneRegular(replies, u) && (Wins(replies + [r], |replies|) ==> r.value.Nested?)
    ensures NoneRegular(replies + [r], u)
  {
    var more := replies + [r];
    forall j | u <= j < |more| && Wins(more[..j + 1], j)
      ensures more[j].value.Nested?
    {
      if j < |replies| {
        assert more[..j + 1] == replies[..j + 1];
      } else {
        assert more[..j + 1] == more;
      }
    }
  }

  lemma CombinedMore(replies: seq<Reply>, r: Reply, u: nat)
    requires u < |replies| && replies[u].value.Nested?
    ensures var d := Combined(replies, u);
            Combined(replies + [r], u) ==
            if r.value.Nested? then MergeItems(Widened(d, r.value.dictionary), r.order, r.now) else d
  {
    assert (replies + [r])[..|replies|] == replies;
  }

  /** One more answer to a search that holds a dictionary which no regular answer takes over. */
  lemma StaysBuilt(replies: seq<Reply>, w: nat, u: nat, r: Reply, value: Option<DhtValue>, w': nat)
    requires BuiltFrom(value, replies, w, u) && replies[w].value.Nested?
    requires w' == (if r.value.Nested? && w' > w then |replies| else w) && Wins(replies + [r], w')
    ensures BuiltFrom(Some(Nested(Combined(replies + [r], u))), replies + [r], w', u)
  {
    if w' == w {
      NotBoth(replies + [r], w, |replies|);
    }
    TakesOverStays(replies, r, u);
    NoneRegularStays(replies, r, u);
    assert (replies + [r])[u] == replies[u];
  }

  lemma LastTakesOver(replies: seq<Reply>, w: nat, u: nat)
    requires u == |replies| - 1 && Wins(replies, u) && w < u && Wins(replies[..u], w) && replies[w].value.Binary?
    ensures TakesOver(replies, u)
  {
    assert replies[..u + 1] == replies;
  }

  lemma LastIsNested(replies: seq<Reply>, u: nat)
    requires u == |replies| - 1 && replies[u].value.Nested?
    ensures NoneRegular(replies, u)
  {
  }

  lemma TakesOverNow(replies: seq<Reply>, w: nat, r: Reply)
    requires Wins(replies, w) && Wins(replies + [r], |replies|)
    requires r.value.Nested? ==> replies[w].value.Binary?
    ensures BuiltFrom(Some(r.value), replies + [r], |replies|, |replies|)
  {
    var more := replies + [r];
    if r.value.Nested? {
      assert more[..|replies|] == replies;
      LastTakesOver(more, w, |replies|);
      LastIsNested(more, |replies|);
    }
  }

  lemma HoldsNext(sufficient: real, p: Progress, replies: seq<Reply>, w: nat, u: nat, r: Reply)
    returns (w': nat, u': nat)
    requires Holds(p, replies, w, u) && r.expiry < sufficient
    ensures Holds(Heard(sufficient, p, r), replies + [r], w', u')
  {
    var more := replies + [r];
    NextWins(replies, w, r);
    w' := if Exceeds(r.expiry, Some(replies[w].expiry)) then |replies| else w;
    assert more[w] == replies[w];
    if r.value.Nested? && replies[w].value.Nested? {
      u' := u;
      CombinedMore(replies, r, u);
      StaysBuilt(replies, w, u, r, p.value, w');
    } else if w' == |replies| {
      u' := |replies|;
      TakesOverNow(replies, w, r);
    } else {
      u' := u;
      if replies[w].value.Nested? {
        CombinedMore(replies, r, u);
        StaysBuilt(replies, w, u, r, p.value, w');
      }
    }
  }

  ghost predicate Insufficient(sufficient: real, replies: seq<Reply>) {
    forall i :: 0 <= i < |replies| ==> replies[i].expiry < sufficient
  }

  lemma HoldsFirst(sufficient: real, r: Reply)
    requires r.expiry < sufficient
    ensures Holds(Absorbed(sufficient, [r]), [r], 0, 0)
  {
    assert [r][..0] == [] && [r][..1] == [r];
    assert Absorbed(sufficient, [r]) == Heard(sufficient, Absorbed(sufficient, []), r);
  }

  /** Without a sufficient answer the search goes on with what the winner decides. */
  lemma {:induction false} GoesOn(sufficient: real, replies: seq<Reply>) returns (w: nat, u: nat)
    requires replies != [] && Insufficient(sufficient, replies)
    ensures Holds(Absorbed(sufficient, replies), replies, w, u)
    decreases replies
  {
    var init, r := replies[..|replies| - 1], replies[|replies| - 1];
    assert replies == init + [r];
    if init == [] {
      w, u := 0, 0;
      HoldsFirst(sufficient, r);
    } else {
      w, u := GoesOn(sufficient, init);
      w, u := HoldsNext(sufficient, Absorbed(sufficient, init), init, w, u, r);
    }
  }

  // ----- what the search returns

  /** How many answers count: all up to the first whose expiration is sufficient. */
  function Heeded(sufficient: real, replies: seq<Reply>): (n: nat)
    ensures n <= |replies| && (replies != [] ==> n >= 1)
    ensures forall i :: 0 <= i < n - 1 ==> replies[i].expiry < sufficient
    ensures n < |replies| ==> n >= 1 && replies[n - 1].expiry >= sufficient
  {
    if replies == [] then 0
    else if replies[0].expiry >= sufficient then 1
    else 1 + Heeded(sufficient, replies[1..])
  }

  lemma {:induction false} SameBelow(sufficient: real, sufficient': real, replies: seq<Reply>)
    requires Insufficient(sufficient, replies) && Insufficient(sufficient', replies)
    ensures Absorbed(sufficient, replies) == Absorbed(sufficient', replies)
    decreases replies
  {
    if replies != [] {
      SameBelow(sufficient, sufficient', replies[..|replies| - 1]);
    }
  }

  /** Once the search has an outcome, later answers change nothing. */
  lemma {:induction false} OutcomeIsFinal(sufficient: real, replies: seq<Reply>, n: nat)
    requires n <= |replies| && Absorbed(sufficient, replies[..n]).outcome.Some?
    ensures Absorbed(sufficient, replies) == Absorbed(sufficient, replies[..n])
    decreases |replies|
  {
    if n == |replies| {
      assert replies[..n] == replies;
    } else {
      var init := replies[..|replies| - 1];
      assert init[..n] == replies[..n];
      OutcomeIsFinal(sufficient, init, n);
    }
  }

  /** If the w-th answer is a dictionary, the u-th is the one that took over before it. */
  ghost predicate Since(replies: seq<Reply>, w: nat, u: nat) {
    && u <= w < |replies|
    && (replies[w].value.Nested? ==> replies[u].value.Nested? && TakesOver(replies, u) && NoneRegular(replies, u))
  }

  /** The outcome of a search that holds what the w-th answer decides, read at this time. */
  ghost predicate ReturnsWinner(o: Option<Outcome>, replies: seq<Reply>, w: nat, u: nat, now: real)
    requires Since(replies, w, u)
  {
    match replies[w].value
    case Binary(bytes) => o == Some(Value(bytes, replies[w].expiry))
    case Nested(_) => o == Some(Entries(View(Purify(Combined(replies, u), now)), replies[w].expiry))
  }

  lemma HoldsConcludes(p: Progress, replies: seq<Reply>, w: nat, u: nat, now: real)
    requires Holds(p, replies, w, u)
    ensures ReturnsWinner(Conclude(p, now).outcome, replies, w, u, now)
  {
  }

  /** The first sufficient answer ends the search with what the winner decides. */
  lemma {:induction false} Ends(sufficient: real, replies: seq<Reply>) returns (w: nat, u: nat)
    requires replies != [] && Insufficient(sufficient, replies[..|replies| - 1])
    requires replies[|replies| - 1].expiry >= sufficient
    ensures Wins(replies, w) && Since(replies, w, u) && Absorbed(sufficient, replies).source == replies[w].source
    ensures ReturnsWinner(Absorbed(sufficient, replies).outcome, replies, w, u, replies[|replies| - 1].now)
  {
    var init, r := replies[..|replies| - 1], replies[|replies| - 1];
    var higher := r.expiry + 1.0;
    w, u := GoesOn(higher, replies);
    HoldsConcludes(Absorbed(higher, replies), replies, w, u, r.now);
    SameBelow(sufficient, higher, init);
    LastExceeds(sufficient, init, r);
  }

  lemma {:induction false} LastExceeds(sufficient: real, replies: seq<Reply>, r: Reply)
    requires Insufficient(sufficient, replies) && r.expiry >= sufficient
    ensures var p := Absorbed(sufficient, replies);
            Heard(sufficient, p, r) == Conclude(Heard(r.expiry + 1.0, p, r), r.now)
  {
    if replies != [] {
      var w, u := GoesOn(sufficient, replies);
    }
  }

  /** The outcome is what the w-th of these answers decides. */
  ghost predicate Decides(o: Option<Outcome>, replies: seq<Reply>, w: nat, u: nat, now: real) {
    Wins(replies, w) && Since(replies, w, u) && ReturnsWinner(o, replies, w, u, now)
  }

  lemma {:induction false} EndedReturns(sufficient: real, replies: seq<Reply>, n: nat, now: real)
    returns (w: nat, u: nat)
    requires 1 <= n <= |replies| && Insufficient(sufficient, replies[..n][..n - 1])
             && replies[n - 1].expiry >= sufficient
    ensures var p := Absorbed(sufficient, replies);
            && p.outcome.Some? && Decides(Conclude(p, now).outcome, replies[..n], w, u, replies[n - 1].now)
            && p.source == replies[w].source
  {
    w, u := Ends(sufficient, replies[..n]);
    OutcomeIsFinal(sufficient, replies, n);
  }

  lemma {:induction false} OpenReturns(sufficient: real, replies: seq<Reply>, now: real) returns (w: nat, u: nat)
    requires replies != [] && Insufficient(sufficient, replies)
    ensures var p := Absorbed(sufficient, replies);
            p.outcome.None? && Decides(Conclude(p, now).outcome, replies, w, u, now) && p.source == replies[w].source
  {
    w, u := GoesOn(sufficient, replies);
    HoldsConcludes(Absorbed(sufficient, replies), replies, w, u, now);
  }

  /** What a GET returns, whatever the kinds and the order of the answers. Those up to the first
      sufficient one count, and one of them dates the outcome and is its source. If that one is regular, the outcome is
      its value; if it is a dictionary, the dictionaries combined since one took over. */
  lemma {:induction false} GetReturns(sufficient: real, replies: seq<Reply>, now: real) returns (w: nat, u: nat)
    requires replies != []
    ensures var n, p := Heeded(sufficient, replies), Absorbed(sufficient, replies);
            && (p.outcome.Some? <==> replies[n - 1].expiry >= sufficient)
            && Decides(Conclude(p, now).outcome, replies[..n], w, u,
                       if p.outcome.Some? then replies[n - 1].now else now)
            && p.source == replies[w].source
  {
    var n := Heeded(sufficient, replies);
    if replies[n - 1].expiry >= sufficient {
      w, u := EndedReturns(sufficient, replies, n, now);
    } else {
      assert replies[..n] == replies;
      w, u := OpenReturns(sufficient, replies, now);
    }
  }

  /** Of regular answers only: what is returned is the value and the expiration of the first answer with
      the greatest expiration among those that count, exactly unless that is 0 and the last of them is
      negative. */
  lemma {:induction false} RegularReturns(sufficient: real, replies: seq<Reply>, now: real, e: real) returns (w: nat)
    requires replies != [] && forall i :: 0 <= i < |replies| ==> replies[i].value.Binary?
    requires IsGreatest(e, replies[..Heeded(sufficient, replies)])
    ensures var heard, o := replies[..Heeded(sufficient, replies)],
            Conclude(Absorbed(sufficient, replies), now).outcome;
            && w < |heard| && o == Some(Value(heard[w].value.bytes, heard[w].expiry))
            && (heard[w].expiry == e <==> e != 0.0 || heard[|heard| - 1].expiry == 0.0)
            && (e != 0.0 ==> forall j :: 0 <= j < w ==> heard[j].expiry < e)
            && (e == 0.0 && heard[w].expiry == e ==> w == |heard| - 1)
  {
    var n := Heeded(sufficient, replies);
    var u;
    w, u := GetReturns(sufficient, replies, now);
    assert replies[..n][w] == replies[w];
    WinnerIsGreatest(replies[..n], w, e);
  }
}
