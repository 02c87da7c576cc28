/**
 Streaming of serialized tensors: splitting a message into chunks, and regrouping a stream of
 batched parts into the original messages.
 */
module Streaming {
  import opened Collections
  import opened Arithmetic

  /** The protobuf message; `BLANK` has the default of every field. */
  datatype Tensor = Tensor(compression: nat, buffer: seq<nat>, chunks: nat, size: seq<nat>, dtype: string,
                           requiresGrad: bool)

  const BLANK := Tensor(0, [], 0, [], "", false)

  // ----- splitting

  /** `len(range(0, n, chunk))`. */
  function NumChunks(n: nat, chunk: nat): nat
    requires chunk >= 1
  {
    (n + chunk - 1) / chunk
  }

  /** The parts after the first: bare buffers of at most `chunk` bytes. */
  function Continuation(buffer: seq<nat>, chunk: nat): seq<Tensor>
    requires chunk >= 1
    decreases |buffer|
  {
    if buffer == [] then []
    else if |buffer| <= chunk then [BLANK.(buffer := buffer)]
    else [BLANK.(buffer := buffer[..chunk])] + Continuation(buffer[chunk..], chunk)
  }

  function Head(t: Tensor, chunk: nat): Tensor
    requires chunk >= 1
  {
    t.(buffer := if |t.buffer| <= chunk then t.buffer else t.buffer[..chunk], chunks := NumChunks(|t.buffer|, chunk))
  }

  function Remaining(buffer: seq<nat>, start: nat, chunk: nat): seq<Tensor>
    requires chunk >= 1
  {
    if start < |buffer| then Continuation(buffer[start..], chunk) else []
  }

  function Split(t: Tensor, chunk: nat): seq<Tensor>
    requires chunk >= 1
  {
    [Head(t, chunk)] + Remaining(t.buffer, chunk, chunk)
  }

  /** `split_for_streaming`. */
  method SplitForStreaming(t: Tensor, chunk: nat) returns (parts: seq<Tensor>)
    requires chunk >= 1
    ensures parts == Split(t, chunk)
  {
    var n := |t.buffer|;
    var first := if n <= chunk then t.buffer else t.buffer[..chunk];
    parts := [Tensor(t.compression, first, NumChunks(n, chunk), t.size, t.dtype, t.requiresGrad)];
    var start := chunk;
    while start < n
      invariant start >= chunk
      invariant Split(t, chunk) == parts + Remaining(t.buffer, start, chunk)
      decreases n - start
    {
      var end := if start + chunk <= n then start + chunk else n;
      RemainingStep(t.buffer, start, end, chunk);
      var part := BLANK.(buffer := t.buffer[start..end]);
      assert parts + ([part] + Remaining(t.buffer, start + chunk, chunk)) ==
             (parts + [part]) + Remaining(t.buffer, start + chunk, chunk);
      parts := parts + [part];
      start := start + chunk;
    }
  }

  lemma RemainingStep(buffer: seq<nat>, start: nat, end: nat, chunk: nat)
    requires chunk >= 1 && start < |buffer| && end == if start + chunk <= |buffer| then start + chunk else |buffer|
    ensures Remaining(buffer, start, chunk) == [BLANK.(buffer := buffer[start..end])]
            + Remaining(buffer, start + chunk, chunk)
  {
    if start + chunk < |buffer| {
      assert buffer[start..][..chunk] == buffer[start..end];
      assert buffer[start..][chunk..] == buffer[end..];
    } else {
      assert buffer[start..] == buffer[start..end];
    }
  }

  /** As many chunks as are needed to hold the buffer. */
  lemma NumChunksIsEnough(n: nat, chunk: nat)
    requires chunk >= 1
    ensures (NumChunks(n, chunk) - 1) * chunk < n <= NumChunks(n, chunk) * chunk || (n == 0 && NumChunks(n, chunk) == 0)
  {
    var m := n + chunk - 1;
    DivisionBounds(m, chunk);
    if n == 0 {
      assert m / chunk == 0;
    }
  }

  lemma DivisionBounds(m: nat, d: nat)
    requires d >= 1
    ensures (m / d) * d <= m < (m / d) * d + d
  {
    assert m == (m / d) * d + m % d;
  }

  lemma {:induction false} ContinuationParts(buffer: seq<nat>, chunk: nat)
    requires chunk >= 1
    ensures var parts := Continuation(buffer, chunk);
            && |parts| == NumChunks(|buffer|, chunk)
            && forall i :: 0 <= i < |parts| ==>
                 && parts[i] == BLANK.(buffer := parts[i].buffer)
                 && 1 <= |parts[i].buffer| <= chunk && (i < |parts| - 1 ==> |parts[i].buffer| == chunk)
    decreases |buffer|
  {
    if |buffer| > chunk {
      ContinuationParts(buffer[chunk..], chunk);
      OneChunkLess(|buffer|, chunk);
    } else if buffer != [] {
      OneChunk(|buffer|, chunk);
    } else {
      NumChunksIsEnough(0, chunk);
    }
  }

  lemma OneChunk(n: nat, chunk: nat)
    requires 1 <= n <= chunk
    ensures NumChunks(n, chunk) == 1
  {
    QuotientUnique(n + chunk - 1, chunk, 1, n - 1);
  }

  lemma OneChunkLess(n: nat, chunk: nat)
    requires 1 <= chunk < n
    ensures NumChunks(n, chunk) == 1 + NumChunks(n - chunk, chunk)
  {
    var k, r := NumChunks(n - chunk, chunk), (n - 1) % chunk;
    assert n - 1 == k * chunk + r;
    assert (k + 1) * chunk == k * chunk + chunk;
    QuotientUnique(n + chunk - 1, chunk, k + 1, r);
  }

  /** A message travels in as many parts as its `chunks` field says, in one if it has no bytes. Each part
      holds at most a chunk of bytes, all but the last exactly one, and only the first has other fields:
      those of the message. */
  lemma SplitParts(t: Tensor, chunk: nat)
    requires chunk >= 1
    ensures var parts := Split(t, chunk);
            && parts != [] && parts[0] == t.(buffer := parts[0].buffer, chunks := parts[0].chunks)
            && parts[0].chunks == NumChunks(|t.buffer|, chunk)
            && |parts| == (if t.buffer == [] then 1 else parts[0].chunks)
            && (forall i :: 0 <= i < |parts| ==>
                  |parts[i].buffer| <= chunk && (i < |parts| - 1 ==> |parts[i].buffer| == chunk))
            && (forall i :: 1 <= i < |parts| ==> parts[i] == BLANK.(buffer := parts[i].buffer))
  {
    var n := |t.buffer|;
    NumChunksIsEnough(n, chunk);
    if n > chunk {
      ContinuationParts(t.buffer[chunk..], chunk);
      OneChunkLess(n, chunk);
    } else if n > 0 {
      OneChunk(n, chunk);
    }
  }

  // ----- combining

  function Joined(parts: seq<Tensor>): seq<nat> {
    if parts == [] then [] else Joined(parts[..|parts| - 1]) + parts[|parts| - 1].buffer
  }

  /** The first part with all buffers joined; None is the exhausted iterator. */
  function Combine(parts: seq<Tensor>): Option<Tensor> {
    if parts == [] then None else Some(parts[0].(buffer := Joined(parts)))
  }

  /** `combine_from_streaming`. */
  method CombineFromStreaming(parts: seq<Tensor>) returns (t: Option<Tensor>)
    ensures t == Combine(parts)
  {
    if parts == [] {
      return None;
    }
    var buffer := parts[0].buffer;
    var i := 1;
    assert parts[..1] == [parts[0]] && parts[..1][..0] == [];
    while i < |parts|
      invariant 1 <= i <= |parts|
      invariant buffer == Joined(parts[..i])
    {
      assert parts[..i + 1][..i] == parts[..i];
      buffer := buffer + parts[i].buffer;
      i := i + 1;
    }
    assert parts[..i] == parts;
    t := Some(parts[0].(buffer := buffer));
  }

  lemma {:induction false} JoinedAppend(s: seq<Tensor>, t: seq<Tensor>)
    ensures Joined(s + t) == Joined(s) + Joined(t)
    decreases t
  {
    if t == [] {
      assert s + t == s;
    } else {
      var init, last := t[..|t| - 1], t[|t| - 1].buffer;
      JoinedAppend(s, init);
      assert (s + t)[..|s + t| - 1] == s + init;
      assert (Joined(s) + Joined(init)) + last == Joined(s) + (Joined(init) + last);
    }
  }

  lemma {:induction false} ContinuationJoins(buffer: seq<nat>, chunk: nat)
    requires chunk >= 1
    ensures Joined(Continuation(buffer, chunk)) == buffer
    ensures forall i :: 0 <= i < |Continuation(buffer, chunk)| ==> Continuation(buffer, chunk)[i].dtype == ""
    decreases |buffer|
  {
    if buffer != [] {
      if |buffer| <= chunk {
        JoinedOne(BLANK.(buffer := buffer));
      } else {
        ContinuationJoins(buffer[chunk..], chunk);
        JoinedOne(BLANK.(buffer := buffer[..chunk]));
        JoinedAppend([BLANK.(buffer := buffer[..chunk])], Continuation(buffer[chunk..], chunk));
        assert buffer[..chunk] + buffer[chunk..] == buffer;
      }
    }
  }

  lemma JoinedOne(t: Tensor)
    ensures Joined([t]) == t.buffer
  {
    assert [t][..0] == [];
    assert Joined([t]) == Joined([]) + t.buffer;
  }

  /** The message as it comes back: `chunks` says in how many pieces it travelled. */
  function Restore(t: Tensor, chunk: nat): Tensor
    requires chunk >= 1
  {
    t.(chunks := NumChunks(|t.buffer|, chunk))
  }

  /** Combining the parts of a message restores it in every field but `chunks`. */
  lemma CombineSplit(t: Tensor, chunk: nat)
    requires chunk >= 1
    ensures Combine(Split(t, chunk)) == Some(Restore(t, chunk))
  {
    var rest := Remaining(t.buffer, chunk, chunk);
    JoinedAppend([Head(t, chunk)], rest);
    JoinedOne(Head(t, chunk));
    if |t.buffer| > chunk {
      ContinuationJoins(t.buffer[chunk..], chunk);
      assert t.buffer[..chunk] + t.buffer[chunk..] == t.buffer;
    }
  }

  // ----- regrouping

  /** Messages completed so far, and the parts of the message being received. */
  datatype Groups = Groups(done: seq<Tensor>, open: seq<Tensor>)

  /** One part: a part with a dtype starts a new message. */
  function Take(g: Groups, part: Tensor): Groups {
    if part.dtype != "" && g.open != [] then Groups(g.done + [Combine(g.open).value], [part])
    else g.(open := g.open + [part])
  }

  function TakeAll(g: Groups, parts: seq<Tensor>): Groups {
    if parts == [] then g else Take(TakeAll(g, parts[..|parts| - 1]), parts[|parts| - 1])
  }

  function Close(g: Groups): seq<Tensor> {
    if g.open == [] then g.done else g.done + [Combine(g.open).value]
  }

  function Flatten(batches: seq<seq<Tensor>>): seq<Tensor> {
    if batches == [] then [] else Flatten(batches[..|batches| - 1]) + batches[|batches| - 1]
  }

  lemma {:induction false} TakeAllAppend(g: Groups, s: seq<Tensor>, t: seq<Tensor>)
    ensures TakeAll(g, s + t) == TakeAll(TakeAll(g, s), t)
    decreases t
  {
    if t == [] {
      assert s + t == s;
    } else {
      TakeAllAppend(g, s, t[..|t| - 1]);
      assert (s + t)[..|s + t| - 1] == s + t[..|t| - 1];
    }
  }

  /** The regrouping loops of `deserialize_tensor_stream`; the batching does not matter. */
  method Regroup(batches: seq<seq<Tensor>>) returns (tensors: seq<Tensor>)
    ensures tensors == Close(TakeAll(Groups([], []), Flatten(batches)))
  {
    tensors := [];
    var open: seq<Tensor> := [];
    ghost var start := Groups([], []);
    var i := 0;
    assert batches[..0] == [];
    while i < |batches|
      invariant 0 <= i <= |batches|
      invariant Groups(tensors, open) == TakeAll(start, Flatten(batches[..i]))
    {
      var parts := batches[i];
      var j := 0;
      ghost var before := Groups(tensors, open);
      assert parts[..0] == [];
      while j < |parts|
        invariant 0 <= j <= |parts|
        invariant Groups(tensors, open) == TakeAll(before, parts[..j])
      {
        var part := parts[j];
        assert parts[..j + 1][..j] == parts[..j];
        if part.dtype != "" && open != [] {
          var t := CombineFromStreaming(open);
          tensors := tensors + [t.value];
          open := [];
        }
        open := open + [part];
        j := j + 1;
      }
      assert parts[..j] == parts;
      assert batches[..i + 1][..i] == batches[..i];
      TakeAllAppend(start, Flatten(batches[..i]), parts);
      i := i + 1;
    }
    assert batches[..i] == batches;
    if open != [] {
      var t := CombineFromStreaming(open);
      tensors := tensors + [t.value];
    }
  }

  /** Parts without a dtype only extend the open message. */
  lemma {:induction false} TakeBare(g: Groups, parts: seq<Tensor>)
    requires forall i :: 0 <= i < |parts| ==> parts[i].dtype == ""
    ensures TakeAll(g, parts) == g.(open := g.open + parts)
    decreases parts
  {
    if parts == [] {
      assert g.open + parts == g.open;
    } else {
      TakeBare(g, parts[..|parts| - 1]);
      assert g.open + parts == (g.open + parts[..|parts| - 1]) + [parts[|parts| - 1]];
    }
  }

  function SplitAll(ts: seq<Tensor>, chunk: nat): seq<Tensor>
    requires chunk >= 1
  {
    if ts == [] then [] else SplitAll(ts[..|ts| - 1], chunk) + Split(ts[|ts| - 1], chunk)
  }

  function Restored(ts: seq<Tensor>, chunk: nat): seq<Tensor>
    requires chunk >= 1
  {
    if ts == [] then [] else Restored(ts[..|ts| - 1], chunk) + [Restore(ts[|ts| - 1], chunk)]
  }

  lemma {:induction false} RestoredAt(ts: seq<Tensor>, chunk: nat, i: nat)
    requires chunk >= 1 && i < |ts|
    ensures |Restored(ts, chunk)| == |ts| && Restored(ts, chunk)[i] == Restore(ts[i], chunk)
    decreases ts
  {
    if |ts| > 1 {
      RestoredAt(ts[..|ts| - 1], chunk, if i < |ts| - 1 then i else 0);
    }
  }

  lemma TakeSplit(g: Groups, t: Tensor, chunk: nat)
    requires chunk >= 1 && t.dtype != ""
    ensures TakeAll(g, Split(t, chunk)) == Groups(Close(g), Split(t, chunk))
  {
    var head := Head(t, chunk);
    var rest := Remaining(t.buffer, chunk, chunk);
    if |t.buffer| > chunk {
      ContinuationJoins(t.buffer[chunk..], chunk);
    }
    TakeAllAppend(g, [head], rest);
    assert [head][..0] == [];
    assert TakeAll(g, [head]) == Take(TakeAll(g, []), head);
    assert g.open == [] ==> g.open + [head] == [head];
    TakeBare(Take(g, head), rest);
  }

  lemma {:induction false} SplitAllRegroups(ts: seq<Tensor>, chunk: nat)
    requires chunk >= 1 && forall i :: 0 <= i < |ts| ==> ts[i].dtype != ""
    ensures Close(TakeAll(Groups([], []), SplitAll(ts, chunk))) == Restored(ts, chunk)
    decreases ts
  {
    if ts != [] {
      var init, t := ts[..|ts| - 1], ts[|ts| - 1];
      SplitAllRegroups(init, chunk);
      var g := TakeAll(Groups([], []), SplitAll(init, chunk));
      TakeAllAppend(Groups([], []), SplitAll(init, chunk), Split(t, chunk));
      TakeSplit(g, t, chunk);
      CombineSplit(t, chunk);
    }
  }

  /** However the concatenated parts are batched, regrouping recovers every message in order, in
      every field but `chunks`. */
  lemma StreamRoundTrip(ts: seq<Tensor>, chunk: nat, batches: seq<seq<Tensor>>)
    requires chunk >= 1 && forall i :: 0 <= i < |ts| ==> ts[i].dtype != ""
    requires Flatten(batches) == SplitAll(ts, chunk)
    ensures var r := Close(TakeAll(Groups([], []), Flatten(batches)));
            |r| == |ts| && forall i :: 0 <= i < |ts| ==> r[i] == ts[i].(chunks := NumChunks(|ts[i].buffer|, chunk))
  {
    SplitAllRegroups(ts, chunk);
    forall i | 0 <= i < |ts|
      ensures |Restored(ts, chunk)| == |ts| && Restored(ts, chunk)[i] == Restore(ts[i], chunk)
    {
      RestoredAt(ts, chunk, i);
    }
    assert ts == [] ==> Restored(ts, chunk) == [];
  }
}
