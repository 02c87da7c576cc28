/**
 Unsigned varints (multiformats) and length-prefixed framing of messages on a byte stream. A
 stream is the sequence of bytes still to be read.
 */
module Varints {
  import opened Positional
  import opened Arithmetic

  const DEFAULT_MAX_BITS: nat := 64

  // ----- bitwise or

  function Or(a: nat, b: nat): nat
    decreases a + b
  {
    if a == 0 && b == 0 then 0
    else 2 * Or(a / 2, b / 2) + (if a % 2 == 1 || b % 2 == 1 then 1 else 0)
  }

  lemma {:induction false} OrZero(b: nat)
    ensures Or(0, b) == b
  {
    if b > 0 {
      OrZero(b / 2);
    }
  }

  function ShiftLeft(b: nat, k: nat): nat {
    if k == 0 then b else 2 * ShiftLeft(b, k - 1)
  }

  lemma {:induction false} ShiftMultiplies(b: nat, k: nat)
    ensures ShiftLeft(b, k) == b * Pow2(k)
  {
    if k > 0 {
      ShiftMultiplies(b, k - 1);
      assert b * Pow2(k) == 2 * (b * Pow2(k - 1));
    }
  }

  lemma {:induction false} OrShifted(a: nat, b: nat, k: nat)
    requires a < Pow2(k)
    ensures Or(a, ShiftLeft(b, k)) == a + ShiftLeft(b, k)
    decreases k
  {
    if k == 0 {
      OrZero(b);
    } else {
      OrShifted(a / 2, b, k - 1);
    }
  }

  /** Or-ing in bits above all bits already set is addition. */
  lemma OrDisjoint(a: nat, b: nat, k: nat)
    requires a < Pow2(k)
    ensures Or(a, b * Pow2(k)) == a + b * Pow2(k)
  {
    OrShifted(a, b, k);
    ShiftMultiplies(b, k);
  }

  // ----- writing

  datatype Written = Sent(bytes: seq<nat>) | Negative | TooLarge

  /** Seven bits per byte, least significant first; all but the last carry the 0x80 flag. */
  function Bytes(n: nat): seq<nat> {
    if n < 128 then [n] else [n % 128 + 128] + Bytes(n / 128)
  }

  /** The example of the multiformats specification: 300 takes the bytes 0xAC and 0x02. */
  lemma BytesOf300()
    ensures Bytes(300) == [0xAC, 0x02]
  {
  }

  lemma NextByte(n: nat)
    ensures Bytes(n) == if n / 128 == 0 then [n % 128] else [n % 128 + 128] + Bytes(n / 128)
  {
  }

  lemma SendNext(goal: seq<nat>, sent: seq<nat>, byte: nat, rest: seq<nat>)
    requires goal == sent + ([byte] + rest)
    ensures goal == (sent + [byte]) + rest
  {
  }

  /** The loop of `write_unsigned_varint`. */
  method SendBytes(n: nat) returns (sent: seq<nat>)
    ensures sent == Bytes(n)
  {
    sent := [];
    var integer := n;
    while true
      invariant Bytes(n) == sent + Bytes(integer)
      decreases integer
    {
      NextByte(integer);
      var value := integer % 128;
      if integer / 128 == 0 {
        sent := sent + [value];
        break;
      }
      integer := integer / 128;
      SendNext(Bytes(n), sent, value + 128, Bytes(integer));
      sent := sent + [value + 128];
    }
  }

  /** `write_unsigned_varint`. */
  method WriteVarint(n: int, maxBits: nat) returns (r: Written)
    ensures r == if n < 0 then Negative else if n >= Pow2(maxBits) then TooLarge else Sent(Bytes(n))
  {
    if n < 0 {
      return Negative;
    }
    if n >= Pow2(maxBits) {
      return TooLarge;
    }
    var sent := SendBytes(n);
    r := Sent(sent);
  }

  // ----- reading

  datatype Read<+T> = Ok(value: T, rest: seq<nat>) | Incomplete | Overflow

  /** `read_unsigned_varint` from its `iteration`-th byte on, `result` having been read before. */
  function ReadFrom(s: seq<nat>, iteration: nat, result: nat, maxBits: nat): Read<nat>
    decreases s
  {
    if s == [] then Incomplete
    else
      var result := Or(result, (s[0] % 128) * Pow2(7 * iteration));
      if result >= Pow2(maxBits) then Overflow
      else if s[0] >= 128 then ReadFrom(s[1..], iteration + 1, result, maxBits)
      else Ok(result, s[1..])
  }

  function ReadVarint(s: seq<nat>, maxBits: nat): Read<nat> {
    ReadFrom(s, 0, 0, maxBits)
  }

  method ReadUnsignedVarint(stream: seq<nat>, maxBits: nat) returns (r: Read<nat>)
    ensures r == ReadVarint(stream, maxBits)
  {
    var maxInt := Pow2(maxBits);
    var s, iteration, result: nat := stream, 0, 0;
    var hasNext := true;
    while hasNext
      invariant ReadVarint(stream, maxBits) == if hasNext then ReadFrom(s, iteration, result, maxBits)
                else Ok(result, s)
      decreases hasNext, |s|
    {
      if s == [] {
        return Incomplete;
      }
      var c := s[0];
      s := s[1..];
      result := Or(result, (c % 128) * Pow2(7 * iteration));
      hasNext := c >= 128;
      iteration := iteration + 1;
      if result >= maxInt {
        return Overflow;
      }
    }
    r := Ok(result, s);
  }

  // ----- what a byte string denotes

  /** Base-128 value, least significant first, flags ignored. */
  function Sum(s: seq<nat>): nat {
    if s == [] then 0 else s[0] % 128 + 128 * Sum(s[1..])
  }

  /** Length of the varint at the head of the stream: up to the first byte without flag. */
  function Extent(s: seq<nat>): (n: nat)
    ensures n <= |s|
    ensures n > 0 ==> s[n - 1] < 128
    ensures forall i :: 0 <= i < n - 1 ==> s[i] >= 128
    ensures n == 0 ==> forall i :: 0 <= i < |s| ==> s[i] >= 128
  {
    if s == [] then 0
    else if s[0] < 128 then 1
    else var n := Extent(s[1..]); if n == 0 then 0 else n + 1
  }

  lemma Pow2Add(a: nat, b: nat)
    ensures Pow2(a + b) == Pow2(a) * Pow2(b)
    decreases a
  {
    if a > 0 {
      Pow2Add(a - 1, b);
    }
  }

  lemma Pow2Seven(k: nat)
    ensures Pow2(7 * (k + 1)) == 128 * Pow2(7 * k)
  {
    Pow2Add(7, 7 * k);
    assert Pow2(7) == 128;
  }

  /** The reader with addition in place of shift and or. */
  function SumFrom(s: seq<nat>, scale: nat, result: nat, max: nat): Read<nat>
    decreases s
  {
    if s == [] then Incomplete
    else
      var result := result + (s[0] % 128) * scale;
      if result >= max then Overflow
      else if s[0] >= 128 then SumFrom(s[1..], 128 * scale, result, max)
      else Ok(result, s[1..])
  }

  lemma {:induction false} OrIsSum(s: seq<nat>, it: nat, result: nat, maxBits: nat)
    requires result < Pow2(7 * it)
    ensures ReadFrom(s, it, result, maxBits) == SumFrom(s, Pow2(7 * it), result, Pow2(maxBits))
    decreases s
  {
    if s != [] {
      OrDisjoint(result, s[0] % 128, 7 * it);
      Pow2Seven(it);
      SevenBits(result, s[0] % 128, Pow2(7 * it));
      var result' := result + (s[0] % 128) * Pow2(7 * it);
      OrIsSum(s[1..], it + 1, result', maxBits);
    }
  }

  lemma SevenBits(result: nat, low: nat, scale: nat)
    requires result < scale && low < 128
    ensures result + low * scale < 128 * scale
  {
    assert low * scale <= 127 * scale;
  }

  lemma SumShift(p: nat, low: nat, rest: nat, sum: nat)
    requires sum == low + 128 * rest
    ensures p * sum == low * p + (128 * p) * rest
    ensures (128 * p) * rest >= 0
  {
    assert p * (128 * rest) == (128 * p) * rest;
  }

  lemma SumParts(s: seq<nat>, n: nat)
    requires 0 < n <= |s|
    ensures Sum(s[..n]) == s[0] % 128 + 128 * Sum(s[1..][..n - 1])
  {
    assert s[..n][1..] == s[1..][..n - 1];
  }

  /** What the first byte and the rest of a varint contribute. */
  lemma SumNext(s: seq<nat>, scale: nat, n: nat)
    requires 0 < n <= |s|
    ensures scale * Sum(s[..n]) == (s[0] % 128) * scale + (128 * scale) * Sum(s[1..][..n - 1])
    ensures (128 * scale) * Sum(s[1..][..n - 1]) >= 0
  {
    SumParts(s, n);
    SumShift(scale, s[0] % 128, Sum(s[1..][..n - 1]), Sum(s[..n]));
  }

  lemma {:induction false} SumFromMeaning(s: seq<nat>, scale: nat, result: nat, max: nat)
    ensures var n := Extent(s);
            var total := result + scale * Sum(s[..n]);
            if n > 0 && total < max then SumFrom(s, scale, result, max) == Ok(total, s[n..])
            else !SumFrom(s, scale, result, max).Ok?
    decreases s
  {
    if s != [] {
      var n := Extent(s);
      if n > 0 {
        SumNext(s, scale, n);
      }
      if s[0] >= 128 {
        SumFromMeaning(s[1..], 128 * scale, result + (s[0] % 128) * scale, max);
        assert n > 0 ==> s[1..][n - 1..] == s[n..];
      } else {
        assert s[1..][..n - 1] == [];
      }
    }
  }

  /** The or-loop sums base 128: it succeeds exactly if the stream starts with a complete varint
      whose value fits, and then returns that value and what follows. */
  lemma ReadMeaning(s: seq<nat>, maxBits: nat)
    ensures var n := Extent(s);
            if n > 0 && Sum(s[..n]) < Pow2(maxBits) then ReadVarint(s, maxBits) == Ok(Sum(s[..n]), s[n..])
            else !ReadVarint(s, maxBits).Ok?
  {
    assert Pow2(7 * 0) == 1;
    OrIsSum(s, 0, 0, maxBits);
    SumFromMeaning(s, 1, 0, Pow2(maxBits));
  }

  /** The first j bytes of the stream belong to its first varint, and their value is at least this. */
  ghost predicate Reaches(s: seq<nat>, scale: nat, result: nat, max: nat, j: nat) {
    0 < j <= |s| && (forall i :: 0 <= i < j - 1 ==> s[i] >= 128) && result + scale * Sum(s[..j]) >= max
  }

  lemma ReachesNext(s: seq<nat>, scale: nat, result: nat, max: nat, j: nat)
    requires s != [] && s[0] >= 128 && j >= 1
    ensures Reaches(s, scale, result, max, j + 1) <==>
            Reaches(s[1..], 128 * scale, result + (s[0] % 128) * scale, max, j)
  {
    if j < |s| {
      SumNext(s, scale, j + 1);
      assert forall i :: 0 <= i < j - 1 ==> s[1..][i] == s[i + 1];
      assert forall i :: 1 <= i < j ==> s[i] == s[1..][i - 1];
    }
  }

  lemma ReachesFirst(s: seq<nat>, scale: nat, result: nat, max: nat)
    requires s != []
    ensures Reaches(s, scale, result, max, 1) <==> result + (s[0] % 128) * scale >= max
  {
    SumNext(s, scale, 1);
    assert s[1..][..0] == [];
  }

  lemma {:induction false} SumFromOverflows(s: seq<nat>, scale: nat, result: nat, max: nat)
    ensures SumFrom(s, scale, result, max).Overflow? <==> exists j: nat :: Reaches(s, scale, result, max, j)
    decreases s
  {
    if s != [] {
      var next := result + (s[0] % 128) * scale;
      ReachesFirst(s, scale, result, max);
      if next < max && s[0] >= 128 {
        SumFromOverflows(s[1..], 128 * scale, next, max);
        if j: nat :| Reaches(s, scale, result, max, j) {
          assert j >= 2;
          ReachesNext(s, scale, result, max, j - 1);
        }
        if j: nat :| Reaches(s[1..], 128 * scale, next, max, j) {
          ReachesNext(s, scale, result, max, j);
        }
      }
    }
  }

  /** Reading overflows exactly if some of the first bytes of the varint have a value that does not fit,
      even if the varint is not complete. */
  lemma OverflowIff(s: seq<nat>, maxBits: nat)
    ensures ReadVarint(s, maxBits).Overflow? <==> exists j: nat :: Reaches(s, 1, 0, Pow2(maxBits), j)
  {
    assert Pow2(7 * 0) == 1;
    OrIsSum(s, 0, 0, maxBits);
    SumFromOverflows(s, 1, 0, Pow2(maxBits));
  }

  // ----- round trips

  lemma {:induction false} BytesExtent(n: nat, rest: seq<nat>)
    ensures Extent(Bytes(n) + rest) == |Bytes(n)|
    ensures IsBytes(Bytes(n))
    decreases n
  {
    if n >= 128 {
      BytesExtent(n / 128, rest);
      assert (Bytes(n) + rest)[1..] == Bytes(n / 128) + rest;
    }
  }

  lemma {:induction false} BytesSum(n: nat)
    ensures Sum(Bytes(n)) == n
    decreases n
  {
    if n < 128 {
      assert Sum([n]) == n % 128 + 128 * Sum([n][1..]);
    } else {
      BytesSum(n / 128);
      assert Bytes(n)[1..] == Bytes(n / 128);
    }
  }

  /** A written varint reads back, whatever follows it: it delimits itself. */
  lemma VarintRoundTrip(n: nat, rest: seq<nat>, maxBits: nat)
    requires n < Pow2(maxBits)
    ensures ReadVarint(Bytes(n) + rest, maxBits) == Ok(n, rest)
  {
    BytesExtent(n, rest);
    BytesSum(n);
    ReadMeaning(Bytes(n) + rest, maxBits);
    assert (Bytes(n) + rest)[..|Bytes(n)|] == Bytes(n);
    assert (Bytes(n) + rest)[|Bytes(n)|..] == rest;
  }

  lemma {:induction false} BytesLength(n: nat, k: nat)
    requires k >= 1 && n < Pow2(7 * k)
    ensures |Bytes(n)| <= k
    decreases k
  {
    assert Pow2(7 * 1) == 128;
    if n >= 128 {
      Pow2Seven(k - 1);
      BytesLength(n / 128, k - 1);
    }
  }

  lemma {:induction false} Pow2Monotone(a: nat, b: nat)
    requires a <= b
    ensures Pow2(a) <= Pow2(b)
    decreases b
  {
    if a < b {
      Pow2Monotone(a, b - 1);
    }
  }

  /** A 64-bit varint takes at most ten bytes. */
  lemma TenBytes(n: nat)
    requires n < Pow2(DEFAULT_MAX_BITS)
    ensures |Bytes(n)| <= 10
  {
    Pow2Monotone(DEFAULT_MAX_BITS, 7 * 10);
    BytesLength(n, 10);
  }

  // ----- framing

  /** `write_pbmsg`: the size, then the serialized message. */
  function Frame(message: seq<nat>): seq<nat> {
    Bytes(|message|) + message
  }

  /** `read_pbmsg_safe`: the size, then exactly that many bytes. */
  function ReadFrame(s: seq<nat>): Read<seq<nat>> {
    match ReadVarint(s, DEFAULT_MAX_BITS)
    case Ok(size, rest) => if size <= |rest| then Ok(rest[..size], rest[size..]) else Incomplete
    case Incomplete => Incomplete
    case Overflow => Overflow
  }

  /** A frame is read exactly if its size is a complete varint that fits and that many bytes follow. */
  lemma ReadFrameMeaning(s: seq<nat>, message: seq<nat>, rest: seq<nat>)
    ensures ReadFrame(s) == Ok(message, rest) <==>
            && Extent(s) > 0 && s[Extent(s)..] == message + rest
            && |message| == Sum(s[..Extent(s)]) < Pow2(DEFAULT_MAX_BITS)
  {
    ReadMeaning(s, DEFAULT_MAX_BITS);
    assert (message + rest)[..|message|] == message && (message + rest)[|message|..] == rest;
    var tail := s[Extent(s)..];
    if |message| <= |tail| {
      assert tail == tail[..|message|] + tail[|message|..];
    }
  }

  function Frames(messages: seq<seq<nat>>): seq<nat> {
    if messages == [] then [] else Frame(messages[0]) + Frames(messages[1..])
  }

  /** Read this many messages, stopping at the first failure. */
  function ReadFrames(s: seq<nat>, count: nat): Read<seq<seq<nat>>>
    decreases count
  {
    if count == 0 then Ok([], s)
    else
      match ReadFrame(s)
      case Ok(message, rest) =>
        (match ReadFrames(rest, count - 1)
         case Ok(messages, rest') => Ok([message] + messages, rest')
         case Incomplete => Incomplete
         case Overflow => Overflow)
      case Incomplete => Incomplete
      case Overflow => Overflow
  }

  lemma FrameRoundTrip(message: seq<nat>, rest: seq<nat>)
    requires |message| < Pow2(DEFAULT_MAX_BITS)
    ensures ReadFrame(Frame(message) + rest) == Ok(message, rest)
  {
    VarintRoundTrip(|message|, message + rest, DEFAULT_MAX_BITS);
    assert Frame(message) + rest == Bytes(|message|) + (message + rest);
    assert (message + rest)[..|message|] == message && (message + rest)[|message|..] == rest;
  }

  lemma NextFrame(messages: seq<seq<nat>>, tail: seq<nat>, rest: seq<nat>)
    requires messages != [] && ReadFrame(Frame(messages[0]) + tail) == Ok(messages[0], tail)
    requires ReadFrames(tail, |messages| - 1) == Ok(messages[1..], rest)
    ensures ReadFrames(Frame(messages[0]) + tail, |messages|) == Ok(messages, rest)
  {
    assert [messages[0]] + messages[1..] == messages;
  }

  /** Concatenated frames read back as the same messages and consume exactly their bytes. */
  lemma {:induction false} FramesRoundTrip(messages: seq<seq<nat>>, rest: seq<nat>)
    requires forall i :: 0 <= i < |messages| ==> |messages[i]| < Pow2(DEFAULT_MAX_BITS)
    ensures ReadFrames(Frames(messages) + rest, |messages|) == Ok(messages, rest)
    decreases messages
  {
    if messages == [] {
      assert Frames(messages) + rest == rest;
    } else {
      var tail := Frames(messages[1..]) + rest;
      assert Frames(messages) + rest == Frame(messages[0]) + tail;
      FrameRoundTrip(messages[0], tail);
      FramesRoundTrip(messages[1..], rest);
      NextFrame(messages, tail, rest);
    }
  }

  /** The writer sends a frame exactly if the size fits in 64 bits. */
  method WriteMessage(message: seq<nat>) returns (r: Written)
    ensures r == if |message| >= Pow2(DEFAULT_MAX_BITS) then TooLarge else Sent(Frame(message))
  {
    r := WriteVarint(|message|, DEFAULT_MAX_BITS);
    if r.Sent? {
      r := Sent(r.bytes + message);
    }
  }

  method ReadMessage(stream: seq<nat>) returns (r: Read<seq<nat>>)
    ensures r == ReadFrame(stream)
  {
    var size := ReadUnsignedVarint(stream, DEFAULT_MAX_BITS);
    match size {
      case Ok(n, rest) =>
        if n <= |rest| {
          r := Ok(rest[..n], rest[n..]);
        } else {
          r := Incomplete;
        }
      case Incomplete => r := Incomplete;
      case Overflow => r := Overflow;
    }
  }
}
