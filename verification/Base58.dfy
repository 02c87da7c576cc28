/** Base58 with any alphabet (Bitcoin's by default): encoder, decoder, and both round trips. */
module Base58 {
  import opened Collections
  import opened Positional

  predicate IsSpace(c: nat) {
    c == 32 || 9 <= c <= 13
  }

  /** `bytes.rstrip()`. */
  function StripRight(s: seq<nat>): (r: seq<nat>)
    ensures r <= s
  {
    if s != [] && IsSpace(s[|s| - 1]) then StripRight(s[..|s| - 1]) else s
  }

  /** `b58decode_int` strips its text unless the space is a digit. */
  function Trimmed(s: seq<nat>, a: seq<nat>): (r: seq<nat>)
    ensures r <= s
  {
    if 32 in a then s else StripRight(s)
  }

  /** Distinct characters, none of them white space. */
  ghost predicate IsAlphabet(a: seq<nat>) {
    && |a| >= 2
    && (forall i, j :: 0 <= i < j < |a| ==> a[i] != a[j])
    && (forall i :: 0 <= i < |a| ==> !IsSpace(a[i]))
  }

  /** The digits 1-9, then the letters without I and O, then the small letters without l. */
  function BitcoinChar(d: nat): nat {
    if d < 9 then 49 + d
    else if d < 17 then 65 + (d - 9)
    else if d < 22 then 74 + (d - 17)
    else if d < 33 then 80 + (d - 22)
    else if d < 44 then 97 + (d - 33)
    else 109 + (d - 44)
  }

  const BITCOIN_ALPHABET: seq<nat> := seq(58, d requires 0 <= d < 58 => BitcoinChar(d))

  /** The 58 characters of "1" to "9", "A" to "H", "J" to "N", "P" to "Z", "a" to "k" and "m" to "z". */
  lemma BitcoinAlphabetIsValid()
    ensures IsAlphabet(BITCOIN_ALPHABET) && |BITCOIN_ALPHABET| == 58
    ensures forall i :: 0 <= i < 57 && i !in {8, 16, 21, 32, 43} ==> BITCOIN_ALPHABET[i + 1] == BITCOIN_ALPHABET[i] + 1
    ensures BITCOIN_ALPHABET[0] == '1' as nat && BITCOIN_ALPHABET[9] == 'A' as nat
    ensures BITCOIN_ALPHABET[17] == 'J' as nat && BITCOIN_ALPHABET[22] == 'P' as nat
    ensures BITCOIN_ALPHABET[33] == 'a' as nat && BITCOIN_ALPHABET[44] == 'm' as nat
  {
  }

  function Chars(ds: seq<nat>, a: seq<nat>): (s: seq<nat>)
    requires forall i :: 0 <= i < |ds| ==> ds[i] < |a|
    ensures |s| == |ds| && forall i :: 0 <= i < |s| ==> s[i] == a[ds[i]]
  {
    seq(|ds|, i requires 0 <= i < |ds| => a[ds[i]])
  }

  /** The inverse map of the alphabet. */
  function DigitOf(c: nat, a: seq<nat>): (r: Option<nat>)
    ensures r.Some? ==> r.value < |a| && a[r.value] == c
    ensures r.None? ==> c !in a
  {
    if a == [] then None
    else if a[|a| - 1] == c then Some(|a| - 1)
    else DigitOf(c, a[..|a| - 1])
  }

  /** The digits of a string over the alphabet; None is the ValueError. */
  function DigitsOf(s: seq<nat>, a: seq<nat>): (r: Option<seq<nat>>)
    ensures r.Some? ==> |r.value| == |s| && forall i :: 0 <= i < |s| ==> r.value[i] < |a| && a[r.value[i]] == s[i]
  {
    if s == [] then Some([])
    else
      var init, last := DigitsOf(s[..|s| - 1], a), DigitOf(s[|s| - 1], a);
      if init.None? || last.None? then None else Some(init.value + [last.value])
  }

  /** `b58encode`. */
  function Encode(v: seq<nat>, a: seq<nat>): seq<nat>
    requires |a| >= 2
  {
    var zeros := Leading(v, 0);
    Repeat(a[0], zeros) + Chars(Digits(Value(v[zeros..], 256), |a|), a)
  }

  /** `int.to_bytes(length, "big")`, for a length that fits. */
  function ToBytes(n: nat, length: nat): seq<nat>
    requires length >= |Digits(n, 256)|
  {
    Repeat(0, length - |Digits(n, 256)|) + Digits(n, 256)
  }

  /** The number of leading first characters and the number denoted by the rest; None is the
      ValueError. */
  function Parse(s: seq<nat>, a: seq<nat>): Option<(nat, nat)>
    requires |a| >= 2
  {
    var s := StripRight(s);
    var ones := Leading(s, a[0]);
    var ds := DigitsOf(Trimmed(s[ones..], a), a);
    if ds.None? then None else Some((ones, Value(ds.value, |a|)))
  }

  function Render(ones: nat, n: nat): seq<nat> {
    ByteLength(n);
    ToBytes(n, ones + (BitLength(n) + 7) / 8)
  }

  /** `b58decode`. */
  function Decode(s: seq<nat>, a: seq<nat>): Option<seq<nat>>
    requires |a| >= 2
  {
    match Parse(s, a) case None => None case Some((ones, n)) => Some(Render(ones, n))
  }

  // ----- the loops

  /** `b58encode_int`. */
  method EncodeInt(n: nat, defaultOne: bool, a: seq<nat>) returns (s: seq<nat>)
    requires |a| >= 2
    ensures s == if n == 0 && defaultOne then [a[0]] else Chars(Digits(n, |a|), a)
  {
    if n == 0 && defaultOne {
      return [a[0]];
    }
    s := [];
    var i: nat := n;
    while i > 0
      invariant Chars(Digits(n, |a|), a) == Chars(Digits(i, |a|), a) + s
      decreases i
    {
      Halves(i, |a|);
      s := [a[i % |a|]] + s;
      i := i / |a|;
    }
  }

  /** `b58decode_int`; None is the ValueError for a character outside the alphabet. */
  method DecodeInt(text: seq<nat>, a: seq<nat>) returns (n: Option<nat>)
    requires |a| >= 2
    ensures n == match DigitsOf(Trimmed(text, a), a) case None => None case Some(ds) => Some(Value(ds, |a|))
  {
    var s := if 32 in a then text else StripRight(text);
    var decimal := 0;
    var i := 0;
    while i < |s|
      invariant 0 <= i <= |s|
      invariant DigitsOf(s[..i], a).Some? && decimal == Value(DigitsOf(s[..i], a).value, |a|)
    {
      assert s[..i + 1][..i] == s[..i];
      var d := DigitOf(s[i], a);
      if d.None? {
        PrefixFails(s, a, i + 1);
        return None;
      }
      ghost var before := DigitsOf(s[..i], a).value;
      assert (before + [d.value])[..|before|] == before;
      decimal := decimal * |a| + d.value;
      i := i + 1;
    }
    assert s[..i] == s;
    n := Some(decimal);
  }

  lemma {:induction false} PrefixFails(s: seq<nat>, a: seq<nat>, k: nat)
    requires k <= |s| && DigitsOf(s[..k], a).None?
    ensures DigitsOf(s, a).None?
    decreases s
  {
    if k < |s| {
      assert s[..|s| - 1][..k] == s[..k];
      PrefixFails(s[..|s| - 1], a, k);
    } else {
      assert s[..k] == s;
    }
  }

  method EncodeBytes(v: seq<nat>, a: seq<nat>) returns (s: seq<nat>)
    requires |a| >= 2
    ensures s == Encode(v, a)
  {
    var zeros := Leading(v, 0);
    var result := EncodeInt(Value(v[zeros..], 256), false, a);
    s := Repeat(a[0], zeros) + result;
  }

  method DecodeBytes(s: seq<nat>, a: seq<nat>) returns (v: Option<seq<nat>>)
    requires |a| >= 2
    ensures v == Decode(s, a)
  {
    var stripped := StripRight(s);
    var ones := Leading(stripped, a[0]);
    var n := DecodeInt(stripped[ones..], a);
    match n {
      case None =>
        v := None;
      case Some(acc) =>
        ByteLength(acc);
        v := Some(ToBytes(acc, ones + (BitLength(acc) + 7) / 8));
        assert v == Some(Render(ones, acc));
    }
  }

  // ----- round trips

  ghost predicate Over(s: seq<nat>, a: seq<nat>) {
    forall i :: 0 <= i < |s| ==> s[i] in a
  }

  lemma NothingToStrip(s: seq<nat>, a: seq<nat>)
    requires IsAlphabet(a) && Over(s, a)
    ensures StripRight(s) == s
  {
    if s != [] {
      assert s[|s| - 1] in a;
    }
  }

  lemma DigitOfChar(d: nat, a: seq<nat>)
    requires IsAlphabet(a) && d < |a|
    ensures DigitOf(a[d], a) == Some(d)
  {
    assert a[d] in a;
  }

  lemma {:induction false} DigitsOfChars(ds: seq<nat>, a: seq<nat>)
    requires IsAlphabet(a) && forall i :: 0 <= i < |ds| ==> ds[i] < |a|
    ensures DigitsOf(Chars(ds, a), a) == Some(ds)
    decreases ds
  {
    if ds != [] {
      var init, d := ds[..|ds| - 1], ds[|ds| - 1];
      DigitsOfChars(init, a);
      DigitOfChar(d, a);
      assert Chars(ds, a)[..|ds| - 1] == Chars(init, a);
      assert ds == init + [d];
    }
  }

  lemma {:induction false} OverHasDigits(s: seq<nat>, a: seq<nat>)
    requires Over(s, a)
    ensures DigitsOf(s, a).Some?
    decreases s
  {
    if s != [] {
      OverHasDigits(s[..|s| - 1], a);
      assert s[|s| - 1] in a;
    }
  }

  lemma RenderIs(ones: nat, n: nat)
    ensures Render(ones, n) == Repeat(0, ones) + Digits(n, 256)
  {
    ByteLength(n);
  }

  /** What the decoder makes of a string over the alphabet. */
  lemma DecodeParts(s: seq<nat>, a: seq<nat>, z: nat, ds: seq<nat>)
    requires IsAlphabet(a) && Over(s, a) && z == Leading(s, a[0]) && DigitsOf(s[z..], a) == Some(ds)
    ensures Decode(s, a) == Some(Repeat(0, z) + Digits(Value(ds, |a|), 256))
  {
    NothingToStrip(s, a);
    assert Over(s[z..], a);
    NothingToStrip(s[z..], a);
    RenderIs(z, Value(ds, |a|));
  }

  lemma DecodeChars(a: seq<nat>, z: nat, n: nat)
    requires IsAlphabet(a)
    ensures Decode(Repeat(a[0], z) + Chars(Digits(n, |a|), a), a) == Some(Repeat(0, z) + Digits(n, 256))
  {
    var ds := Digits(n, |a|);
    ValueOfDigits(n, |a|);
    LeadingRepeat(a[0], z, Chars(ds, a));
    DigitsOfChars(ds, a);
    DecodeParts(Repeat(a[0], z) + Chars(ds, a), a, z, ds);
  }

  /** decode(encode(v)) == v for every byte string, including leading zeros and the empty string. */
  lemma DecodeEncode(v: seq<nat>, a: seq<nat>)
    requires IsAlphabet(a) && IsBytes(v)
    ensures Decode(Encode(v, a), a) == Some(v)
  {
    var z := Leading(v, 0);
    DecodeChars(a, z, Value(v[z..], 256));
    assert Canonical(v[z..], 256);
    DigitsOfValue(v[z..], 256);
    SplitLeading(v, 0);
  }

  /** encode(decode(s)) == s for every string over the alphabet. */
  lemma EncodeDecode(s: seq<nat>, a: seq<nat>)
    requires IsAlphabet(a) && Over(s, a)
    ensures Decode(s, a).Some? && IsBytes(Decode(s, a).value)
    ensures Encode(Decode(s, a).value, a) == s
  {
    var z := Leading(s, a[0]);
    OverHasDigits(s[z..], a);
    var ds := DigitsOf(s[z..], a).value;
    DecodeParts(s, a, z, ds);
    var n := Value(ds, |a|);
    EncodeRendered(n, a, z);
    RestIsCanonical(s, a, z, ds);
    SplitLeading(s, a[0]);
    BytesOfRendered(z, n);
  }

  lemma RestIsCanonical(s: seq<nat>, a: seq<nat>, z: nat, ds: seq<nat>)
    requires |a| >= 2 && z == Leading(s, a[0]) && DigitsOf(s[z..], a) == Some(ds)
    ensures Digits(Value(ds, |a|), |a|) == ds && Chars(ds, a) == s[z..]
  {
    assert Canonical(ds, |a|) by {
      assert ds != [] ==> a[ds[0]] == s[z..][0];
    }
    DigitsOfValue(ds, |a|);
  }

  lemma BytesOfRendered(z: nat, n: nat)
    ensures IsBytes(Repeat(0, z) + Digits(n, 256))
  {
  }

  lemma EncodeRendered(n: nat, a: seq<nat>, z: nat)
    requires |a| >= 2
    ensures Encode(Repeat(0, z) + Digits(n, 256), a) == Repeat(a[0], z) + Chars(Digits(n, |a|), a)
  {
    LeadingRepeat(0, z, Digits(n, 256));
    ValueOfDigits(n, 256);
  }

  /** The decoder rejects exactly the strings with a character outside the alphabet (after
      trailing white space). */
  lemma DecodeFailsIff(s: seq<nat>, a: seq<nat>)
    requires IsAlphabet(a)
    ensures Decode(s, a).None? <==> !Over(StripRight(s), a)
  {
    var t := StripRight(s);
    var z := Leading(t, a[0]);
    if Over(t, a) {
      NothingToStrip(t[z..], a);
      OverHasDigits(t[z..], a);
    } else {
      StripTwice(s, z);
      if DigitsOf(t[z..], a).Some? {
        PrefixOver(t, a, z);
      }
    }
  }

  lemma PrefixOver(t: seq<nat>, a: seq<nat>, z: nat)
    requires |a| >= 2 && z <= Leading(t, a[0]) && DigitsOf(t[z..], a).Some?
    ensures Over(t, a)
  {
    var ds := DigitsOf(t[z..], a).value;
    forall i | 0 <= i < |t|
      ensures t[i] in a
    {
      if i >= z {
        assert a[ds[i - z]] == t[z..][i - z];
      }
    }
  }

  lemma {:induction false} StripTwice(s: seq<nat>, z: nat)
    requires z <= |StripRight(s)|
    ensures StripRight(StripRight(s)[z..]) == StripRight(s)[z..]
    decreases s
  {
    if s != [] && IsSpace(s[|s| - 1]) {
      StripTwice(s[..|s| - 1], z);
    }
  }

  // ----- which alphabets work

  /** Every byte string survives encoding and decoding exactly if the alphabet has distinct characters
      and no white space. */
  lemma RoundTripsIff(a: seq<nat>)
    requires |a| >= 2
    ensures (forall v :: IsBytes(v) ==> Decode(Encode(v, a), a) == Some(v)) <==> IsAlphabet(a)
  {
    if IsAlphabet(a) {
      forall v | IsBytes(v)
        ensures Decode(Encode(v, a), a) == Some(v)
      {
        DecodeEncode(v, a);
      }
    } else if d :| 0 <= d < |a| && IsSpace(a[d]) {
      SpaceIsLost(a, d);
    } else {
      var i, j :| 0 <= i < j < |a| && a[i] == a[j];
      TwinIsLost(a, i, j);
    }
  }

  /** The byte string whose encoding is the one digit d: a zero byte, or the bytes of d. */
  function OneDigit(d: nat): (v: seq<nat>)
    ensures IsBytes(v) && v != []
  {
    if d == 0 then [0] else Digits(d, 256)
  }

  lemma EncodeOneDigit(a: seq<nat>, d: nat)
    requires |a| >= 2 && d < |a|
    ensures Encode(OneDigit(d), a) == [a[d]]
  {
    if d == 0 {
      EncodeRendered(0, a, 1);
      assert Repeat(0, 1) + Digits(0, 256) == [0];
    } else {
      EncodeRendered(d, a, 0);
      assert Repeat(0, 0) + Digits(d, 256) == Digits(d, 256);
      SingleDigit(d, |a|);
    }
  }

  lemma SingleDigit(d: nat, base: nat)
    requires 0 < d < base
    ensures Digits(d, base) == [d]
  {
    Halves(d, base);
    assert Digits(d, base) == Digits(0, base) + [d];
  }

  lemma SpaceIsLost(a: seq<nat>, d: nat)
    requires |a| >= 2 && d < |a| && IsSpace(a[d])
    ensures Decode(Encode(OneDigit(d), a), a) == Some([])
  {
    EncodeOneDigit(a, d);
    assert [a[d]][..0] == [];
    assert StripRight([a[d]]) == StripRight([]) == [];
    RenderIs(0, 0);
  }

  /** Of two equal characters, one is read as the other. */
  lemma TwinIsLost(a: seq<nat>, i: nat, j: nat)
    requires |a| >= 2 && i < j < |a| && a[i] == a[j]
    ensures Encode(OneDigit(i), a) == Encode(OneDigit(j), a) && OneDigit(i) != OneDigit(j)
    ensures exists v :: IsBytes(v) && Decode(Encode(v, a), a) != Some(v)
  {
    EncodeOneDigit(a, i);
    EncodeOneDigit(a, j);
    if i > 0 {
      ValueOfDigits(i, 256);
    }
    ValueOfDigits(j, 256);
    var v := if Decode([a[i]], a) == Some(OneDigit(i)) then OneDigit(j) else OneDigit(i);
    assert IsBytes(v) && Decode(Encode(v, a), a) != Some(v);
  }
}
