/** Big-endian positional notation in any base, shared by the byte and the Base58 codecs. */
module Positional {
  import opened Arithmetic

  ghost predicate IsBytes(v: seq<nat>) {
    forall i :: 0 <= i < |v| ==> v[i] < 256
  }

  /** The number that a digit string denotes, most significant digit first. */
  function Value(ds: seq<nat>, base: nat): nat {
    if ds == [] then 0 else Value(ds[..|ds| - 1], base) * base + ds[|ds| - 1]
  }

  /** The digits of a number without leading zeros; zero has none. */
  function Digits(n: nat, base: nat): (ds: seq<nat>)
    requires base >= 2
    ensures forall i :: 0 <= i < |ds| ==> ds[i] < base
    ensures n > 0 ==> ds != [] && ds[0] > 0
    ensures n == 0 <==> ds == []
    decreases n
  {
    if n == 0 then []
    else
      Halves(n, base);
      Digits(n / base, base) + [n % base]
  }

  lemma Halves(n: nat, base: nat)
    requires base >= 2 && n > 0
    ensures n / base < n
    ensures n < base ==> n / base == 0 && n % base == n
    ensures n / base == 0 ==> n < base
  {
    assert n == base * (n / base) + n % base;
  }

  lemma Recombine(n: nat, base: nat)
    requires base >= 1
    ensures (n / base) * base + n % base == n
  {
  }

  function Power(base: nat, n: nat): nat {
    if n == 0 then 1 else base * Power(base, n - 1)
  }

  /** Every digit counts for a power of the base, the first for the highest. */
  lemma {:induction false} ValueIsPositional(d: nat, ds: seq<nat>, base: nat)
    ensures Value([d] + ds, base) == d * Power(base, |ds|) + Value(ds, base)
    decreases ds
  {
    if ds == [] {
      assert [d] + ds == [d] && [d][..0] == [];
      assert Value([d], base) == Value([], base) * base + d;
    } else {
      var n := |ds| - 1;
      var init, x := ds[..n], ds[n];
      ValueIsPositional(d, init, base);
      assert ([d] + ds)[..|ds|] == [d] + init;
      ScaleSum(d, Power(base, n), Value(init, base), base);
    }
  }

  lemma ScaleSum(d: nat, p: nat, v: nat, base: nat)
    ensures (d * p + v) * base == d * (base * p) + v * base
  {
    assert d * p * base == d * (base * p);
  }

  ghost predicate Canonical(ds: seq<nat>, base: nat) {
    (forall i :: 0 <= i < |ds| ==> ds[i] < base) && (ds != [] ==> ds[0] > 0)
  }

  lemma {:induction false} ValueOfDigits(n: nat, base: nat)
    requires base >= 2
    ensures Value(Digits(n, base), base) == n
    decreases n
  {
    if n > 0 {
      Halves(n, base);
      ValueOfDigits(n / base, base);
      var ds := Digits(n / base, base);
      assert (ds + [n % base])[..|ds|] == ds;
      Recombine(n, base);
    }
  }

  lemma {:induction false} ValuePositive(ds: seq<nat>, base: nat)
    requires base >= 2 && Canonical(ds, base) && ds != []
    ensures Value(ds, base) > 0
    decreases ds
  {
    if |ds| > 1 {
      var init := ds[..|ds| - 1];
      assert Canonical(init, base) && init[0] == ds[0];
      ValuePositive(init, base);
    } else {
      assert ds[..0] == [];
    }
  }

  /** Canonical digit strings and numbers correspond one to one. */
  lemma {:induction false} DigitsOfValue(ds: seq<nat>, base: nat)
    requires base >= 2 && Canonical(ds, base)
    ensures Digits(Value(ds, base), base) == ds
    decreases ds
  {
    if ds != [] {
      var init, d := ds[..|ds| - 1], ds[|ds| - 1];
      assert ds == init + [d];
      assert init != [] ==> init[0] == ds[0];
      ValuePositive(ds, base);
      DigitsOfValue(init, base);
      DigitsStep(Value(init, base), base, d);
    }
  }

  lemma DigitsStep(q: nat, base: nat, r: nat)
    requires base >= 2 && r < base && q * base + r > 0
    ensures Digits(q * base + r, base) == Digits(q, base) + [r]
  {
    DivideStep(q, base, r);
  }

  lemma DivideStep(q: nat, base: nat, r: nat)
    requires r < base
    ensures (q * base + r) / base == q && (q * base + r) % base == r
  {
    QuotientUnique(q * base + r, base, q, r);
    Recombine(q * base + r, base);
  }

  function Repeat(x: nat, n: nat): (r: seq<nat>)
    ensures |r| == n && forall i :: 0 <= i < n ==> r[i] == x
  {
    seq(n, i => x)
  }

  /** How many times x leads the string. */
  function Leading(s: seq<nat>, x: nat): (n: nat)
    ensures n <= |s|
    ensures forall i :: 0 <= i < n ==> s[i] == x
    ensures n < |s| ==> s[n] != x
  {
    if s != [] && s[0] == x then 1 + Leading(s[1..], x) else 0
  }

  lemma {:induction false} LeadingRepeat(x: nat, n: nat, s: seq<nat>)
    requires s != [] ==> s[0] != x
    ensures Leading(Repeat(x, n) + s, x) == n
    ensures (Repeat(x, n) + s)[n..] == s
    decreases n
  {
    var t := Repeat(x, n) + s;
    if n > 0 {
      LeadingRepeat(x, n - 1, s);
      assert t[1..] == Repeat(x, n - 1) + s;
    } else {
      assert t == s;
    }
  }

  lemma SplitLeading(s: seq<nat>, x: nat)
    ensures s == Repeat(x, Leading(s, x)) + s[Leading(s, x)..]
  {
  }

  function BitLength(n: nat): nat {
    if n == 0 then 0 else 1 + BitLength(n / 2)
  }

  /** `(n.bit_length() + 7) // 8` is the number of base-256 digits. */
  lemma {:induction false} ByteLength(n: nat)
    ensures (BitLength(n) + 7) / 8 == |Digits(n, 256)|
    decreases n
  {
    if n == 0 {
    } else {
      Halves(n, 256);
      ByteLength(n / 256);
      BitLengthBytes(n);
    }
  }

  lemma BitLengthBytes(n: nat)
    requires n > 0
    ensures if n < 256 then 1 <= BitLength(n) <= 8 else BitLength(n) == BitLength(n / 256) + 8
  {
    if n < 256 {
      BitLengthSmall(n, 8, 256);
    } else {
      BitLengthShift(n, 8, 256);
    }
  }

  lemma {:induction false} BitLengthSmall(n: nat, k: nat, p: nat)
    requires p == Pow2(k) && 0 < n < p
    ensures 1 <= BitLength(n) <= k
    decreases k
  {
    if n / 2 > 0 {
      BitLengthSmall(n / 2, k - 1, p / 2);
    }
  }

  lemma {:induction false} BitLengthShift(n: nat, k: nat, p: nat)
    requires p == Pow2(k) && n >= p
    ensures p > 0 && BitLength(n) == BitLength(n / p) + k
    decreases k
  {
    if k > 0 {
      var half := Pow2(k - 1);
      assert p == 2 * half && n / 2 >= half;
      BitLengthShift(n / 2, k - 1, half);
      HalveQuotient(n, half);
      assert BitLength(n) == 1 + BitLength(n / 2);
    }
  }
}
