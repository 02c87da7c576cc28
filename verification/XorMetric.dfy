/**
 The XOR metric on node ids, and the aligned ("dyadic") blocks of the id space in which
 the routing table reasons. Ids are natural numbers; the width of the id space (160 bits
 in the deployed table) is a parameter of everything that needs it.
 */
module XorMetric {
  import opened Arithmetic

  type Id = nat

  /** Bitwise exclusive or, bit by bit from the least significant end. */
  function Xor(a: Id, b: Id): nat
    decreases a + b
  {
    if a == 0 && b == 0 then 0
    else 2 * Xor(a / 2, b / 2) + (if a % 2 == b % 2 then 0 else 1)
  }

  /** From a fixed query, distinct ids lie at distinct distances: ranking never ties. */
  lemma {:induction false} XorInjective(q: Id, a: Id, b: Id)
    requires Xor(q, a) == Xor(q, b)
    ensures a == b
    decreases q + a + b
  {
    if q + a + b > 0 {
      XorStep(q, a);
      XorStep(q, b);
      XorInjective(q / 2, a / 2, b / 2);
    }
  }

  lemma {:induction false} XorStep(a: Id, b: Id)
    ensures Xor(a, b) / 2 == Xor(a / 2, b / 2)
    ensures Xor(a, b) % 2 == (if a % 2 == b % 2 then 0 else 1)
  {
  }

  lemma {:induction false} XorSelf(a: Id)
    ensures Xor(a, a) == 0
  {
    if a > 0 {
      XorSelf(a / 2);
    }
  }

  /** x is a multiple of 2^m, i.e. its m lowest bits are zero. */
  predicate Aligned(m: nat, x: nat) {
    m == 0 || (x % 2 == 0 && Aligned(m - 1, x / 2))
  }

  lemma {:induction false} AlignedWeaken(m: nat, n: nat, x: nat)
    requires m <= n && Aligned(n, x)
    ensures Aligned(m, x)
  {
    if m > 0 {
      AlignedWeaken(m - 1, n - 1, x / 2);
    }
  }

  /** Distinct multiples of 2^m are at least 2^m apart. */
  lemma {:induction false} AlignedGap(m: nat, x: nat, y: nat)
    requires Aligned(m, x) && Aligned(m, y) && x < y
    ensures x + Pow2(m) <= y
  {
    if m > 0 {
      AlignedGap(m - 1, x / 2, y / 2);
    }
  }

  lemma {:induction false} AlignedZero(m: nat)
    ensures Aligned(m, 0)
  {
    if m > 0 {
      AlignedZero(m - 1);
    }
  }

  /** The next multiple of 2^m; exactly one of two neighbouring multiples is a multiple of 2^(m+1). */
  lemma {:induction false} AlignedNext(m: nat, x: nat)
    requires Aligned(m, x)
    ensures Aligned(m, x + Pow2(m))
    ensures Aligned(m + 1, x) <==> !Aligned(m + 1, x + Pow2(m))
  {
    if m > 0 {
      AlignedNext(m - 1, x / 2);
    }
  }

  lemma {:induction false} AlignedPrevious(m: nat, x: nat)
    requires Aligned(m, x) && !Aligned(m + 1, x)
    ensures x >= Pow2(m) && Aligned(m + 1, x - Pow2(m))
  {
    if m > 0 {
      AlignedPrevious(m - 1, x / 2);
    }
  }

  /** The direction bit read by the tree climb: bit m of an aligned lower bound. */
  lemma {:induction false} DirectionBit(m: nat, x: nat)
    requires Aligned(m, x)
    ensures x / Pow2(m) % 2 == 0 <==> Aligned(m + 1, x)
  {
    if m > 0 {
      DirectionBit(m - 1, x / 2);
      HalveQuotient(x, Pow2(m - 1));
    }
  }

  /**
   An aligned block [lower, lower + 2^m) that contains the query holds exactly the ids at
   XOR distance below 2^m from it.
   */
  lemma {:induction false} BlockIsBall(m: nat, lower: nat, q: Id, x: Id)
    requires Aligned(m, lower)
    requires lower <= q < lower + Pow2(m)
    ensures lower <= x < lower + Pow2(m) <==> Xor(q, x) < Pow2(m)
  {
    if m == 0 {
      if x == q {
        XorSelf(q);
      } else if Xor(q, x) == 0 {
        XorSelf(q);
        XorInjective(q, q, x);
      }
    } else {
      BlockIsBall(m - 1, lower / 2, q / 2, x / 2);
      XorStep(q, x);
    }
  }

  /** Every id of the block is nearer to the query than every id outside it. */
  lemma InsideIsNearer(m: nat, lower: nat, q: Id, inside: Id, outside: Id)
    requires Aligned(m, lower)
    requires lower <= q < lower + Pow2(m)
    requires lower <= inside < lower + Pow2(m)
    requires !(lower <= outside < lower + Pow2(m))
    ensures Xor(q, inside) < Xor(q, outside)
  {
    BlockIsBall(m, lower, q, inside);
    BlockIsBall(m, lower, q, outside);
  }
}
