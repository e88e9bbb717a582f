/** Shifts and bits of addresses, written by halving and doubling so that no proof needs multiplication. */
module Shifts {
  import Amounts

  function Pow2(k: nat): (p: nat)
    ensures p > 0
  {
    if k == 0 then 1 else 2 * Pow2(k - 1)
  }

  /** a >> k */
  function Shr(a: nat, k: nat): nat {
    if k == 0 then a else Shr(a / 2, k - 1)
  }

  /** a << k */
  function Shl(a: nat, k: nat): nat
    decreases k
  {
    if k == 0 then a else Shl(2 * a, k - 1)
  }

  /** (a >> k) << k */
  function Align(a: nat, k: nat): nat {
    Shl(Shr(a, k), k)
  }

  /** (a & (1 << k)) != 0 */
  predicate Bit(a: nat, k: nat) {
    Shr(a, k) % 2 == 1
  }

  /** a ^ (1 << k) */
  function Flip(a: nat, k: nat): nat
  {
    if Bit(a, k) then
      BitCarriesWeight(a, k);
      a - Pow2(k)
    else a + Pow2(k)
  }

  /** The other child of a node's parent. */
  function Twin(i: nat): nat {
    if i % 2 == 1 then i - 1 else i + 1
  }

  lemma {:induction false} BitCarriesWeight(a: nat, k: nat)
    requires Bit(a, k)
    ensures a >= Pow2(k)
  {
    if k > 0 {
      BitCarriesWeight(a / 2, k - 1);
    }
  }

  lemma {:induction false} ShrStep(a: nat, k: nat)
    ensures Shr(a, k + 1) == Shr(a, k) / 2
  {
    if k > 0 {
      ShrStep(a / 2, k - 1);
    }
  }

  lemma {:induction false} ShrShr(a: nat, j: nat, k: nat)
    ensures Shr(Shr(a, j), k) == Shr(a, j + k)
  {
    if j > 0 {
      ShrShr(a / 2, j - 1, k);
    }
  }

  lemma {:induction false} ShrShl(a: nat, j: nat, k: nat)
    requires j <= k
    ensures Shr(Shl(a, j), k) == Shr(a, k - j)
    decreases j
  {
    if j > 0 {
      ShrShl(2 * a, j - 1, k);
      assert 2 * a / 2 == a;
    }
  }

  lemma {:induction false} ShlStep(a: nat, k: nat)
    ensures Shl(a, k + 1) == 2 * Shl(a, k)
    decreases k
  {
    if k > 0 {
      ShlStep(2 * a, k - 1);
    }
  }

  lemma {:induction false} ShlAdd(a: nat, b: nat, k: nat)
    ensures Shl(a + b, k) == Shl(a, k) + Shl(b, k)
    decreases k
  {
    if k > 0 {
      ShlAdd(2 * a, 2 * b, k - 1);
    }
  }

  lemma {:induction false} ShlOne(k: nat)
    ensures Shl(1, k) == Pow2(k)
  {
    if k > 0 {
      ShlOne(k - 1);
      ShlStep(1, k - 1);
    }
  }

  lemma {:induction false} ShlZero(k: nat)
    ensures Shl(0, k) == 0
  {
    if k > 0 {
      ShlZero(k - 1);
    }
  }

  lemma {:induction false} ShlShl(a: nat, j: nat, k: nat)
    ensures Shl(Shl(a, j), k) == Shl(a, j + k)
    decreases j
  {
    if j > 0 {
      ShlShl(2 * a, j - 1, k);
    }
  }

  lemma {:induction false} ShlIsMultiplication(a: nat, k: nat)
    ensures Shl(a, k) == a * Pow2(k)
    decreases k
  {
    if k > 0 {
      ShlIsMultiplication(2 * a, k - 1);
    }
  }

  lemma {:induction false} ShrVanishes(a: nat, k: nat)
    ensures Shr(a, k) == 0 <==> a < Pow2(k)
  {
    if k > 0 {
      ShrVanishes(a / 2, k - 1);
    }
  }

  /** Flipping bit k of an address moves to the sibling at size k, even if low bits are set. */
  lemma {:induction false} ShrFlip(a: nat, k: nat)
    ensures Shr(Flip(a, k), k) == Twin(Shr(a, k))
  {
    if k > 0 {
      ShrFlip(a / 2, k - 1);
      if Bit(a, k) {
        BitCarriesWeight(a / 2, k - 1);
      }
      assert Flip(a, k) / 2 == Flip(a / 2, k - 1);
    }
  }

  // ---------- what shifts and bits are as arithmetic ----------

  /** The shift right is the quotient by 2^k, and aligning takes away the remainder. */
  lemma {:induction false} ShrIsDivision(a: nat, k: nat)
    ensures Shr(a, k) == a / Pow2(k) && Align(a, k) == a - a % Pow2(k)
    decreases k
  {
    var q, p := Shr(a, k), Pow2(k);
    ShrRemainder(a, k);
    ShlIsMultiplication(q, k);
    hide Shr, Shl, Pow2;
    Amounts.ModUnique(a, p, q, a - q * p);
  }

  lemma {:induction false} ShrRemainder(a: nat, k: nat)
    ensures Shl(Shr(a, k), k) <= a < Shl(Shr(a, k), k) + Pow2(k)
  {
    if k > 0 {
      ShrRemainder(a / 2, k - 1);
      ShlStep(Shr(a, k), k - 1);
    }
  }

  /** Aligning clears the bits below k and nothing else; an address is aligned exactly if it is a multiple of 2^k. */
  lemma AlignClears(a: nat, k: nat)
    ensures Align(a, k) % Pow2(k) == 0 && Align(a, k) <= a < Align(a, k) + Pow2(k)
    ensures Align(a, k) == a <==> a % Pow2(k) == 0
  {
    ShrIsDivision(a, k);
    var q, p := Shr(a, k), Pow2(k);
    ShlIsMultiplication(q, k);
    hide Shr, Shl, Pow2;
    Amounts.ModUnique(q * p, p, q, 0);
  }

  /** Testing bit k is testing the parity of the quotient by 2^k. */
  lemma BitIsParity(a: nat, k: nat)
    ensures Bit(a, k) <==> a / Pow2(k) % 2 == 1
  {
    ShrIsDivision(a, k);
  }

  /** Flipping bit k adds or takes away 2^k, by what the bit was, and so leaves all lower bits alone. */
  lemma FlipIsOneBit(a: nat, k: nat)
    ensures Flip(a, k) == if a / Pow2(k) % 2 == 1 then a - Pow2(k) else a + Pow2(k)
    ensures Flip(a, k) % Pow2(k) == a % Pow2(k)
  {
    BitIsParity(a, k);
    hide Shr, Shl, Pow2;
    SameRemainder(a, Pow2(k));
  }

  lemma SameRemainder(a: nat, p: nat)
    requires p > 0
    ensures (a + p) % p == a % p && (a - p) % p == a % p
  {
    var q, r := a / p, a % p;
    assert a == q * p + r;
    assert (q + 1) * p == q * p + p && (q - 1) * p == q * p - p;
    Amounts.ModUnique(a + p, p, q + 1, r);
    Amounts.ModUnique(a - p, p, q - 1, r);
  }

  /** Aligning keeps every bit at or above the alignment. */
  lemma AlignKeepsHigh(a: nat, j: nat, k: nat)
    requires j <= k
    ensures Shr(Align(a, j), k) == Shr(a, k)
  {
    ShrShl(Shr(a, j), j, k);
    ShrShr(a, j, k - j);
  }

  lemma AlignAlign(a: nat, j: nat, k: nat)
    requires j <= k
    ensures Align(Align(a, j), k) == Align(a, k)
  {
    AlignKeepsHigh(a, j, k);
  }
}
