/** The bit-level view of a natural number that `Integer` offers: shifts, low bits and
    lengths, defined bit by bit so that reasoning about them stays linear. */
module Bits {

  /** `k << n`. */
  function Shl(k: int, n: nat): (r: int)
  {
    if n == 0 then k else 2 * Shl(k, n - 1)
  }

  /** `e >> n`. */
  function Shr(e: nat, n: nat): (r: nat)
    ensures r <= e
  {
    if n == 0 then e else Shr(e / 2, n - 1)
  }

  /** The low `n` bits of `e`. */
  function Low(e: nat, n: nat): nat {
    if n == 0 then 0 else e % 2 + 2 * Low(e / 2, n - 1)
  }

  function Pow2(n: nat): (p: nat)
    ensures p > 0
  {
    if n == 0 then 1 else 2 * Pow2(n - 1)
  }

  /** Bit `n` of `e`, counted from the least significant one; 0 beyond the top. */
  function GetBit(e: nat, n: nat): nat {
    Shr(e, n) % 2
  }

  /** The position just above the highest set bit. */
  function BitCount(e: nat): nat {
    if e == 0 then 0 else 1 + BitCount(e / 2)
  }

  /** The least number of `wordBits`-bit words that hold `e`. */
  function WordCount(e: nat, wordBits: nat): nat
    requires wordBits > 0
  {
    (BitCount(e) + wordBits - 1) / wordBits
  }

  /** Shifting left keeps the sign and does not shrink. */
  lemma {:induction false} ShlGrows(k: nat, n: nat)
    ensures Shl(k, n) >= k
    ensures k == 0 ==> Shl(k, n) == 0
  {
    if n > 0 {
      ShlGrows(k, n - 1);
    }
  }

  lemma {:induction false} ShlOne(n: nat)
    ensures Shl(1, n) == Pow2(n)
  {
    if n > 0 {
      ShlOne(n - 1);
    }
  }

  lemma {:induction false} ShlSum(a: int, b: int, n: nat)
    ensures Shl(a + b, n) == Shl(a, n) + Shl(b, n)
  {
    if n > 0 {
      ShlSum(a, b, n - 1);
    }
  }

  lemma {:induction false} ShlShl(k: int, a: nat, b: nat)
    ensures Shl(Shl(k, a), b) == Shl(k, a + b)
  {
    if b > 0 {
      ShlShl(k, a, b - 1);
    }
  }

  lemma {:induction false} ShlInner(k: int, n: nat)
    ensures Shl(2 * k, n) == 2 * Shl(k, n)
  {
    if n > 0 {
      ShlInner(k, n - 1);
    }
  }

  lemma {:induction false} ShrShr(e: nat, a: nat, b: nat)
    ensures Shr(Shr(e, a), b) == Shr(e, a + b)
  {
    if a > 0 {
      ShrShr(e / 2, a - 1, b);
    }
  }

  /** One more bit read from the top: shifting one less doubles and adds the bit. */
  lemma ShrStep(e: nat, n: nat)
    ensures Shr(e, n) == 2 * Shr(e, n + 1) + GetBit(e, n)
  {
    ShrShr(e, n, 1);
    assert Shr(Shr(e, n), 1) == Shr(Shr(e, n) / 2, 0);
  }

  lemma {:induction false} SplitAt(e: nat, n: nat)
    ensures e == Shl(Shr(e, n), n) + Low(e, n)
    ensures Low(e, n) < Pow2(n)
  {
    if n > 0 {
      SplitAt(e / 2, n - 1);
    }
  }

  /** Adding `k << n` changes only the bits from `n` up. */
  lemma {:induction false} AddAbove(e: nat, k: nat, n: nat)
    ensures Shl(k, n) >= 0 && Shr(e + Shl(k, n), n) == Shr(e, n) + k
  {
    ShlGrows(k, n);
    if n > 0 {
      AddAbove(e / 2, k, n - 1);
      assert (e + Shl(k, n)) / 2 == e / 2 + Shl(k, n - 1);
    }
  }

  lemma {:induction false} ShrOfSmall(e: nat, n: nat)
    requires e < Pow2(n)
    ensures Shr(e, n) == 0
  {
    if n > 0 {
      ShrOfSmall(e / 2, n - 1);
    }
  }

  lemma {:induction false} PowMonotone(a: nat, b: nat)
    requires a <= b
    ensures Pow2(a) <= Pow2(b)
  {
    if a < b {
      PowMonotone(a, b - 1);
    }
  }

  /** `BitCount` is the number of bits up to and including the top set bit. */
  lemma {:induction false} BitCountBounds(e: nat)
    ensures e < Pow2(BitCount(e))
    ensures e > 0 ==> BitCount(e) > 0 && Shr(e, BitCount(e) - 1) == 1
  {
    if e > 0 {
      BitCountBounds(e / 2);
    }
  }

  lemma HighBitsClear(e: nat, n: nat)
    requires n >= BitCount(e)
    ensures Shr(e, n) == 0
  {
    BitCountBounds(e);
    PowMonotone(BitCount(e), n);
    ShrOfSmall(e, n);
  }

  /** The words of `e` hold every set bit. */
  lemma WordsHoldBits(e: nat, wordBits: nat)
    requires wordBits > 0
    ensures WordCount(e, wordBits) * wordBits >= BitCount(e)
  {
    var n := BitCount(e);
    RoundedUp(n, wordBits);
  }

  lemma RoundedUp(n: nat, d: nat)
    requires d > 0
    ensures (n + d - 1) / d * d >= n
  {
    var s := n + d - 1;
    assert s == s / d * d + s % d;
  }

  lemma Unquotient(x: int, d: int, q: int, r: int)
    requires x == q * d + r && 0 <= r < d
    ensures x / d == q && x % d == r
  {
    var k := q - x / d;
    assert x == d * (x / d) + x % d;
    assert k * d == x % d - r;
    MultipleOutgrows(k, d);
  }

  lemma MultipleOutgrows(k: int, d: int)
    requires d >= 0
    ensures k >= 1 ==> k * d >= d
    ensures k <= -1 ==> k * d <= -d
  {
    if k >= 1 {
      assert (k - 1) * d >= 0;
    } else if k <= -1 {
      assert (k + 1) * d <= 0;
    }
  }

  lemma MulMonotone(a: nat, b: nat, c: nat)
    requires a <= b
    ensures a * c <= b * c
  {
    assert (b - a) * c >= 0;
  }

  lemma {:induction false} ShlIsProduct(k: int, n: nat)
    ensures Shl(k, n) == k * Pow2(n)
  {
    if n > 0 {
      ShlIsProduct(k, n - 1);
    }
  }

  /** The bitwise definitions are division and remainder by a power of two. */
  lemma ShiftsAreDivision(e: nat, n: nat)
    ensures Shr(e, n) == e / Pow2(n)
    ensures Low(e, n) == e % Pow2(n)
  {
    SplitAt(e, n);
    ShlIsProduct(Shr(e, n), n);
    Unquotient(e, Pow2(n), Shr(e, n), Low(e, n));
  }

  // ---- Numbers bit by bit ----------------------------------------------------------------

  /** `a | b`. */
  function Or(a: nat, b: nat): nat {
    if a == 0 && b == 0 then 0 else 2 * Or(a / 2, b / 2) + if a % 2 == 1 || b % 2 == 1 then 1 else 0
  }

  lemma {:induction false} OrBit(a: nat, b: nat, j: nat)
    ensures GetBit(Or(a, b), j) == if GetBit(a, j) == 1 || GetBit(b, j) == 1 then 1 else 0
  {
    if j > 0 {
      OrBit(a / 2, b / 2, j - 1);
      assert Or(a, b) / 2 == Or(a / 2, b / 2);
    }
  }

  lemma ShrBit(e: nat, k: nat, j: nat)
    ensures GetBit(Shr(e, k), j) == GetBit(e, k + j)
  {
    ShrShr(e, k, j);
  }

  lemma {:induction false} ShlBit(e: nat, k: nat, j: nat)
    ensures Shl(e, k) >= 0 && GetBit(Shl(e, k), j) == if j < k then 0 else GetBit(e, j - k)
  {
    ShlGrows(e, k);
    if k > 0 {
      ShlBit(e, k - 1, if j > 0 then j - 1 else 0);
      assert Shl(e, k) / 2 == Shl(e, k - 1);
    }
  }

  lemma {:induction false} LowBit(e: nat, n: nat, j: nat)
    ensures GetBit(Low(e, n), j) == if j < n then GetBit(e, j) else 0
  {
    if n == 0 {
      ShrOfSmall(0, j);
    } else {
      HalfLow(e, n);
      if j > 0 {
        LowBit(e / 2, n - 1, j - 1);
      }
    }
  }

  lemma HalfLow(e: nat, n: nat)
    requires n > 0
    ensures Low(e, n) / 2 == Low(e / 2, n - 1) && Low(e, n) % 2 == e % 2
  {
  }

  lemma HighBitZero(e: nat, n: nat, j: nat)
    requires e < Pow2(n) && j >= n
    ensures GetBit(e, j) == 0
  {
    PowMonotone(n, j);
    ShrOfSmall(e, j);
  }

  lemma SomeBitSet(e: nat)
    ensures e > 0 ==> exists j: nat :: GetBit(e, j) == 1
  {
    if e > 0 {
      BitCountBounds(e);
      assert GetBit(e, BitCount(e) - 1) == 1;
    }
  }

  /** A number with no bit set from `n` up is below `2^n`. */
  lemma {:induction false} BelowPower(e: nat, n: nat)
    requires forall j :: j >= n ==> GetBit(e, j) == 0
    ensures e < Pow2(n)
    decreases e
  {
    if n == 0 {
      SomeBitSet(e);
    } else if e > 0 {
      forall j | j >= n - 1 ensures GetBit(e / 2, j) == 0 { assert GetBit(e, j + 1) == 0; }
      BelowPower(e / 2, n - 1);
    }
  }

  /** Numbers with the same low `n` bits and nothing above them are equal. */
  lemma {:induction false} SameBits(a: nat, b: nat, n: nat)
    requires a < Pow2(n) && b < Pow2(n)
    requires forall j :: 0 <= j < n ==> GetBit(a, j) == GetBit(b, j)
    ensures a == b
  {
    if n > 0 {
      forall j | 0 <= j < n - 1 ensures GetBit(a / 2, j) == GetBit(b / 2, j) {
        assert GetBit(a, j + 1) == GetBit(b, j + 1);
      }
      SameBits(a / 2, b / 2, n - 1);
      assert GetBit(a, 0) == GetBit(b, 0);
    }
  }
}
