/** Powers of two, alignment and single-bit arithmetic on naturals.
    Shifts, masks and bit tests follow the binary digits, so that every fact is an induction on the bit position. */
module Powers {

  function Pow2(k: nat): (p: nat)
    ensures p >= 1
  {
    if k == 0 then 1 else 2 * Pow2(k - 1)
  }

  /** x >> k */
  function Shr(x: nat, k: nat): (r: nat) {
    if k == 0 then x else Shr(x / 2, k - 1)
  }

  /** x << k */
  function Shl(x: nat, k: nat): (r: nat) {
    if k == 0 then x else 2 * Shl(x, k - 1)
  }

  /** The low k bits of x are zero. */
  predicate Aligned(x: nat, k: nat) {
    k == 0 || (x % 2 == 0 && Aligned(x / 2, k - 1))
  }

  /** Bit k of x. */
  predicate Bit(x: nat, k: nat) {
    if k == 0 then x % 2 == 1 else Bit(x / 2, k - 1)
  }

  /** x ^ (1 << k) */
  function FlipBit(x: nat, k: nat): (r: nat) {
    if Bit(x, k) then BitBound(x, k); x - Pow2(k) else x + Pow2(k)
  }

  /** x & ~(1 << k) */
  function ClearBit(x: nat, k: nat): (r: nat) {
    if Bit(x, k) then BitBound(x, k); x - Pow2(k) else x
  }

  /** x | (1 << k) */
  function SetBit(x: nat, k: nat): (r: nat) {
    if Bit(x, k) then x else x + Pow2(k)
  }

  lemma BitBound(x: nat, k: nat)
    requires Bit(x, k)
    ensures x >= Pow2(k)
  {
    if k > 0 {
      BitBound(x / 2, k - 1);
    }
  }

  lemma {:induction false} ZeroBits(k: nat)
    ensures !Bit(0, k)
  {
    if k > 0 {
      ZeroBits(k - 1);
    }
  }

  lemma Pow2Step(k: nat)
    ensures Pow2(k + 1) == 2 * Pow2(k)
  {
  }

  lemma Pow2Small()
    ensures Pow2(4) == 16 && Pow2(5) == 32
  {
    assert Pow2(2) == 4;
    assert Pow2(3) == 8;
  }

  lemma AlignedDouble(x: nat, k: nat)
    requires Aligned(x, k)
    ensures Aligned(2 * x, k + 1)
  {
  }

  lemma {:induction false} Pow2Mono(j: nat, k: nat)
    requires j <= k
    ensures Pow2(j) <= Pow2(k)
    ensures j < k ==> 2 * Pow2(j) <= Pow2(k)
  {
    if j < k {
      Pow2Mono(j, k - 1);
    }
  }

  /** Powers of two are ordered as their exponents. */
  lemma Pow2Order(j: nat, k: nat)
    ensures j < k <==> Pow2(j) < Pow2(k)
  {
    if j < k {
      Pow2Mono(j, k);
    } else {
      Pow2Mono(k, j);
    }
  }

  lemma Associate(x: nat, y: nat)
    ensures 2 * (x * y) == (2 * x) * y
  {
  }

  lemma {:induction false} Pow2Add(j: nat, k: nat)
    ensures Pow2(j + k) == Pow2(j) * Pow2(k)
  {
    if j > 0 {
      Pow2Add(j - 1, k);
      Pow2Step(j - 1);
      Pow2Step(j - 1 + k);
      Associate(Pow2(j - 1), Pow2(k));
    }
  }

  lemma {:induction false} Pow2Aligned(j: nat, k: nat)
    requires j <= k
    ensures Aligned(Pow2(k), j)
  {
    if j > 0 {
      Pow2Aligned(j - 1, k - 1);
    }
  }

  lemma {:induction false} ZeroAligned(k: nat)
    ensures Aligned(0, k)
  {
    if k > 0 {
      ZeroAligned(k - 1);
    }
  }

  lemma {:induction false} AlignedWeaken(x: nat, j: nat, k: nat)
    requires j <= k && Aligned(x, k)
    ensures Aligned(x, j)
  {
    if j > 0 {
      AlignedWeaken(x / 2, j - 1, k - 1);
    }
  }

  /** Distinct multiples of 2^k are at least 2^k apart. */
  lemma {:induction false} AlignedApart(x: nat, y: nat, k: nat)
    requires Aligned(x, k) && Aligned(y, k) && x < y
    ensures x + Pow2(k) <= y
  {
    if k > 0 {
      AlignedApart(x / 2, y / 2, k - 1);
    }
  }

  lemma {:induction false} AlignedAdd(x: nat, y: nat, k: nat)
    requires Aligned(x, k) && Aligned(y, k)
    ensures Aligned(x + y, k)
  {
    if k > 0 {
      AlignedAdd(x / 2, y / 2, k - 1);
      assert (x + y) / 2 == x / 2 + y / 2;
    }
  }

  lemma {:induction false} AlignedSub(x: nat, y: nat, k: nat)
    requires Aligned(x, k) && Aligned(y, k) && y <= x
    ensures Aligned(x - y, k)
  {
    if k > 0 {
      AlignedSub(x / 2, y / 2, k - 1);
      assert (x - y) / 2 == x / 2 - y / 2;
    }
  }

  lemma {:induction false} ClearAligned(x: nat, k: nat)
    requires Aligned(x, k)
    ensures Aligned(ClearBit(x, k), k + 1)
  {
    if k > 0 {
      ClearAligned(x / 2, k - 1);
      assert ClearBit(x, k) == 2 * ClearBit(x / 2, k - 1);
    } else {
      assert ClearBit(x, 0) == x - x % 2;
      assert Aligned(ClearBit(x, 0) / 2, 0);
    }
  }

  /** For x a multiple of 2^k, clearing bit k rounds down to a multiple of 2^(k+1),
      and x and its flip are the two halves of that larger block. */
  lemma FlipHalves(x: nat, k: nat)
    requires Aligned(x, k)
    ensures var base := ClearBit(x, k);
            && Aligned(base, k + 1)
            && Aligned(FlipBit(x, k), k)
            && ((x == base && FlipBit(x, k) == base + Pow2(k)) || (x == base + Pow2(k) && FlipBit(x, k) == base))
  {
    var base := ClearBit(x, k);
    ClearAligned(x, k);
    AlignedWeaken(base, k, k + 1);
    Pow2Aligned(k, k);
    AlignedAdd(base, Pow2(k), k);
  }

  lemma {:induction false} ShrInjective(x: nat, y: nat, k: nat)
    requires Aligned(x, k) && Aligned(y, k) && Shr(x, k) == Shr(y, k)
    ensures x == y
  {
    if k > 0 {
      ShrInjective(x / 2, y / 2, k - 1);
    }
  }

  lemma {:induction false} ShrBound(x: nat, j: nat, k: nat)
    requires j <= k && x < Pow2(k)
    ensures Shr(x, j) < Pow2(k - j)
  {
    if j > 0 {
      ShrBound(x / 2, j - 1, k - 1);
    }
  }

  lemma {:induction false} ShrPow2(j: nat, k: nat)
    requires j <= k
    ensures Shr(Pow2(k), j) == Pow2(k - j)
  {
    if j > 0 {
      ShrPow2(j - 1, k - 1);
    }
  }

  lemma {:induction false} ShrAdd(x: nat, y: nat, k: nat)
    requires Aligned(x, k)
    ensures Shr(x + y, k) == Shr(x, k) + Shr(y, k)
  {
    if k > 0 {
      ShrAdd(x / 2, y / 2, k - 1);
      assert (x + y) / 2 == x / 2 + y / 2;
    }
  }

  lemma {:induction false} ShlShr(x: nat, k: nat)
    requires Aligned(x, k)
    ensures Shl(Shr(x, k), k) == x
  {
    if k > 0 {
      ShlShr(x / 2, k - 1);
    }
  }

  // ----- Multiples -----

  lemma MulAtLeast(d: int, c: int)
    requires c >= 0
    ensures d >= 1 ==> d * c >= c
    ensures d <= 0 ==> d * c <= 0
    ensures d <= -1 ==> d * c <= -c
  {
  }

  lemma DivExact(n: nat, size: nat)
    requires size > 0
    ensures n * size / size == n && n * size % size == 0
  {
    var q, r := n * size / size, n * size % size;
    assert (n - q) * size == r by {
      assert n * size == q * size + r;
    }
    MulAtLeast(n - q, size);
  }

  // ----- Setting and clearing one bit -----

  lemma {:induction false} SetBitBits(x: nat, k: nat, j: nat)
    ensures Bit(SetBit(x, k), j) == (j == k || Bit(x, j))
  {
    if !Bit(x, k) {
      AddBit(x, k, j);
    }
  }

  lemma {:induction false} AddBit(x: nat, k: nat, j: nat)
    requires !Bit(x, k)
    ensures Bit(x + Pow2(k), j) == (j == k || Bit(x, j))
  {
    if k == 0 {
      assert (x + 1) / 2 == x / 2;
    } else {
      assert (x + Pow2(k)) / 2 == x / 2 + Pow2(k - 1);
      if j > 0 {
        AddBit(x / 2, k - 1, j - 1);
      }
    }
  }

  lemma {:induction false} ClearBitBits(x: nat, k: nat, j: nat)
    ensures Bit(ClearBit(x, k), j) == (j != k && Bit(x, j))
  {
    if Bit(x, k) {
      BitBound(x, k);
      DropBit(x, k);
      AddBit(x - Pow2(k), k, j);
    }
  }

  lemma {:induction false} DropBit(x: nat, k: nat)
    requires Bit(x, k) && x >= Pow2(k)
    ensures !Bit(x - Pow2(k), k)
  {
    if k > 0 {
      BitBound(x / 2, k - 1);
      DropBit(x / 2, k - 1);
      assert (x - Pow2(k)) / 2 == x / 2 - Pow2(k - 1);
    }
  }
}
