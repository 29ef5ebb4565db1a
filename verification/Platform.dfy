/** Bit-twiddling helpers of the platform layer on 64-bit words, wrap-around included. */
module Platform {
  import opened Powers

  const WORD: nat := 0x1_0000_0000_0000_0000
  const HALF: nat := 0x8000_0000_0000_0000

  lemma WordIsPow2()
    ensures Pow2(64) == WORD && Pow2(63) == HALF
  {
    hide Pow2;
    Pow2Small();
    Pow2Add(4, 4);
    Pow2Add(8, 8);
    Pow2Add(16, 16);
    Pow2Add(32, 32);
    Pow2Step(63);
  }

  /** x | y */
  function Or(x: nat, y: nat): (r: nat)
    decreases x + y
  {
    if x == 0 && y == 0 then 0
    else (if x % 2 == 1 || y % 2 == 1 then 1 else 0) + 2 * Or(x / 2, y / 2)
  }

  /** x & y */
  function And(x: nat, y: nat): (r: nat)
    decreases x + y
  {
    if x == 0 && y == 0 then 0
    else (if x % 2 == 1 && y % 2 == 1 then 1 else 0) + 2 * And(x / 2, y / 2)
  }

  /** x ^ y */
  function Xor(x: nat, y: nat): (r: nat)
    decreases x + y
  {
    if x == 0 && y == 0 then 0
    else (if x % 2 != y % 2 then 1 else 0) + 2 * Xor(x / 2, y / 2)
  }

  lemma OrHalf(x: nat, y: nat)
    ensures Or(x, y) / 2 == Or(x / 2, y / 2)
  {
  }

  lemma {:induction false} OrBits(x: nat, y: nat, k: nat)
    ensures Bit(Or(x, y), k) <==> Bit(x, k) || Bit(y, k)
  {
    if x == 0 && y == 0 {
      ZeroBits(k);
    } else if k > 0 {
      OrBits(x / 2, y / 2, k - 1);
      OrHalf(x, y);
    }
  }

  lemma {:induction false} ShrBits(x: nat, j: nat, k: nat)
    ensures Bit(Shr(x, j), k) <==> Bit(x, j + k)
  {
    if j > 0 {
      ShrBits(x / 2, j - 1, k);
    }
  }

  /** Multiplying by m is undone modulo 2^64 by multiplying by its inverse. */
  lemma ProductUndone(x: nat, m: nat, inverse: nat, laps: nat)
    requires x < WORD && m * inverse == laps * WORD + 1
    ensures (((x * m) % WORD) * inverse) % WORD == x
  {
    var p := x * m;
    var q, r := p / WORD, p % WORD;
    calc {
      r * inverse;
      (p - q * WORD) * inverse;
      x * (m * inverse) - q * inverse * WORD;
      x + (x * laps - q * inverse) * WORD;
    }
    ModPlus(x, x * laps - q * inverse);
  }

  lemma ModPlus(x: nat, k: int)
    requires x < WORD
    ensures (x + k * WORD) % WORD == x
  {
  }

  lemma {:induction false} XorBits(x: nat, y: nat, k: nat)
    ensures Bit(Xor(x, y), k) <==> Bit(x, k) != Bit(y, k)
  {
    if x == 0 && y == 0 {
      ZeroBits(k);
    } else if k > 0 {
      XorBits(x / 2, y / 2, k - 1);
      XorHalf(x, y);
    }
  }

  lemma {:induction false} XorBound(x: nat, y: nat, m: nat)
    requires x < Pow2(m) && y < Pow2(m)
    ensures Xor(x, y) < Pow2(m)
  {
    if m > 0 {
      XorBound(x / 2, y / 2, m - 1);
    }
  }

  lemma XorHalf(x: nat, y: nat)
    ensures Xor(x, y) / 2 == Xor(x / 2, y / 2)
  {
  }

  // ----- Rounding up to an alignment -----

  /** (n + align - 1) & ~(align - 1) on 64-bit words */
  function AlignUp(n: nat, align: nat): (r: nat)
    requires 1 <= align <= WORD
  {
    And((n + align - 1) % WORD, WORD - align)
  }

  lemma {:induction false} AndLowMask(x: nat, w: nat)
    requires x < Pow2(w)
    ensures And(x, Pow2(w) - 1) == x
  {
    if w > 0 {
      AndLowMask(x / 2, w - 1);
      assert (Pow2(w) - 1) / 2 == Pow2(w - 1) - 1;
    }
  }

  lemma AndEven(x: nat, m: nat)
    requires m % 2 == 0
    ensures And(x, m) == 2 * And(x / 2, m / 2)
  {
  }

  lemma {:induction false} AndHighMask(x: nat, k: nat, w: nat)
    requires k <= w && x < Pow2(w)
    requires Pow2(k) <= Pow2(w)
    ensures var r := And(x, Pow2(w) - Pow2(k)); r <= x < r + Pow2(k) && Aligned(r, k)
  {
    hide And, Aligned, Pow2;
    if k == 0 {
      AnyAligned(x);
      AndLowMask(x, w);
    } else {
      Pow2Step(w - 1);
      Pow2Step(k - 1);
      AndHighMask(x / 2, k - 1, w - 1);
      AndEven(x, Pow2(w) - Pow2(k));
      AlignedDouble(And(x / 2, Pow2(w - 1) - Pow2(k - 1)), k - 1);
    }
  }

  lemma AnyAligned(x: nat)
    ensures Pow2(0) == 1 && Aligned(x, 0)
  {
  }

  /** For a power of two and no overflow, the result is the least multiple of it that is >= n. */
  lemma AlignUpLeast(n: nat, k: nat)
    requires k <= 64 && n + Pow2(k) <= WORD
    ensures var r := AlignUp(n, Pow2(k));
            && n <= r < n + Pow2(k)
            && Aligned(r, k)
            && forall m: nat :: n <= m && Aligned(m, k) ==> r <= m
  {
    WordIsPow2();
    hide And, Aligned, Pow2;
    AndHighMask(n + Pow2(k) - 1, k, 64);
    LeastAligned(AlignUp(n, Pow2(k)), n, k);
  }

  /** If the sum overflows, the result is 0. */
  lemma AlignUpWraps(n: nat, k: nat)
    requires k <= 63 && n <= WORD < n + Pow2(k)
    ensures Pow2(k) <= HALF && AlignUp(n, Pow2(k)) == 0
  {
    hide Pow2, And, Aligned;
    WordIsPow2();
    Pow2Mono(k, 63);
    var m := (n + Pow2(k) - 1) % WORD;
    AndHighMask(m, k, 64);
    var r := And(m, WORD - Pow2(k));
    if r > 0 {
      ZeroAligned(k);
      AlignedApart(0, r, k);
    }
  }

  lemma {:induction false} AndComplement(x: nat, w: nat)
    requires x < Pow2(w)
    ensures And(x, Pow2(w) - 1 - x) == 0
  {
    if w > 0 {
      AndComplement(x / 2, w - 1);
      assert (Pow2(w) - 1 - x) / 2 == Pow2(w - 1) - 1 - x / 2;
    }
  }

  lemma AlignUpZero(align: nat)
    requires 1 <= align <= WORD
    ensures AlignUp(0, align) == 0
  {
    hide Pow2;
    WordIsPow2();
    AndComplement(align - 1, 64);
  }

  lemma LeastAligned(r: nat, n: nat, k: nat)
    requires Aligned(r, k) && r < n + Pow2(k)
    ensures forall m: nat :: n <= m && Aligned(m, k) ==> r <= m
  {
    forall m: nat | n <= m && Aligned(m, k) ensures r <= m {
      if m < r {
        AlignedApart(m, r, k);
      }
    }
  }

  // ----- Next power of two -----

  /** The least k with n <= 2^k. */
  function CeilLog2(n: nat): (k: nat)
    ensures n <= Pow2(k)
    ensures k > 0 ==> Pow2(k - 1) < n
  {
    if n <= 1 then 0 else 1 + CeilLog2((n + 1) / 2)
  }

  /** The k bits just below position m are set. */
  ghost predicate TopOnes(x: nat, m: nat, k: nat) {
    forall i: nat :: m <= i + k && i < m ==> Bit(x, i)
  }

  lemma {:induction false} AllOnes(x: nat, m: nat)
    requires x < Pow2(m) && forall i: nat :: i < m ==> Bit(x, i)
    ensures x == Pow2(m) - 1
  {
    if m > 0 {
      forall i: nat | i < m - 1 ensures Bit(x / 2, i) {
        assert Bit(x, i + 1);
      }
      AllOnes(x / 2, m - 1);
      assert Bit(x, 0);
    }
  }

  lemma {:induction false} OrBound(x: nat, y: nat, m: nat)
    requires x < Pow2(m) && y < Pow2(m)
    ensures Or(x, y) < Pow2(m)
  {
    if m > 0 {
      OrBound(x / 2, y / 2, m - 1);
    }
  }

  lemma {:induction false} ShrSmaller(x: nat, k: nat)
    ensures Shr(x, k) <= x
  {
    if k > 0 {
      ShrSmaller(x / 2, k - 1);
    }
  }

  /** One smearing step doubles the run of leading ones. */
  lemma SmearStep(x: nat, m: nat, k: nat)
    requires x < Pow2(m) && TopOnes(x, m, k)
    ensures Or(x, Shr(x, k)) < Pow2(m) && TopOnes(Or(x, Shr(x, k)), m, 2 * k)
  {
    ShrSmaller(x, k);
    OrBound(x, Shr(x, k), m);
    forall i: nat | m <= i + 2 * k && i < m ensures Bit(Or(x, Shr(x, k)), i) {
      OrBits(x, Shr(x, k), i);
      ShrBits(x, k, i);
      if i + k < m {
        assert Bit(x, k + i);
      }
    }
  }

  lemma {:induction false} TopBit(x: nat, m: nat)
    requires Pow2(m) <= x < Pow2(m + 1)
    ensures Bit(x, m)
  {
    if m > 0 {
      TopBit(x / 2, m - 1);
    }
  }

  /** The bit-smearing next power of two: the least power of two >= n up to 2^63, and 0 above, where n + 1 wraps. */
  method NextPow2(n: nat) returns (r: nat)
    requires n < WORD
    ensures n <= HALF ==> r == Pow2(CeilLog2(n))
    ensures n > HALF ==> r == 0
  {
    if n <= 1 {
      return 1;
    }
    ghost var m := CeilLog2(n);
    var x := n - 1;
    SmearStart(n);
    hide Pow2, TopOnes, CeilLog2;
    x := Smear(x, 1, m);
    x := Smear(x, 2, m);
    x := Smear(x, 4, m);
    x := Smear(x, 8, m);
    x := Smear(x, 16, m);
    x := Smear(x, 32, m);
    SmearEnd(x, m, n);
    return (x + 1) % WORD;
  }

  lemma SmearStart(n: nat)
    requires n > 1
    ensures n - 1 < Pow2(CeilLog2(n)) && TopOnes(n - 1, CeilLog2(n), 1)
  {
    TopBit(n - 1, CeilLog2(n) - 1);
  }

  lemma SmearEnd(x: nat, m: nat, n: nat)
    requires n < WORD && m == CeilLog2(n) && x < Pow2(m) && TopOnes(x, m, 64)
    ensures (x + 1) % WORD == if n <= HALF then Pow2(m) else 0
  {
    WordLogBound(n);
    WordIsPow2();
    AllOnes(x, m);
  }

  /** x |= x >> k */
  method Smear(x: nat, k: nat, ghost m: nat) returns (r: nat)
    requires x < Pow2(m) && TopOnes(x, m, k)
    ensures r < Pow2(m) && TopOnes(r, m, 2 * k)
  {
    SmearStep(x, m, k);
    r := Or(x, Shr(x, k));
  }

  lemma WordLogBound(n: nat)
    requires n < WORD
    ensures CeilLog2(n) <= 64
    ensures n <= HALF <==> CeilLog2(n) <= 63
    ensures n <= HALF ==> Pow2(CeilLog2(n)) <= HALF
  {
    WordIsPow2();
    var m := CeilLog2(n);
    if m > 64 {
      Pow2Mono(64, m - 1);
    }
    if m > 63 {
      Pow2Mono(63, m - 1);
    } else {
      Pow2Mono(m, 63);
    }
  }

  /** The position of the highest set bit; 0 for 0. */
  method Log2Floor(n: nat) returns (r: nat)
    ensures n > 0 ==> Pow2(r) <= n < Pow2(r + 1)
    ensures n == 0 ==> r == 0
  {
    r := 0;
    var x := n / 2;
    while x > 0
      invariant n == 0 ==> x == 0
      invariant n > 0 ==> x * Pow2(r + 1) <= n < (x + 1) * Pow2(r + 1) && Pow2(r) <= n
      invariant n == 0 ==> r == 0
      decreases x
    {
      HalveWindow(n, x, Pow2(r + 1));
      x, r := x / 2, r + 1;
    }
  }

  lemma HalveWindow(n: nat, x: nat, p: nat)
    requires x > 0 && x * p <= n < (x + 1) * p
    ensures (x / 2) * (2 * p) <= n < (x / 2 + 1) * (2 * p) && p <= n
  {
    var h := x / 2;
    assert h * (2 * p) == (2 * h) * p && (h + 1) * (2 * p) == (2 * h + 2) * p;
    assert (2 * h) * p <= x * p && (x + 1) * p <= (2 * h + 2) * p && p <= x * p;
  }

  lemma Log2OfPow2(n: nat, k: nat, r: nat)
    requires n == Pow2(k) && Pow2(r) <= n < Pow2(r + 1)
    ensures r == k
  {
    Pow2Order(k, r);
    Pow2Order(k, r + 1);
  }
}
