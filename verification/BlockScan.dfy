/** Finding a clear bit: the branching search for the lowest one in a 64-bit word, and the linear scan over
    all blocks that the word-by-word scan stands for. */
module BlockScan {
  import opened Powers
  import opened Platform
  import opened Seqs

  // ----- One word -----

  /** Some bit below w is set. */
  ghost predicate SetBelow(x: nat, w: nat) {
    exists k: nat :: k < w && Bit(x, k)
  }

  lemma {:induction false} LowMaskZero(x: nat, w: nat)
    ensures And(x, Pow2(w) - 1) == 0 <==> !SetBelow(x, w)
  {
    if w == 0 {
      NoBits(x);
    } else {
      LowMaskZero(x / 2, w - 1);
      assert (Pow2(w) - 1) / 2 == Pow2(w - 1) - 1;
      if k: nat :| k < w && Bit(x, k) && x % 2 == 0 {
        assert Bit(x / 2, k - 1);
      }
      if k: nat :| k < w - 1 && Bit(x / 2, k) {
        assert Bit(x, k + 1);
      }
      if x % 2 == 1 {
        assert Bit(x, 0);
      }
    }
  }

  lemma {:induction false} NoBits(x: nat)
    ensures And(x, 0) == 0
    decreases x
  {
    if x > 0 {
      NoBits(x / 2);
    }
  }

  lemma {:induction false} NotBits(x: nat, w: nat, k: nat)
    requires x < Pow2(w) && k < w
    ensures Bit(Pow2(w) - 1 - x, k) == !Bit(x, k)
  {
    assert (Pow2(w) - 1 - x) / 2 == Pow2(w - 1) - 1 - x / 2;
    if k > 0 {
      NotBits(x / 2, w - 1, k - 1);
    }
  }

  lemma NoneAbove(x: nat, half: nat, w: nat)
    requires w == 2 * half && !SetBelow(x, w)
    ensures !SetBelow(x, half) && !SetBelow(Shr(x, half), half)
  {
    forall k: nat | k < half ensures !Bit(Shr(x, half), k) {
      ShrBits(x, half, k);
    }
  }

  /** One step of the search: when the low half of the window has no set bit, go on in the high half. */
  method Narrow(x: nat, half: nat, ghost w: nat) returns (y: nat, skip: nat)
    requires w == 2 * half
    ensures skip == if SetBelow(x, half) then 0 else half
    ensures y == Shr(x, skip)
    ensures SetBelow(x, w) ==> SetBelow(y, half)
    ensures !SetBelow(x, w) ==> !SetBelow(y, half) && skip == half
  {
    LowMaskZero(x, half);
    if !SetBelow(x, w) {
      NoneAbove(x, half, w);
    }
    if And(x, Pow2(half) - 1) == 0 {
      if SetBelow(x, w) {
        ghost var k: nat :| k < w && Bit(x, k);
        ShrBits(x, half, k - half);
        assert Bit(Shr(x, half), k - half);
      }
      return Shr(x, half), half;
    }
    return x, 0;
  }

  /** The position n is reached over clear bits, and y is what is left of x from there. */
  ghost predicate At(x: nat, y: nat, n: nat) {
    (forall k: nat :: Bit(y, k) == Bit(x, n + k)) && (forall k: nat :: k < n ==> !Bit(x, k))
  }

  lemma Advance(x: nat, y: nat, n: nat, skip: nat)
    requires At(x, y, n) && !SetBelow(y, skip)
    ensures At(x, Shr(y, skip), n + skip)
  {
    forall k: nat ensures Bit(Shr(y, skip), k) == Bit(x, n + skip + k) {
      ShrBits(y, skip, k);
      assert Bit(y, skip + k) == Bit(x, n + (skip + k));
    }
    forall k: nat | k < n + skip ensures !Bit(x, k) {
      if k >= n {
        assert Bit(y, k - n) == Bit(x, n + (k - n));
      }
    }
  }

  method Lower(x: nat, y: nat, n: nat, half: nat, ghost w: nat) returns (z: nat, m: nat)
    requires At(x, y, n) && w == 2 * half
    ensures At(x, z, m) && n <= m <= n + half
    ensures SetBelow(y, w) ==> SetBelow(z, half)
    ensures !SetBelow(y, w) ==> !SetBelow(z, half) && m == n + half
  {
    hide *;
    var skip;
    z, skip := Narrow(y, half, w);
    m := n + skip;
    Nothing(y);
    Advance(x, y, n, skip);
  }

  lemma Nothing(y: nat)
    ensures !SetBelow(y, 0)
  {
  }

  /** The number of the lowest clear bit of a word; 63 when there is none. */
  method LowestZero(bits: nat) returns (n: nat)
    requires bits < WORD
    ensures n < 64 && (forall k: nat :: k < n ==> Bit(bits, k))
    ensures bits != WORD - 1 ==> !Bit(bits, n)
    ensures bits == WORD - 1 ==> n == 63
  {
    hide Pow2, Bit, SetBelow, At;
    WordIsPow2();
    var inv := WORD - 1 - bits;
    Begin(inv, bits);
    var x;
    x, n := Lower(inv, inv, 0, 32, 64);
    x, n := Lower(inv, x, n, 16, 32);
    x, n := Lower(inv, x, n, 8, 16);
    x, n := Lower(inv, x, n, 4, 8);
    x, n := Lower(inv, x, n, 2, 4);
    x, n := Lower(inv, x, n, 1, 2);
    Finish(inv, x, n, bits);
  }

  lemma Begin(inv: nat, bits: nat)
    requires bits < WORD == Pow2(64) && inv == WORD - 1 - bits
    ensures At(inv, inv, 0) && (SetBelow(inv, 64) <==> bits != WORD - 1)
  {
    hide Pow2;
    if bits == WORD - 1 {
      forall k: nat ensures !Bit(inv, k) {
        ZeroBits(k);
      }
    }
    if forall k: nat :: k < 64 ==> Bit(bits, k) {
      AllOnes(bits, 64);
    } else {
      var k: nat :| k < 64 && !Bit(bits, k);
      NotBits(bits, 64, k);
      assert Bit(inv, k);
    }
  }

  lemma Finish(inv: nat, x: nat, n: nat, bits: nat)
    requires bits < WORD == Pow2(64) && inv == WORD - 1 - bits && At(inv, x, n) && n < 64
    ensures forall k: nat :: k < n ==> Bit(bits, k)
    ensures SetBelow(x, 1) ==> !Bit(bits, n)
  {
    hide Pow2;
    forall k: nat | k < n ensures Bit(bits, k) {
      NotBits(bits, 64, k);
    }
    if SetBelow(x, 1) {
      var k: nat :| k < 1 && Bit(x, k);
      assert Bit(x, 0) == Bit(inv, n + 0);
      NotBits(bits, 64, n);
    }
  }

  // ----- All blocks -----

  /** The first free block of [lo, hi). */
  function FirstFree(u: seq<bool>, lo: nat, hi: nat): (r: Option<nat>)
    requires lo <= hi <= |u|
    decreases hi - lo
  {
    if lo == hi then None
    else if !u[lo] then Some(lo)
    else FirstFree(u, lo + 1, hi)
  }

  /** The linear scan: from `start` to the end, then from the beginning. */
  function Linear(u: seq<bool>, start: nat): (r: Option<nat>)
    requires start <= |u|
  {
    var r := FirstFree(u, start, |u|);
    if r.Some? then r else FirstFree(u, 0, start)
  }

  lemma {:induction false} FirstFreeIs(u: seq<bool>, lo: nat, hi: nat, i: nat)
    requires lo <= i < hi <= |u| && !u[i] && forall k :: lo <= k < i ==> u[k]
    ensures FirstFree(u, lo, hi) == Some(i)
    decreases hi - lo
  {
    if lo < i {
      FirstFreeIs(u, lo + 1, hi, i);
    }
  }

  lemma {:induction false} NoneFree(u: seq<bool>, lo: nat, hi: nat)
    requires lo <= hi <= |u| && forall k :: lo <= k < hi ==> u[k]
    ensures FirstFree(u, lo, hi) == None
    decreases hi - lo
  {
    if lo < hi {
      NoneFree(u, lo + 1, hi);
    }
  }

  lemma {:induction false} FirstFreeFinds(u: seq<bool>, lo: nat, hi: nat)
    requires lo <= hi <= |u|
    ensures var r := FirstFree(u, lo, hi);
            && (r.None? <==> forall k :: lo <= k < hi ==> u[k])
            && (r.Some? ==> lo <= r.value < hi && !u[r.value] && forall k :: lo <= k < r.value ==> u[k])
    decreases hi - lo
  {
    if lo < hi && u[lo] {
      FirstFreeFinds(u, lo + 1, hi);
    }
  }

  /** From any start the linear scan finds a free block if and only if there is one. */
  lemma LinearComplete(u: seq<bool>, start: nat)
    requires start <= |u|
    ensures var r := Linear(u, start);
            && (r.None? <==> forall k :: 0 <= k < |u| ==> u[k])
            && (r.Some? ==> r.value < |u| && !u[r.value])
            && (r.Some? ==> forall k :: 0 <= k < |u| && !u[k] ==>
                  if r.value >= start then k < start || r.value <= k else r.value <= k < start)
  {
    FirstFreeFinds(u, start, |u|);
    FirstFreeFinds(u, 0, start);
  }

  function Count(u: seq<bool>): (c: nat)
    ensures c <= |u|
  {
    if u == [] then 0 else Count(u[..|u| - 1]) + if u[|u| - 1] then 1 else 0
  }

  lemma {:induction false} CountFlip(u: seq<bool>, i: nat)
    requires i < |u| && !u[i]
    ensures Count(u[i := true]) == Count(u) + 1
  {
    var last := |u| - 1;
    if i == last {
      assert u[i := true][..last] == u[..last];
    } else {
      CountFlip(u[..last], i);
      assert u[i := true][..last] == u[..last][i := true];
    }
  }
}
