/** Where the guard heap puts a payload: between two inaccessible pages, as close to one of them as its alignment
    allows. */
module GuardLayout {
  import opened Powers
  import opened Platform

  /** is_pow2 */
  predicate OneBit(n: nat) {
    n > 0 && And(n, n - 1) == 0
  }

  lemma {:induction false} AndSelf(x: nat)
    ensures And(x, x) == x
  {
    if x > 0 {
      AndSelf(x / 2);
    }
  }

  /** Exactly the powers of two pass the test. */
  lemma {:induction false} OneBitIff(n: nat)
    ensures OneBit(n) <==> exists k :: n == Pow2(k)
  {
    if n == 0 {
      forall k: nat ensures Pow2(k) != 0 {
        Pow2Mono(0, k);
      }
    } else if n % 2 == 1 {
      assert (n - 1) / 2 == n / 2;
      AndSelf(n / 2);
      OddPow2(n);
    } else {
      var m := n / 2;
      assert (n - 1) / 2 == m - 1;
      OneBitIff(m);
      HalfPow2(m);
    }
  }

  lemma OddPow2(n: nat)
    requires n % 2 == 1
    ensures (exists k :: n == Pow2(k)) <==> n == 1
  {
    assert Pow2(0) == 1;
  }

  lemma HalfPow2(m: nat)
    requires m > 0
    ensures (exists k :: 2 * m == Pow2(k)) <==> exists k :: m == Pow2(k)
  {
    if k: nat :| m == Pow2(k) {
      assert Pow2(k + 1) == 2 * m;
    }
    if k: nat :| 2 * m == Pow2(k) {
      var j: nat := k - 1;
      assert m == Pow2(j);
    }
  }

  /** What a request asks for. */
  function Bytes(size: nat): (n: nat) {
    if size == 0 then 1 else size
  }

  function Alignment(alignment: nat): (n: nat) {
    if alignment < 16 then 16 else alignment
  }

  predicate Acceptable(alignment: nat, page: nat) {
    Alignment(alignment) <= page && OneBit(Alignment(alignment))
  }

  /** Bytes of data pages, bytes mapped, and the payload's distance from the start of the mapping, on 64-bit words. */
  datatype Layout = Layout(data: nat, total: nat, user: int)

  function Place(size: nat, alignment: nat, page: nat, underflow: bool): (l: Layout)
    requires 1 <= page <= WORD && Alignment(alignment) <= WORD
  {
    var aligned := AlignUp(Bytes(size), Alignment(alignment));
    var data := AlignUp(aligned, page);
    Layout(data, (page + data + page) % WORD, if underflow then page else page + data - aligned)
  }

  /** The payload lies inside the data pages, the mapping has a page before and a page after them, and the payload meets
      the page before it or ends less than its alignment before the page after it. */
  predicate Between(l: Layout, size: nat, alignment: nat, page: nat, underflow: bool) {
    && l.total == page + l.data + page && page <= l.user && l.user + Bytes(size) <= page + l.data
    && if underflow then l.user == page else page + l.data < l.user + Bytes(size) + Alignment(alignment)
  }

  /** The layout is right if and only if the payload leaves room for three pages below 2^64. */
  lemma BetweenIff(size: nat, alignment: nat, k: nat, page: nat, p: nat, underflow: bool)
    requires Alignment(alignment) == Pow2(k) <= page == Pow2(p) <= WORD && k <= p <= 60
    ensures var l := Place(size, alignment, page, underflow);
            && (Between(l, size, alignment, page, underflow) <==> Bytes(size) <= WORD - 3 * page)
            && (Bytes(size) <= WORD - 3 * page ==>
                  l.user >= 0 && Aligned(l.user, k) && Aligned(l.data, p) && l.data < Bytes(size) + page)
  {
    hide Pow2, And, Aligned, AlignUp;
    RoomFor(p);
    Pow2Mono(k, p);
    var s, a := Bytes(size), Pow2(k);
    var aligned := AlignUp(s, a);
    var data := AlignUp(aligned, page);
    RoundedAligned(aligned, p);
    if s <= WORD - 3 * page {
      AlignedWeaken(WORD - 3 * page, k, p);
      AlignUpLeast(s, k);
      AlignUpLeast(aligned, p);
      LessThanPage(s, aligned, data, k, p);
      AlignedWeaken(data, k, p);
      AlignedSub(data, aligned, k);
      Pow2Aligned(k, p);
      AlignedAdd(page, data - aligned, k);
    } else if data > WORD - 3 * page {
      AlignedApart(WORD - 3 * page, data, p);
    }
  }

  /** Rounding up to the alignment first does not reach another page. */
  lemma LessThanPage(s: nat, aligned: nat, data: nat, k: nat, p: nat)
    requires k <= p && Aligned(data, p) && data < aligned + Pow2(p) && 0 < s <= aligned
    requires forall m: nat :: s <= m && Aligned(m, k) ==> aligned <= m
    ensures data < s + Pow2(p)
  {
    hide Pow2, Aligned;
    Pow2Mono(k, p);
    if data >= s + Pow2(p) {
      Pow2Aligned(p, p);
      AlignedSub(data, Pow2(p), p);
      AlignedWeaken(data - Pow2(p), k, p);
    }
  }

  /** 2^64 less three pages is a whole number of pages. */
  lemma RoomFor(p: nat)
    requires p <= 60
    ensures 3 * Pow2(p) <= WORD && Aligned(WORD - 3 * Pow2(p), p)
  {
    hide Pow2, Aligned;
    WordIsPow2();
    Pow2Mono(p, 62);
    Pow2Step(62);
    Pow2Step(63);
    Pow2Aligned(p, 64);
    Pow2Aligned(p, p);
    AlignedAdd(Pow2(p), Pow2(p), p);
    AlignedAdd(Pow2(p) + Pow2(p), Pow2(p), p);
    AlignedSub(WORD, 3 * Pow2(p), p);
  }

  lemma RoundedAligned(n: nat, k: nat)
    requires k <= 64 && Pow2(k) <= WORD
    ensures Aligned(AlignUp(n, Pow2(k)), k)
  {
    hide Pow2, And, Aligned;
    WordIsPow2();
    AndHighMask((n + Pow2(k) - 1) % WORD, k, 64);
  }
}
