/** What the two buddy implementations share: the byte per slot that records order and state,
    the order computation, and the heap walk that reads the bytes. */
module BuddyTags {
  import opened Powers
  import opened Platform
  import opened HeapWalk
  import opened BuddySpec
  import opened BuddyTheorems

  const HEADER: nat := 16

  // ----- Tag bytes: bit 7 used, bit 6 valid, low six bits the order -----

  function Encode(k: Block): (e: nat) {
    k.order + 64 + if k.used then 128 else 0
  }

  function TagOrder(e: nat): (o: nat) {
    e % 64
  }

  predicate TagValid(e: nat) {
    (e / 64) % 2 == 1
  }

  predicate TagUsed(e: nat) {
    (e / 128) % 2 == 1
  }

  predicate TagFreeAt(e: nat, o: nat) {
    TagValid(e) && !TagUsed(e) && TagOrder(e) == o
  }

  lemma EncodeRoundTrip(k: Block)
    requires k.order < 64
    ensures TagValid(Encode(k)) && TagUsed(Encode(k)) == k.used && TagOrder(Encode(k)) == k.order
    ensures forall o :: TagFreeAt(Encode(k), o) <==> k == Block(o, false)
  {
  }

  // ----- Slots -----

  function Slot(x: nat, lo: nat): (s: nat) {
    Shr(x, lo)
  }

  /** Every live block outside `held` has its order and state recorded at its first slot. */
  ghost predicate TagsAgree(b: Buddy, tags: seq<nat>, held: set<nat>) {
    && b.lo <= b.hi < 64
    && |tags| == Pow2(b.hi - b.lo)
    && forall x :: x in b.blocks && x !in held ==>
         Slot(x, b.lo) < |tags| && tags[Slot(x, b.lo)] == Encode(b.blocks[x])
  }

  ghost predicate SlotsFit(b: Buddy, slots: nat) {
    forall x :: x in b.blocks ==> Slot(x, b.lo) < slots
  }

  /** Live blocks have distinct slots within the map. */
  lemma SlotsInRange(b: Buddy)
    requires Shaped(b)
    ensures SlotsFit(b, Pow2(b.hi - b.lo))
  {
    forall x | x in b.blocks ensures Slot(x, b.lo) < Pow2(b.hi - b.lo) {
      ShrBound(x, b.lo, b.hi);
    }
  }

  lemma SlotsDistinct(b: Buddy, x: nat, y: nat)
    requires Shaped(b) && x in b.blocks && y in b.blocks && Slot(x, b.lo) == Slot(y, b.lo)
    ensures x == y
  {
    AlignedWeaken(x, b.lo, b.blocks[x].order);
    AlignedWeaken(y, b.lo, b.blocks[y].order);
    ShrInjective(x, y, b.lo);
  }

  /** A used block outside `held` starts with its order. */
  ghost predicate OrdersStored(b: Buddy, mem: seq<int>, held: set<nat>) {
    forall x: nat :: IsUsed(b, x) && x !in held ==> x < |mem| && mem[x] == b.blocks[x].order
  }

  lemma PutTag(b: Buddy, tags: seq<nat>, held: set<nat>, x: nat)
    requires Shaped(b) && TagsAgree(b, tags, held) && x in b.blocks
    ensures Slot(x, b.lo) < |tags|
    ensures TagsAgree(b, tags[Slot(x, b.lo) := Encode(b.blocks[x])], held - {x})
  {
    SlotsInRange(b);
    forall y | y in b.blocks && Slot(y, b.lo) == Slot(x, b.lo) ensures y == x {
      SlotsDistinct(b, x, y);
    }
  }

  lemma SplitTags(b: Buddy, tags: seq<nat>, x: nat)
    requires Inv(b) && IsUsed(b, x) && b.blocks[x].order > b.lo && TagsAgree(b, tags, {x})
    ensures var y := x + Pow2(b.blocks[x].order - 1);
            && TagsAgree(Split(b, x), tags, {x, y})
            && y in Split(b, x).blocks && b.blocks.Keys <= Split(b, x).blocks.Keys && y !in b.blocks
  {
  }

  lemma MergeTags(b: Buddy, tags: seq<nat>, x: nat)
    requires Inv(b) && IsUsed(b, x) && CanMerge(b, x) && TagsAgree(b, tags, {x})
    ensures TagsAgree(Merge(b, x), tags, {ClearBit(x, b.blocks[x].order)})
  {
    FlipHalves(x, b.blocks[x].order);
  }

  lemma InvShaped(b: Buddy)
    requires Inv(b)
    ensures Shaped(b)
  {
  }

  /** Splitting off block y leaves every stored order outside x in place. */
  lemma OrdersKept(b: Buddy, r: Buddy, m0: seq<int>, m1: seq<int>, x: nat, y: nat)
    requires OrdersStored(b, m0, {x}) && x in b.blocks && 0 < b.blocks[x].order <= |b.lists|
    requires r == Split(b, x) && y == x + Pow2(b.blocks[x].order - 1)
    requires |m0| == |m1| && forall u :: u in r.blocks.Keys && u != y && u < |m1| ==> m1[u] == m0[u]
    ensures OrdersStored(r, m1, {x})
  {
    hide Pow2;
    forall u: nat | IsUsed(r, u) && u !in {x} ensures u < |m1| && m1[u] == r.blocks[u].order {
      assert IsUsed(b, u);
    }
  }

  /** What a caller writes into its payload is no start of a block. */
  lemma PayloadInside(b: Buddy, x: nat, y: nat)
    requires Inv(b) && x in b.blocks && x + HEADER <= y < x + Pow2(b.blocks[x].order)
    ensures forall z :: z in b.blocks ==> z != y && (z < y ==> z <= x)
  {
    hide Total, ListsExact, Pow2, Aligned;
  }

  lemma PayloadKeepsOrders(b: Buddy, mem: seq<int>, held: set<nat>, x: nat, y: nat, v: int)
    requires Inv(b) && OrdersStored(b, mem, held) && IsUsed(b, x)
    requires x + HEADER <= y < x + Pow2(b.blocks[x].order) && y < |mem|
    ensures OrdersStored(b, mem[y := v], held)
  {
    hide Inv, Pow2;
    PayloadInside(b, x, y);
  }

  // ----- Which order a request gets -----

  /** Bytes a request takes with its header, on 64-bit words. */
  function Need(size: nat, alignment: nat): (n: nat) {
    var n := (size + HEADER) % WORD;
    if alignment > n then (alignment + HEADER) % WORD else n
  }

  function OrderOf(need: nat, lo: nat): (k: nat)
    ensures k >= lo
  {
    if need <= HALF && CeilLog2(need) > lo then CeilLog2(need) else lo
  }

  method OrderFor(need: nat, lo: nat) returns (k: nat)
    requires need < WORD
    ensures k == OrderOf(need, lo)
  {
    var p := NextPow2(need);
    var o := Log2Floor(p);
    if need <= HALF {
      Log2OfPow2(p, CeilLog2(need), o);
    }
    k := if o < lo then lo else o;
  }

  /** The bytes to reserve and the orders of a new heap: the least block size from 32 bytes and the least capacity
      that meet the wishes. The Rust allocator also wants at least a page; the C allocator does not. A capacity
      above 2^63 wraps to no bytes at all, which nothing can reserve, and a minimum block above 2^63 to order 0. */
  method CreateOrders(capacity: nat, minBlock: nat, page: nat) returns (bytes: nat, lo: nat, hi: nat)
    requires capacity < WORD && minBlock < WORD && page < WORD
    ensures bytes == 0 <==> capacity > HALF || page > HALF
    ensures bytes > 0 ==> bytes == Pow2(hi)
    ensures minBlock > HALF ==> lo == 0
    ensures minBlock <= HALF ==> 5 <= lo < 64 && forall k: nat :: 5 <= k ==> (lo <= k <==> minBlock <= Pow2(k))
    ensures minBlock <= HALF && bytes > 0 ==>
              lo <= hi < 64 && forall k: nat :: lo <= k ==> (hi <= k <==> capacity <= Pow2(k) && page <= Pow2(k))
  {
    hide Pow2, CeilLog2;
    Pow2Small();
    var want := if minBlock < 32 then 32 else minBlock;
    var block;
    block, lo := RoundUp(want);
    var room := if capacity < block then block else capacity;
    room := if room < page then page else room;
    bytes, hi := RoundUp(room);
    if minBlock <= HALF {
      forall k: nat ensures lo <= k <==> block <= Pow2(k) {
        Pow2Order(k, lo);
      }
    }
  }

  method RoundUp(n: nat) returns (p: nat, k: nat)
    requires n < WORD
    ensures n > HALF ==> p == 0 && k == 0
    ensures n <= HALF ==> p == Pow2(k) <= HALF && k < 64 && forall j: nat :: k <= j <==> n <= Pow2(j)
  {
    hide Pow2, CeilLog2;
    p := NextPow2(n);
    k := Log2Floor(p);
    if n <= HALF {
      Log2OfPow2(p, CeilLog2(n), k);
      Least(n);
      WordLogBound(n);
    }
  }

  lemma Least(n: nat)
    ensures forall k: nat :: CeilLog2(n) <= k <==> n <= Pow2(k)
  {
    forall k: nat ensures CeilLog2(n) <= k <==> n <= Pow2(k) {
      if CeilLog2(n) <= k {
        Pow2Mono(CeilLog2(n), k);
      } else {
        Pow2Mono(k, CeilLog2(n) - 1);
      }
    }
  }

  /** Up to 2^63 bytes the order is the least one from lo upward whose block holds the request. */
  lemma OrderIsLeast(need: nat, lo: nat, k: nat)
    requires need <= HALF && lo <= k
    ensures OrderOf(need, lo) <= k <==> need <= Pow2(k)
  {
    var c := CeilLog2(need);
    if c <= k {
      Pow2Mono(c, k);
    } else {
      Pow2Mono(k, c - 1);
    }
  }

  /** The block holds header and payload exactly when these are at most 2^63 bytes and an alignment whose own
      size wraps does not replace them, unless the smallest block happens to do. Everything else wraps, in the size,
      in the alignment or in the next power of two, and gets the smallest block. */
  lemma OrderHoldsIff(size: nat, alignment: nat, lo: nat)
    requires size < WORD && alignment < WORD && 5 <= lo < 64
    ensures size + HEADER <= Pow2(OrderOf(Need(size, alignment), lo)) <==>
            size + HEADER <= HALF &&
            (alignment + HEADER <= HALF || alignment <= size + HEADER || size + HEADER <= Pow2(lo))
  {
    hide Pow2, CeilLog2;
    var need := Need(size, alignment);
    var k := OrderOf(need, lo);
    OrderAtMost(need, lo);
    if need <= HALF {
      OrderIsLeast(need, lo, k);
    }
    if size + HEADER <= HALF && alignment > size + HEADER && alignment + HEADER >= WORD {
      Pow2Small();
      Least(need);
      assert CeilLog2(need) <= 5;
    }
  }

  /** The least order from lo upward whose block holds header and payload and, where the alignment is larger than both,
      header and alignment. */
  ghost predicate LeastOrder(o: nat, size: nat, alignment: nat, lo: nat) {
    lo <= o && forall k: nat :: lo <= k ==>
      (o <= k <==> size + HEADER <= Pow2(k) && (alignment > size + HEADER ==> alignment + HEADER <= Pow2(k)))
  }

  /** Neither the size nor an alignment that counts is above 2^63 bytes with the header. */
  predicate Servable(size: nat, alignment: nat) {
    size + HEADER <= HALF && (alignment + HEADER <= HALF || alignment <= size + HEADER)
  }

  /** A servable request gets the least order that holds it. */
  lemma RequestGetsLeastOrder(size: nat, alignment: nat, lo: nat)
    requires Servable(size, alignment)
    ensures LeastOrder(OrderOf(Need(size, alignment), lo), size, alignment, lo)
  {
    hide Pow2, OrderOf;
    forall k: nat | lo <= k
      ensures OrderOf(Need(size, alignment), lo) <= k <==>
              size + HEADER <= Pow2(k) && (alignment > size + HEADER ==> alignment + HEADER <= Pow2(k))
    {
      OrderIsLeast(Need(size, alignment), lo, k);
    }
  }

  /** Any other request gets the smallest block, except that a size so close to 2^64 that it wraps past its header
      leaves the alignment to decide. */
  lemma WrappedRequestOrder(size: nat, alignment: nat, lo: nat, k: nat)
    requires size < WORD && alignment < WORD && 5 <= lo <= k && !Servable(size, alignment)
    ensures var o := OrderOf(Need(size, alignment), lo);
            if size + HEADER >= WORD && alignment > size + HEADER - WORD && alignment + HEADER <= HALF
            then o <= k <==> alignment + HEADER <= Pow2(k)
            else o == lo
  {
    hide Pow2, CeilLog2, OrderOf;
    Pow2Small();
    Pow2Mono(5, lo);
    var need := Need(size, alignment);
    if need <= HALF {
      OrderIsLeast(need, lo, k);
      OrderIsLeast(need, lo, lo);
    } else {
      TooLarge(need, lo);
    }
  }

  lemma Grants(b: Buddy, size: nat, alignment: nat, lo: nat)
    requires Inv(b) && b.lo == lo
    ensures var (r, x) := Alloc(b, OrderOf(Need(size, alignment), lo));
            x.Some? ==>
              && !IsUsed(b, x.value) && IsUsed(r, x.value)
              && (Servable(size, alignment) ==> LeastOrder(r.blocks[x.value].order, size, alignment, lo))
  {
    hide Inv, LeastOrder, OrderOf, Need;
    var k := OrderOf(Need(size, alignment), lo);
    if Alloc(b, k).1.Some? {
      AllocGrants(b, k);
      if Servable(size, alignment) {
        RequestGetsLeastOrder(size, alignment, lo);
      }
    }
  }

  lemma TooLarge(need: nat, lo: nat)
    requires need > HALF
    ensures OrderOf(need, lo) == lo
  {
  }

  lemma OrderAtMost(need: nat, lo: nat)
    requires lo < 64
    ensures Pow2(OrderOf(need, lo)) <= HALF
  {
    hide Pow2, CeilLog2;
    WordIsPow2();
    if need <= HALF {
      WordLogBound(need);
    }
    Pow2Mono(OrderOf(need, lo), 63);
  }

  /** Three requests that are given a block of 32 bytes: just above 2^63 bytes, 8 bytes short of 2^64, and a small
      one aligned to 2^63. */
  lemma HugeRequestsGetSmallestBlock()
    ensures OrderOf(Need(HALF - 15, 16), 5) == 5 && HALF - 15 > Pow2(5)
    ensures OrderOf(Need(WORD - 8, 16), 5) == 5 && WORD - 8 > Pow2(5)
    ensures OrderOf(Need(100, HALF), 5) == 5 && 100 > Pow2(5)
  {
    hide CeilLog2;
    Pow2Small();
    Least(32);
  }

  /** The payload starts 16 bytes into its block, so it meets a requested power-of-two
      alignment exactly when that alignment is at most 16. */
  lemma {:induction false} PayloadAlignedIff(x: nat, size: nat, a: nat, lo: nat)
    requires 5 <= lo && Aligned(x, OrderOf(Need(size, Pow2(a)), lo))
    ensures Aligned(x + HEADER, a) <==> Pow2(a) <= 16
  {
    hide Aligned, Pow2, CeilLog2;
    Pow2Small();
    Pow2Order(4, a);
    AlignedWeaken(x, 5, OrderOf(Need(size, Pow2(a)), lo));
    Pow2Aligned(4, 4);
    if a <= 4 {
      AlignedWeaken(x, a, 5);
      Pow2Aligned(a, 4);
      AlignedAdd(x, 16, a);
    } else if Aligned(x + HEADER, a) {
      AlignedWeaken(x + HEADER, 5, a);
      AlignedApart(x, x + HEADER, 5);
    }
  }

  // ----- Walk -----

  ghost predicate Reports(b: Buddy, i: BlockInfo) {
    i.offset in b.blocks && i.size == Pow2(b.blocks[i.offset].order) && i.isFree == !b.blocks[i.offset].used
  }

  /** Every live block below `end` is reported. */
  ghost predicate AllReported(b: Buddy, w: seq<BlockInfo>, end: nat) {
    forall x :: x in b.blocks && x < end ==> BlockInfo(x, Pow2(b.blocks[x].order), !b.blocks[x].used) in w
  }

  lemma {:induction false} NoStartInside(b: Buddy, x: nat, n: nat)
    requires Inv(b) && x in b.blocks && x < n <= x + Pow2(b.blocks[x].order)
    ensures SizeBelow(UsedSizes(b), n) ==
            SizeBelow(UsedSizes(b), x) + if b.blocks[x].used then Pow2(b.blocks[x].order) else 0
  {
    if n > x + 1 {
      NoStartInside(b, x, n - 1);
      assert n - 1 !in b.blocks;
    }
  }

  /** The block after a live block is live. */
  lemma NextIsLive(b: Buddy, x: nat)
    requires Inv(b) && x in b.blocks && x + Pow2(b.blocks[x].order) < Pow2(b.hi)
    ensures x + Pow2(b.blocks[x].order) in b.blocks
  {
    var e := x + Pow2(b.blocks[x].order);
    assert Covered(b, e);
    var z: nat :| Covers(b, z, e);
    assert Covers(b, x, e - 1);
  }

  /** The walk has reached the start of block x, or the end of the heap. */
  ghost predicate WalkedTo(b: Buddy, w: seq<BlockInfo>, x: nat) {
    && x <= Pow2(b.hi) && Aligned(x, b.lo)
    && (x < Pow2(b.hi) ==> x in b.blocks)
    && Tiling(w, x) && AllReported(b, w, x)
    && (forall i :: 0 <= i < |w| ==> Reports(b, w[i]))
    && UsedSum(w) == SizeBelow(UsedSizes(b), x)
  }

  lemma BlockFacts(b: Buddy, x: nat)
    requires Inv(b) && x in b.blocks
    ensures var size := Pow2(b.blocks[x].order);
            && b.lo <= b.blocks[x].order && size > 0 && x + size <= Pow2(b.hi)
            && (x + size < Pow2(b.hi) ==> x + size in b.blocks)
            && Reports(b, BlockInfo(x, size, !b.blocks[x].used))
  {
    if x + Pow2(b.blocks[x].order) < Pow2(b.hi) {
      NextIsLive(b, x);
    }
    hide Total, Disjoint, ListsExact, Aligned;
  }

  lemma WalkStep(b: Buddy, w: seq<BlockInfo>, x: nat)
    requires Inv(b) && WalkedTo(b, w, x) && x < Pow2(b.hi)
    ensures x in b.blocks
    ensures var size := Pow2(b.blocks[x].order);
            && x + size <= Pow2(b.hi)
            && WalkedTo(b, w + [BlockInfo(x, size, !b.blocks[x].used)], x + size)
            && Slot(x + size, b.lo) == Slot(x, b.lo) + Shr(size, b.lo)
  {
    hide Inv, Reports, Aligned, Slot, Shr, Pow2, AllReported, SizeBelow, UsedSizes, UsedSum, Tiling;
    BlockFacts(b, x);
    var o := b.blocks[x].order;
    NoStartInside(b, x, x + Pow2(o));
    AdvanceSlot(x, b.lo, o);
    ExtendReports(b, w, x);
    UsedSumAppend(w, BlockInfo(x, Pow2(o), !b.blocks[x].used));
  }

  /** The walk reports the live blocks, all of them, in address order; the used sizes add up to the bytes in use. */
  method Walk(tags: array<nat>, lo: nat, hi: nat, ghost b: Buddy) returns (w: seq<BlockInfo>)
    requires Inv(b) && b.lo == lo && b.hi == hi && TagsAgree(b, tags[..], {})
    ensures Tiling(w, Pow2(hi)) && AllReported(b, w, Pow2(hi))
    ensures forall i :: 0 <= i < |w| ==> Reports(b, w[i])
    ensures UsedSum(w) == UsedBytes(b)
  {
    w := [];
    var slot := 0;
    ghost var x := 0;
    FirstIsLive(b);
    ghost var t := tags[..];
    hide Inv, WalkedTo, TagsAgree, Slot, Shr, Shl, Pow2, TagOrder, TagUsed, Encode;
    while slot < tags.Length
      invariant slot == Slot(x, lo) && WalkedTo(b, w, x) && x <= Pow2(hi)
      decreases Pow2(hi) - x
    {
      // A live block starts at every slot the walk visits, so skipping a never-written slot does not arise.
      VisitedSlot(b, t, w, x);
      WalkStep(b, w, x);
      var e := tags[slot];
      var size := Pow2(TagOrder(e));
      w := w + [BlockInfo(Shl(slot, lo), size, !TagUsed(e))];
      slot := slot + Shr(size, lo);
      x := x + size;
    }
    WalkEnd(b, t, w, x);
  }

  lemma VisitedSlot(b: Buddy, tags: seq<nat>, w: seq<BlockInfo>, x: nat)
    requires Inv(b) && TagsAgree(b, tags, {}) && WalkedTo(b, w, x) && Slot(x, b.lo) < |tags|
    ensures x < Pow2(b.hi) && x in b.blocks && Shl(Slot(x, b.lo), b.lo) == x
    ensures var e := tags[Slot(x, b.lo)]; TagOrder(e) == b.blocks[x].order && TagUsed(e) == b.blocks[x].used
  {
    TopSlot(b.lo, b.hi, x);
    EncodeRoundTrip(b.blocks[x]);
    ShlShr(x, b.lo);
  }

  lemma WalkEnd(b: Buddy, tags: seq<nat>, w: seq<BlockInfo>, x: nat)
    requires Inv(b) && TagsAgree(b, tags, {}) && WalkedTo(b, w, x) && Slot(x, b.lo) >= |tags|
    ensures Tiling(w, Pow2(b.hi)) && AllReported(b, w, Pow2(b.hi))
    ensures forall i :: 0 <= i < |w| ==> Reports(b, w[i])
    ensures UsedSum(w) == UsedBytes(b)
  {
    TopSlotEnd(b.lo, b.hi, x);
  }

  lemma FirstIsLive(b: Buddy)
    requires Inv(b)
    ensures Slot(0, b.lo) == 0 && WalkedTo(b, [], 0)
  {
    assert Covered(b, 0);
    ZeroAligned(b.lo);
    ShrSmaller(0, b.lo);
  }

  lemma TopSlot(lo: nat, hi: nat, x: nat)
    requires lo <= hi && x <= Pow2(hi) && Slot(x, lo) < Pow2(hi - lo)
    ensures x < Pow2(hi)
  {
    ShrPow2(lo, hi);
  }

  lemma TopSlotEnd(lo: nat, hi: nat, x: nat)
    requires lo <= hi && x <= Pow2(hi) && Slot(x, lo) >= Pow2(hi - lo)
    ensures x == Pow2(hi)
  {
    if x < Pow2(hi) {
      ShrBound(x, lo, hi);
    }
  }

  lemma AdvanceSlot(x: nat, lo: nat, o: nat)
    requires lo <= o && Aligned(x, lo)
    ensures Slot(x + Pow2(o), lo) == Slot(x, lo) + Shr(Pow2(o), lo) && Aligned(x + Pow2(o), lo)
  {
    ShrAdd(x, Pow2(o), lo);
    Pow2Aligned(lo, o);
    AlignedAdd(x, Pow2(o), lo);
  }

  lemma ExtendReports(b: Buddy, w: seq<BlockInfo>, x: nat)
    requires Inv(b) && x in b.blocks && AllReported(b, w, x)
    ensures AllReported(b, w + [BlockInfo(x, Pow2(b.blocks[x].order), !b.blocks[x].used)], x + Pow2(b.blocks[x].order))
  {
    var info := BlockInfo(x, Pow2(b.blocks[x].order), !b.blocks[x].used);
    forall y | y in b.blocks && y < x + info.size
      ensures BlockInfo(y, Pow2(b.blocks[y].order), !b.blocks[y].used) in w + [info]
    {
      assert y <= x;
    }
  }

  lemma InitialFacts(lo: nat, hi: nat)
    requires 5 <= lo <= hi < 64
    ensures var b := Initial(lo, hi);
            Inv(b) && Canonical(b) && UsedBytes(b) == 0 && 8 < Pow2(hi) && Slot(0, lo) == 0
  {
    InitialInv(lo, hi);
    Pow2Mono(5, hi);
    assert Pow2(5) == 32;
    ShrSmaller(0, lo);
    assert UsedSizes(Initial(lo, hi)) == map[];
    EmptyBytes(Pow2(hi));
  }
}
