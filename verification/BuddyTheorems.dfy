/** What the buddy heap promises over whole runs. */
module BuddyTheorems {
  import opened Powers
  import opened HeapWalk
  import opened Seqs
  import opened BuddySpec

  // ----- The probed buddy is a live block -----

  /** The buddy offset of a live block below the top order is itself the start of a live
      block, of no larger order: merging never looks at a byte of the tag map that is left
      over from inside a block. */
  lemma BuddyIsLive(b: Buddy, x: nat)
    requires Inv(b) && x in b.blocks && b.blocks[x].order < b.hi
    ensures FlipBit(x, b.blocks[x].order) in b.blocks
    ensures b.blocks[FlipBit(x, b.blocks[x].order)].order <= b.blocks[x].order
  {
    var o := b.blocks[x].order;
    var y, base := FlipBit(x, o), ClearBit(x, o);
    FlipHalves(x, o);
    ParentInside(base, o, b.hi, x);
    assert Covered(b, y);
    var z: nat :| Covers(b, z, y);
    var k := b.blocks[z].order;
    if k <= o {
      AlignedWeaken(y, k, o);
      if z < y {
        AlignedApart(z, y, k);
      }
    } else {
      AlignedNest(z, k, base, o + 1, y);
      assert false;
    }
  }

  /** The parent of a block inside the heap is inside the heap. */
  lemma ParentInside(base: nat, o: nat, hi: nat, x: nat)
    requires o < hi && Aligned(base, o + 1) && x + Pow2(o) <= Pow2(hi) && (x == base || x == base + Pow2(o))
    ensures base + Pow2(o + 1) <= Pow2(hi)
  {
    Pow2Aligned(o + 1, hi);
    AlignedApart(base, Pow2(hi), o + 1);
  }

  /** Aligned blocks are nested or disjoint: a block of order k that holds a byte of a block of order j <= k
      holds all of it. */
  lemma AlignedNest(z: nat, k: nat, x: nat, j: nat, p: nat)
    requires j <= k && Aligned(z, k) && Aligned(x, j)
    requires z <= p < z + Pow2(k) && x <= p < x + Pow2(j)
    ensures z <= x && x + Pow2(j) <= z + Pow2(k)
  {
    AlignedWeaken(z, j, k);
    Pow2Aligned(j, k);
    AlignedAdd(z, Pow2(k), j);
    if x < z {
      AlignedApart(x, z, j);
    }
    AlignedApart(x, z + Pow2(k), j);
  }

  // ----- Used blocks -----

  ghost function UsedMap(b: Buddy): (m: map<nat, nat>) {
    map x | x in b.blocks && b.blocks[x].used :: b.blocks[x].order
  }

  lemma SplitUsed(b: Buddy, x: nat)
    requires IsUsed(b, x) && 0 < b.blocks[x].order <= |b.lists| && x + Pow2(b.blocks[x].order - 1) !in b.blocks
    ensures UsedMap(Split(b, x)) == UsedMap(b)[x := b.blocks[x].order - 1]
  {
  }

  lemma SplitCanonical(b: Buddy, x: nat)
    requires IsUsed(b, x) && 0 < b.blocks[x].order <= |b.lists|
    requires Aligned(x, b.blocks[x].order) && x + Pow2(b.blocks[x].order - 1) !in b.blocks
    requires Canonical(b)
    ensures Canonical(Split(b, x))
  {
    var r, o := Split(b, x), b.blocks[x].order - 1;
    HalvesFlip(x, o);
    forall u: nat, k: nat | k < r.hi ensures !FreeBuddies(r, u, k) {
      FlipTwice(u, k);
      assert !FreeBuddies(b, u, k);
    }
  }

  lemma HeldFacts(b: Buddy, x: nat)
    requires Inv(b) && x in b.blocks
    ensures IsUsed(b, x) ==> b.blocks[x].used
    ensures b.lo <= b.blocks[x].order < |b.lists| && Aligned(x, b.blocks[x].order)
    ensures b.blocks[x].order > 0 ==> x + Pow2(b.blocks[x].order - 1) !in b.blocks
    ensures b.blocks[x].used <==> x in UsedMap(b)
    ensures b.blocks[x].used ==> UsedMap(b)[x] == b.blocks[x].order
  {
  }

  lemma SplitOnce(b: Buddy, x: nat)
    requires Inv(b) && IsUsed(b, x) && b.blocks[x].order > b.lo
    ensures var r, o := Split(b, x), b.blocks[x].order - 1;
            && Inv(r) && r.lo == b.lo && r.hi == b.hi
            && x in r.blocks && r.blocks[x] == Block(o, true) && IsUsed(r, x)
            && UsedMap(r) == UsedMap(b)[x := o]
            && (Canonical(b) ==> Canonical(r))
  {
    HeldFacts(b, x);
    SplitInv(b, x);
    SplitUsed(b, x);
    hide Inv, Canonical, UsedMap, Aligned, Pow2;
    if Canonical(b) {
      SplitCanonical(b, x);
    }
  }

  /** Splitting a held block changes no other used block and keeps free buddies apart. */
  lemma {:induction false} SplitToUsed(b: Buddy, x: nat, k: nat)
    requires Inv(b) && IsUsed(b, x) && b.lo <= k <= b.blocks[x].order
    ensures UsedMap(SplitTo(b, x, k)) == UsedMap(b)[x := k]
    ensures Canonical(b) ==> Canonical(SplitTo(b, x, k))
    decreases b.blocks[x].order
  {
    HeldFacts(b, x);
    hide *;
    if b.blocks[x].order == k {
      SplitToBase(b, x, k);
      PutSame(UsedMap(b), x);
    } else {
      SplitOnce(b, x);
      PutTwice(UsedMap(b), x, b.blocks[x].order - 1, k);
      SplitToStep(b, x, k);
      SplitToUsed(Split(b, x), x, k);
    }
  }

  lemma SplitToBase(b: Buddy, x: nat, k: nat)
    requires Inv(b) && IsUsed(b, x) && b.lo <= k == b.blocks[x].order
    ensures SplitTo(b, x, k) == b
  {
  }

  lemma SplitToStep(b: Buddy, x: nat, k: nat)
    requires Inv(b) && IsUsed(b, x) && b.lo <= k < b.blocks[x].order
    requires Inv(Split(b, x)) && IsUsed(Split(b, x), x) && k <= Split(b, x).blocks[x].order
    ensures SplitTo(b, x, k) == SplitTo(Split(b, x), x, k)
  {
  }

  /** x is the left half of its aligned parent, so its flip is the right half and the flip of that is x. */
  lemma HalvesFlip(x: nat, o: nat)
    requires Aligned(x, o + 1)
    ensures FlipBit(x, o) == x + Pow2(o) && FlipBit(x + Pow2(o), o) == x
  {
    AlignedWeaken(x, o, o + 1);
    FlipHalves(x, o);
    if FlipBit(x, o) != x + Pow2(o) {
      var base := ClearBit(x, o);
      AlignedApart(base, x, o + 1);
      assert false;
    }
    FlipTwice(x, o);
  }

  lemma {:induction false} FlipTwice(x: nat, o: nat)
    ensures FlipBit(FlipBit(x, o), o) == x
  {
    if o > 0 {
      FlipTwice(x / 2, o - 1);
      assert FlipBit(x, o) == 2 * FlipBit(x / 2, o - 1) + x % 2;
      assert FlipBit(FlipBit(x, o), o) == 2 * FlipBit(FlipBit(x / 2, o - 1), o - 1) + x % 2;
    }
  }

  lemma MergeUsed(b: Buddy, x: nat)
    requires IsUsed(b, x) && b.blocks[x].order < |b.lists| && CanMerge(b, x) && Aligned(x, b.blocks[x].order)
    ensures var o := b.blocks[x].order;
            UsedMap(Merge(b, x)) == (UsedMap(b) - {x})[ClearBit(x, o) := o + 1]
    ensures UsedMap(Merge(b, x)) - {ClearBit(x, b.blocks[x].order)} == UsedMap(b) - {x}
  {
    FlipHalves(x, b.blocks[x].order);
  }

  lemma ReleaseUsed(b: Buddy, x: nat)
    requires x in b.blocks && b.blocks[x].order < |b.lists|
    ensures UsedMap(Release(b, x)) == UsedMap(b) - {x}
  {
  }

  lemma MergeCanonical(b: Buddy, x: nat)
    requires IsUsed(b, x) && b.blocks[x].order < |b.lists| && Canonical(b)
    ensures Canonical(Merge(b, x))
  {
    var r := Merge(b, x);
    forall u: nat, k: nat | k < r.hi ensures !FreeBuddies(r, u, k) {
      assert !FreeBuddies(b, u, k);
    }
  }

  lemma ReleaseCanonical(b: Buddy, x: nat)
    requires IsUsed(b, x) && b.blocks[x].order < |b.lists| && !CanMerge(b, x) && Canonical(b)
    ensures Canonical(Release(b, x))
  {
    var r := Release(b, x);
    forall u: nat, k: nat | k < r.hi ensures !FreeBuddies(r, u, k) {
      FlipTwice(u, k);
      assert !FreeBuddies(b, u, k);
    }
  }

  /** Freeing takes exactly the freed block out of the used blocks and never leaves two free buddies. */
  lemma {:induction false} MergeUpUsed(b: Buddy, x: nat)
    requires Inv(b) && IsUsed(b, x)
    ensures UsedMap(MergeUp(b, x)) == UsedMap(b) - {x}
    ensures Canonical(b) ==> Canonical(MergeUp(b, x))
    decreases b.hi - b.blocks[x].order
  {
    if CanMerge(b, x) {
      HeldFacts(b, x);
      MergeInv(b, x);
      MergeUsed(b, x);
      hide Inv, Canonical, UsedMap;
      if Canonical(b) {
        MergeCanonical(b, x);
      }
      MergeUpUsed(Merge(b, x), ClearBit(x, b.blocks[x].order));
    } else {
      HeldFacts(b, x);
      ReleaseUsed(b, x);
      hide Inv, Canonical, UsedMap;
      if Canonical(b) {
        ReleaseCanonical(b, x);
      }
    }
  }

  /** A successful allocation adds exactly one used block, of the requested order; a failed one changes nothing. */
  lemma AllocUsed(b: Buddy, k: nat)
    requires Inv(b) && b.lo <= k
    ensures var (r, x) := Alloc(b, k);
            && (Canonical(b) ==> Canonical(r))
            && (x.None? ==> r == b)
            && (x.Some? ==> x.value !in UsedMap(b) && UsedMap(r) == UsedMap(b)[x.value := k])
  {
    var o := FirstOrder(b, k);
    if o <= b.hi {
      PopInv(b, o);
      PopUsed(b, o);
      var x := b.lists[o][0];
      var p := Pop(b, o);
      hide Inv, Canonical, UsedMap, Pow2, Aligned;
      if Canonical(b) {
        PopCanonical(b, o);
      }
      SplitToUsed(p, x, k);
      PutTwice(UsedMap(b), x, o, k);
    }
  }

  /** The block handed out starts a free block of the smallest order that has one, the one listed last. */
  lemma AllocChoice(b: Buddy, k: nat) returns (o: nat)
    requires Inv(b) && b.lo <= k && Alloc(b, k).1.Some?
    ensures k <= o <= b.hi && o < |b.lists| && b.lists[o] != [] && Alloc(b, k).1 == Some(b.lists[o][0])
    ensures IsFree(b, b.lists[o][0], o) && forall x: nat, j: nat :: k <= j < o ==> !IsFree(b, x, j)
  {
    hide Total, Disjoint, Pow2, Aligned;
    o := FirstOrder(b, k);
    HeadIn(b.lists[o]);
    forall x: nat, j: nat | k <= j < o ensures !IsFree(b, x, j) {
      assert x in b.lists[j] <==> IsFree(b, x, j);
    }
  }

  /** What a freed block has merged into is the next block of its order to be handed out. */
  lemma {:induction false} FreeThenAlloc(b: Buddy, x: nat) returns (z: nat, o: nat)
    requires Inv(b) && IsUsed(b, x)
    ensures var r := MergeUp(b, x);
            && IsFree(r, z, o) && z <= x && x + Pow2(b.blocks[x].order) <= z + Pow2(o)
            && r.lo <= o && Alloc(r, o).1 == Some(z)
    decreases b.hi - b.blocks[x].order
  {
    o := b.blocks[x].order;
    if CanMerge(b, x) {
      MergeInv(b, x);
      JoinedCovers(b, x);
      hide Inv, Alloc, Merge, FlipBit, ClearBit, Pow2;
      z, o := FreeThenAlloc(Merge(b, x), ClearBit(x, o));
    } else {
      z := x;
      ReleasedFirst(b, x);
      hide Inv, Alloc;
    }
  }

  lemma JoinedCovers(b: Buddy, x: nat)
    requires Inv(b) && IsUsed(b, x) && CanMerge(b, x)
    ensures var r, o := Merge(b, x), b.blocks[x].order;
            var z := ClearBit(x, o);
            IsUsed(r, z) && r.blocks[z].order == o + 1 && z <= x && x + Pow2(o) <= z + Pow2(o + 1) && b.hi == r.hi
  {
    var o := b.blocks[x].order;
    FlipHalves(x, o);
    assert Pow2(o + 1) == 2 * Pow2(o);
    hide Inv, Pow2, Aligned, FlipBit, ClearBit;
  }

  lemma ReleasedFirst(b: Buddy, x: nat)
    requires Inv(b) && IsUsed(b, x) && !CanMerge(b, x)
    ensures var r, o := MergeUp(b, x), b.blocks[x].order;
            IsFree(r, x, o) && r.lo <= o && Alloc(r, o).1 == Some(x)
  {
    hide Total, Disjoint, Pow2, Aligned;
    ReleaseInv(b, x);
    var r, o := Release(b, x), b.blocks[x].order;
    assert r.lists[o][0] == x;
    assert FirstOrder(r, o) == o;
  }

  /** The block handed out was not in use, is now, and has the order asked for. */
  lemma AllocGrants(b: Buddy, k: nat)
    requires Inv(b) && b.lo <= k && Alloc(b, k).1.Some?
    ensures var (r, x) := Alloc(b, k);
            !IsUsed(b, x.value) && IsUsed(r, x.value) && r.blocks[x.value].order == k
  {
    AllocUsed(b, k);
    hide Inv, Alloc;
    var (r, x) := Alloc(b, k);
    assert x.value in UsedMap(r) && UsedMap(r)[x.value] == k;
  }

  lemma PopUsed(b: Buddy, o: nat)
    requires Inv(b) && o < |b.lists| && b.lists[o] != []
    ensures var x := b.lists[o][0];
            x in b.blocks && x !in UsedMap(b) && UsedMap(Pop(b, o)) == UsedMap(b)[x := o]
    ensures var x := b.lists[o][0]; Pop(b, o).blocks[x] == Block(o, true)
  {
    hide Total, Disjoint, Pow2, Aligned;
    assert b.lists[o][0] in b.lists[o];
    assert IsFree(b, b.lists[o][0], o);
  }

  lemma PopCanonical(b: Buddy, o: nat)
    requires o < |b.lists| && b.lists[o] != [] && Canonical(b)
    ensures Canonical(Pop(b, o))
  {
    var r := Pop(b, o);
    forall u: nat, k: nat | k < r.hi ensures !FreeBuddies(r, u, k) {
      assert !FreeBuddies(b, u, k);
    }
  }

  // ----- Completeness -----

  ghost predicate FreeByte(b: Buddy, p: nat) {
    exists x: nat :: Covers(b, x, p) && !b.blocks[x].used
  }

  /** An aligned region of 2^k bytes inside the heap, all of them free. */
  ghost predicate FreeRegion(b: Buddy, start: nat, k: nat) {
    && Aligned(start, k)
    && start + Pow2(k) <= Pow2(b.hi)
    && forall p :: start <= p < start + Pow2(k) ==> FreeByte(b, p)
  }

  ghost predicate Holds(b: Buddy, x: nat, start: nat, k: nat) {
    x in b.blocks && !b.blocks[x].used && k <= b.blocks[x].order && x <= start < x + Pow2(b.blocks[x].order)
  }

  /** A wholly free aligned region lies inside one free block. */
  lemma {:induction false} FreeRegionInBlock(b: Buddy, start: nat, k: nat) returns (x: nat)
    requires Inv(b) && Canonical(b) && b.lo <= k <= b.hi && FreeRegion(b, start, k)
    ensures Holds(b, x, start, k)
    decreases k
  {
    if k == b.lo {
      assert FreeByte(b, start);
      x :| Covers(b, x, start) && !b.blocks[x].used;
    } else {
      var j := k - 1;
      var mid := start + Pow2(j);
      AlignedWeaken(start, j, k);
      HalvesFlip(start, j);
      FlipHalves(start, j);
      x := FreeRegionInBlock(b, start, j);
      var y := FreeRegionInBlock(b, mid, j);
      if b.blocks[x].order == j {
        StartIs(b, x, start, j);
        if b.blocks[y].order == j {
          StartIs(b, y, mid, j);
          assert FreeBuddies(b, start, j);
          assert false;
        } else {
          AlignedNest(y, b.blocks[y].order, start, k, mid);
          x := y;
        }
      }
    }
  }

  lemma StartIs(b: Buddy, x: nat, start: nat, j: nat)
    requires x in b.blocks && b.blocks[x].order == j && Aligned(x, j) && Aligned(start, j)
    requires x <= start < x + Pow2(j)
    ensures x == start
  {
    if x < start {
      AlignedApart(x, start, j);
    }
  }

  lemma FreeBlockFound(b: Buddy, x: nat, k: nat)
    requires Inv(b) && x in b.blocks && !b.blocks[x].used && k <= b.blocks[x].order
    ensures FirstOrder(b, k) <= b.hi
  {
    assert IsFree(b, x, b.blocks[x].order);
    assert x in b.lists[b.blocks[x].order];
  }

  /** Allocation of order k fails exactly when no aligned region of 2^k bytes is entirely free. */
  lemma AllocComplete(b: Buddy, k: nat)
    requires Inv(b) && Canonical(b) && b.lo <= k
    ensures Alloc(b, k).1.None? <==> !exists start: nat :: FreeRegion(b, start, k)
  {
    var o := FirstOrder(b, k);
    if o <= b.hi {
      var x := b.lists[o][0];
      assert x in b.lists[o];
      assert IsFree(b, x, o);
      Pow2Mono(k, o);
      AlignedWeaken(x, k, o);
      forall p | x <= p < x + Pow2(k) ensures FreeByte(b, p) {
        assert Covers(b, x, p);
      }
      assert FreeRegion(b, x, k);
    } else if start: nat :| FreeRegion(b, start, k) {
      Pow2Order(b.hi, k);
      var x := FreeRegionInBlock(b, start, k);
      FreeBlockFound(b, x, k);
    }
  }

  /** When nothing is used the heap is the single top-order block. */
  lemma AllFreeIsInitial(b: Buddy)
    requires Inv(b) && Canonical(b) && UsedMap(b) == map[]
    ensures b.blocks == map[0 := Block(b.hi, false)]
    ensures b == Initial(b.lo, b.hi)
  {
    forall p | 0 <= p < 0 + Pow2(b.hi) ensures FreeByte(b, p) {
      assert Covered(b, p);
      var x: nat :| Covers(b, x, p);
      assert x !in UsedMap(b);
      assert Covers(b, x, p) && !b.blocks[x].used;
    }
    ZeroAligned(b.hi);
    var x := FreeRegionInBlock(b, 0, b.hi);
    assert x == 0 && b.blocks[0] == Block(b.hi, false);
    forall y | y in b.blocks ensures y == 0 {
      assert Covers(b, y, y);
    }
    OnlyTopList(b);
  }

  lemma OnlyTopList(b: Buddy)
    requires Inv(b) && b.blocks == map[0 := Block(b.hi, false)]
    ensures b == Initial(b.lo, b.hi)
  {
    var init := Initial(b.lo, b.hi);
    InitialInv(b.lo, b.hi);
    forall o | 0 <= o <= b.hi ensures b.lists[o] == init.lists[o] {
      assert forall x :: x in b.lists[o] <==> x in init.lists[o];
      SingletonList(b.lists[o], init.lists[o]);
    }
    assert b.lists == init.lists;
  }

  /** The block structure is a function of the used blocks alone: however the heap got there,
      equal live allocations mean equal free blocks. */
  lemma StructureDetermined(b: Buddy, c: Buddy)
    requires Inv(b) && Canonical(b) && Inv(c) && Canonical(c)
    requires b.lo == c.lo && b.hi == c.hi && UsedMap(b) == UsedMap(c)
    ensures b.blocks == c.blocks
  {
    forall x | x in b.blocks ensures x in c.blocks && c.blocks[x] == b.blocks[x] {
      BlockTransfers(b, c, x);
    }
    forall x | x in c.blocks ensures x in b.blocks {
      BlockTransfers(c, b, x);
    }
  }

  lemma UsedCarries(b: Buddy, c: Buddy, z: nat, p: nat)
    requires UsedMap(b) == UsedMap(c) && Covers(c, z, p) && c.blocks[z].used
    ensures Covers(b, z, p) && b.blocks[z].used
  {
    assert z in UsedMap(c);
    assert UsedMap(b)[z] == UsedMap(c)[z];
  }

  lemma OneCover(b: Buddy, x: nat, z: nat, p: nat)
    requires Disjoint(b) && Covers(b, x, p) && Covers(b, z, p)
    ensures x == z
  {
  }

  lemma FreeByteTransfers(b: Buddy, c: Buddy, p: nat)
    requires Inv(b) && Inv(c) && b.hi == c.hi && UsedMap(b) == UsedMap(c) && p < Pow2(b.hi)
    requires FreeByte(b, p)
    ensures FreeByte(c, p)
  {
    var x: nat :| Covers(b, x, p) && !b.blocks[x].used;
    assert Covered(c, p);
    var z: nat :| Covers(c, z, p);
    if c.blocks[z].used {
      UsedCarries(b, c, z, p);
      OneCover(b, x, z, p);
    }
  }

  lemma RegionTransfers(b: Buddy, c: Buddy, x: nat)
    requires Inv(b) && Inv(c) && b.hi == c.hi && UsedMap(b) == UsedMap(c)
    requires x in b.blocks && !b.blocks[x].used
    ensures FreeRegion(c, x, b.blocks[x].order)
  {
    forall p | x <= p < x + Pow2(b.blocks[x].order) ensures FreeByte(c, p) {
      assert Covers(b, x, p);
      FreeByteTransfers(b, c, p);
    }
  }

  lemma BlockTransfers(b: Buddy, c: Buddy, x: nat)
    requires Inv(b) && Canonical(b) && Inv(c) && Canonical(c)
    requires b.lo == c.lo && b.hi == c.hi && UsedMap(b) == UsedMap(c)
    requires x in b.blocks
    ensures x in c.blocks && c.blocks[x] == b.blocks[x]
  {
    if b.blocks[x].used {
      assert x in UsedMap(b);
      assert UsedMap(b)[x] == UsedMap(c)[x];
    } else {
      RegionTransfers(b, c, x);
      var y := FreeRegionInBlock(c, x, b.blocks[x].order);
      RegionTransfers(c, b, y);
      var z := FreeRegionInBlock(b, y, c.blocks[y].order);
      BackAndForth(b, x, y, z, c.blocks[y].order);
    }
  }

  lemma BackAndForth(b: Buddy, x: nat, y: nat, z: nat, k: nat)
    requires Inv(b) && x in b.blocks && Aligned(y, k)
    requires b.blocks[x].order <= k && y <= x < y + Pow2(k) && Holds(b, z, y, k)
    ensures x == y && b.blocks[x].order == k
  {
    var j := b.blocks[z].order;
    AlignedNest(z, j, y, k, y);
    assert Covers(b, z, x) && Covers(b, x, x);
    assert z == x;
    Pow2Order(k, j);
  }

  /** Allocating and freeing the block again restores the block structure exactly. */
  lemma AllocFreeRoundTrip(b: Buddy, k: nat)
    requires Inv(b) && Canonical(b) && b.lo <= k && Alloc(b, k).1.Some?
    ensures var (r, x) := Alloc(b, k);
            IsUsed(r, x.value) && MergeUp(r, x.value).blocks == b.blocks
  {
    var (r, x) := Alloc(b, k);
    AllocUsed(b, k);
    assert x.value in UsedMap(r);
    MergeUpUsed(r, x.value);
    hide Inv, UsedMap, Canonical;
    PutRemove(UsedMap(b), x.value, k);
    StructureDetermined(MergeUp(r, x.value), b);
  }

  // ----- Accounting -----

  function Sizes(u: map<nat, nat>): (m: map<nat, nat>) {
    map x | x in u :: Pow2(u[x])
  }

  lemma SizesPut(u: map<nat, nat>, x: nat, k: nat)
    ensures Sizes(u[x := k]) == Sizes(u)[x := Pow2(k)]
  {
  }

  /** The size of each used block. */
  ghost function UsedSizes(b: Buddy): (m: map<nat, nat>) {
    Sizes(UsedMap(b))
  }

  ghost function UsedBytes(b: Buddy): (s: nat) {
    SizeBelow(UsedSizes(b), Pow2(b.hi))
  }

  lemma Inside(b: Buddy, x: nat)
    requires Inv(b) && x in b.blocks
    ensures x < Pow2(b.hi)
  {
    hide Total, Disjoint, Aligned;
  }

  lemma AllocBytes(b: Buddy, k: nat)
    requires Inv(b) && b.lo <= k
    ensures var (r, x) := Alloc(b, k);
            UsedBytes(r) == UsedBytes(b) + if x.Some? then Pow2(k) else 0
  {
    AllocUsed(b, k);
    var (r, x) := Alloc(b, k);
    if x.Some? {
      assert x.value in UsedMap(r);
      Inside(r, x.value);
      hide Inv, UsedMap, SizeBelow;
      SizesPut(UsedMap(b), x.value, k);
      SizeBelowAdd(UsedSizes(b), x.value, Pow2(k), Pow2(b.hi));
    }
  }

  lemma FreeBytes(b: Buddy, x: nat)
    requires Inv(b) && IsUsed(b, x)
    ensures UsedBytes(b) == UsedBytes(MergeUp(b, x)) + Pow2(b.blocks[x].order)
  {
    MergeUpUsed(b, x);
    HeldFacts(b, x);
    Inside(b, x);
    hide Inv, UsedMap, SizeBelow;
    var k := b.blocks[x].order;
    SizesPut(UsedMap(b) - {x}, x, k);
    SizeBelowAdd(Sizes(UsedMap(b) - {x}), x, Pow2(k), Pow2(b.hi));
    PutSame(UsedMap(b), x);
  }
}
