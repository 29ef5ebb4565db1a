/** The buddy heap as a value: the live blocks, and for each order its free blocks in LIFO order.
    The block an operation currently holds counts as used, so every intermediate
    state of a split or merge loop is again a well-formed heap. */
module BuddySpec {
  import opened Powers
  import opened Seqs

  datatype Block = Block(order: nat, used: bool)

  datatype Buddy = Buddy(lo: nat, hi: nat, blocks: map<nat, Block>, lists: seq<seq<nat>>)

  // ----- Well-formedness -----

  predicate IsFree(b: Buddy, x: nat, o: nat) {
    x in b.blocks && b.blocks[x] == Block(o, false)
  }

  predicate IsUsed(b: Buddy, x: nat) {
    x in b.blocks && b.blocks[x].used
  }

  /** Block x holds byte p. */
  ghost predicate Covers(b: Buddy, x: nat, p: nat) {
    x in b.blocks && x <= p < x + Pow2(b.blocks[x].order)
  }

  ghost predicate Covered(b: Buddy, p: nat) {
    exists x: nat :: Covers(b, x, p)
  }

  ghost predicate Shaped(b: Buddy) {
    && b.lo <= b.hi
    && |b.lists| == b.hi + 1
    && forall x :: x in b.blocks ==>
         && b.lo <= b.blocks[x].order <= b.hi
         && Aligned(x, b.blocks[x].order)
         && x + Pow2(b.blocks[x].order) <= Pow2(b.hi)
  }

  ghost predicate Disjoint(b: Buddy) {
    forall x, y :: x in b.blocks && y in b.blocks && x < y ==> x + Pow2(b.blocks[x].order) <= y
  }

  ghost predicate Total(b: Buddy) {
    forall p :: 0 <= p < Pow2(b.hi) ==> Covered(b, p)
  }

  ghost predicate ListsExact(b: Buddy) {
    forall o :: 0 <= o < |b.lists| ==>
      && NoDup(b.lists[o])
      && forall x :: x in b.lists[o] <==> IsFree(b, x, o)
  }

  /** Aligned power-of-two blocks tile the heap, and each list holds exactly the free blocks of its order. */
  ghost predicate Inv(b: Buddy) {
    Shaped(b) && Disjoint(b) && Total(b) && ListsExact(b)
  }

  predicate FreeBuddies(b: Buddy, x: nat, o: nat) {
    IsFree(b, x, o) && IsFree(b, FlipBit(x, o), o)
  }

  /** No two free buddies of equal order coexist. */
  ghost predicate Canonical(b: Buddy) {
    forall x: nat, o: nat :: o < b.hi ==> !FreeBuddies(b, x, o)
  }

  function Initial(lo: nat, hi: nat): (b: Buddy)
    requires lo <= hi
  {
    Buddy(lo, hi, map[0 := Block(hi, false)], seq(hi + 1, i => if i == hi then [0] else []))
  }

  // ----- Operations -----

  /** Take the head of list o. */
  function Pop(b: Buddy, o: nat): (r: Buddy)
    requires o < |b.lists| && b.lists[o] != []
  {
    b.(blocks := b.blocks[b.lists[o][0] := Block(o, true)], lists := b.lists[o := b.lists[o][1..]])
  }

  /** Halve the held block x; the right half goes to the front of its list. */
  function Split(b: Buddy, x: nat): (r: Buddy)
    requires x in b.blocks && 0 < b.blocks[x].order <= |b.lists|
  {
    var o := b.blocks[x].order - 1;
    var y := x + Pow2(o);
    b.(blocks := b.blocks[x := Block(o, true)][y := Block(o, false)], lists := b.lists[o := [y] + b.lists[o]])
  }

  predicate CanMerge(b: Buddy, x: nat)
    requires x in b.blocks
  {
    var o := b.blocks[x].order;
    o < b.hi && IsFree(b, FlipBit(x, o), o)
  }

  /** Join the held block x with its free buddy, which leaves its list. */
  function Merge(b: Buddy, x: nat): (r: Buddy)
    requires x in b.blocks && b.blocks[x].order < |b.lists|
  {
    var o := b.blocks[x].order;
    var y := FlipBit(x, o);
    b.(blocks := (b.blocks - {x, y})[ClearBit(x, o) := Block(o + 1, true)],
       lists := b.lists[o := Remove(b.lists[o], y)])
  }

  /** Put the held block x at the front of the list of its order. */
  function Release(b: Buddy, x: nat): (r: Buddy)
    requires x in b.blocks && b.blocks[x].order < |b.lists|
  {
    var o := b.blocks[x].order;
    b.(blocks := b.blocks[x := Block(o, false)], lists := b.lists[o := [x] + b.lists[o]])
  }

  /** The smallest order from o upward with a free block, or hi + 1. */
  function FirstOrder(b: Buddy, o: nat): (r: nat)
    requires |b.lists| == b.hi + 1
    ensures r >= o
    ensures r <= b.hi ==> b.lists[r] != []
    ensures forall i :: o <= i < r && i <= b.hi ==> b.lists[i] == []
    decreases b.hi + 1 - o
  {
    if o > b.hi then o else if b.lists[o] != [] then o else FirstOrder(b, o + 1)
  }

  /** Split the held block x down to order k. */
  ghost function SplitTo(b: Buddy, x: nat, k: nat): (r: Buddy)
    requires Inv(b) && IsUsed(b, x) && b.lo <= k <= b.blocks[x].order
    ensures Inv(r) && r.lo == b.lo && r.hi == b.hi
    ensures x in r.blocks && r.blocks[x] == Block(k, true)
    decreases b.blocks[x].order
  {
    if b.blocks[x].order == k then b
    else
      SplitInv(b, x);
      SplitTo(Split(b, x), x, k)
  }

  /** Merge the held block x with free buddies as far as possible, then release it. */
  ghost function MergeUp(b: Buddy, x: nat): (r: Buddy)
    requires Inv(b) && IsUsed(b, x)
    ensures Inv(r) && r.lo == b.lo && r.hi == b.hi
    decreases b.hi - b.blocks[x].order
  {
    if CanMerge(b, x) then
      MergeInv(b, x);
      MergeUp(Merge(b, x), ClearBit(x, b.blocks[x].order))
    else
      ReleaseInv(b, x);
      Release(b, x)
  }

  ghost function Alloc(b: Buddy, k: nat): (r: (Buddy, Option<nat>))
    requires Inv(b) && b.lo <= k
    ensures Inv(r.0) && r.0.lo == b.lo && r.0.hi == b.hi
  {
    var o := FirstOrder(b, k);
    if o > b.hi then (b, None)
    else
      PopInv(b, o);
      (SplitTo(Pop(b, o), b.lists[o][0], k), Some(b.lists[o][0]))
  }

  // ----- Each primitive keeps the invariant -----

  lemma InitialInv(lo: nat, hi: nat)
    requires lo <= hi
    ensures Inv(Initial(lo, hi)) && Canonical(Initial(lo, hi))
  {
    var b := Initial(lo, hi);
    ZeroAligned(hi);
    forall p | 0 <= p < Pow2(hi) ensures Covered(b, p) {
      assert Covers(b, 0, p);
    }
  }

  lemma PopInv(b: Buddy, o: nat)
    requires Inv(b) && o <= b.hi && b.lists[o] != []
    ensures Inv(Pop(b, o)) && IsUsed(Pop(b, o), b.lists[o][0])
  {
    hide Pow2, Aligned, FlipBit, ClearBit, Remove;
    var r, x := Pop(b, o), b.lists[o][0];
    assert x in b.lists[o];
    assert IsFree(b, x, o);
    forall p | 0 <= p < Pow2(r.hi) ensures Covered(r, p) {
      assert Covered(b, p);
      var z: nat :| Covers(b, z, p);
      assert Covers(r, z, p);
    }
    assert forall y :: y in b.lists[o] <==> y == x || y in r.lists[o];
  }

  lemma SplitInv(b: Buddy, x: nat)
    requires Inv(b) && IsUsed(b, x) && b.blocks[x].order > b.lo
    ensures Inv(Split(b, x))
  {
    SplitShaped(b, x);
    SplitTotal(b, x);
    SplitDisjoint(b, x);
    SplitLists(b, x);
  }

  lemma SplitShaped(b: Buddy, x: nat)
    requires Inv(b) && IsUsed(b, x) && b.blocks[x].order > b.lo
    ensures Shaped(Split(b, x))
  {
    hide Pow2, Aligned, Total, Disjoint, ListsExact;
    var o := b.blocks[x].order - 1;
    HalvesAligned(x, o);
    Pow2Step(o);
  }

  lemma HalvesAligned(x: nat, o: nat)
    requires Aligned(x, o + 1)
    ensures Aligned(x, o) && Aligned(x + Pow2(o), o)
  {
    AlignedWeaken(x, o, o + 1);
    Pow2Aligned(o, o);
    AlignedAdd(x, Pow2(o), o);
  }

  lemma SplitLists(b: Buddy, x: nat)
    requires Inv(b) && IsUsed(b, x) && b.blocks[x].order > b.lo
    ensures ListsExact(Split(b, x))
  {
    var o := b.blocks[x].order - 1;
    var y := x + Pow2(o);
    assert y !in b.blocks;
    assert y !in b.lists[o];
    NoDupCons(y, b.lists[o]);
  }

  lemma SplitTotal(b: Buddy, x: nat)
    requires Inv(b) && IsUsed(b, x) && b.blocks[x].order > b.lo
    ensures Total(Split(b, x))
  {
    var r, o := Split(b, x), b.blocks[x].order - 1;
    var y := x + Pow2(o);
    Pow2Step(o);
    hide Pow2, Aligned, Disjoint, ListsExact, Shaped;
    forall p | 0 <= p < Pow2(r.hi) ensures Covered(r, p) {
      assert Covered(b, p);
      var z: nat :| Covers(b, z, p);
      assert Covers(r, if z != x then z else if p < y then x else y, p);
    }
  }

  lemma SplitDisjoint(b: Buddy, x: nat)
    requires Inv(b) && IsUsed(b, x) && b.blocks[x].order > b.lo
    ensures Disjoint(Split(b, x))
  {
    var r, o := Split(b, x), b.blocks[x].order - 1;
    var y := x + Pow2(o);
    Pow2Step(o);
    hide Pow2, Aligned, Total, ListsExact, Shaped;
    forall u, v | u in r.blocks && v in r.blocks && u < v
      ensures u + Pow2(r.blocks[u].order) <= v
    {
      assert u == y || u in b.blocks;
      assert v == y || v in b.blocks;
    }
  }

  lemma ReleaseInv(b: Buddy, x: nat)
    requires Inv(b) && IsUsed(b, x)
    ensures Inv(Release(b, x))
  {
    hide Pow2, Aligned, FlipBit, ClearBit, Remove;
    var r, o := Release(b, x), b.blocks[x].order;
    forall p | 0 <= p < Pow2(r.hi) ensures Covered(r, p) {
      assert Covered(b, p);
      var z: nat :| Covers(b, z, p);
      assert Covers(r, z, p);
    }
    assert x !in b.lists[o];
    NoDupCons(x, b.lists[o]);
  }

  lemma MergeInv(b: Buddy, x: nat)
    requires Inv(b) && IsUsed(b, x) && CanMerge(b, x)
    ensures Inv(Merge(b, x)) && IsUsed(Merge(b, x), ClearBit(x, b.blocks[x].order))
    ensures Merge(b, x).blocks[ClearBit(x, b.blocks[x].order)].order == b.blocks[x].order + 1
  {
    MergeShaped(b, x);
    MergeDisjoint(b, x);
    MergeTotal(b, x);
    MergeLists(b, x);
  }

  lemma MergeShaped(b: Buddy, x: nat)
    requires Inv(b) && IsUsed(b, x) && CanMerge(b, x)
    ensures Shaped(Merge(b, x))
  {
    var o := b.blocks[x].order;
    FlipHalves(x, o);
    Pow2Step(o);
    hide Pow2, Aligned, FlipBit, ClearBit, Remove, Total, Disjoint, ListsExact;
  }

  lemma MergeLists(b: Buddy, x: nat)
    requires Inv(b) && IsUsed(b, x) && CanMerge(b, x)
    ensures ListsExact(Merge(b, x))
  {
    var o := b.blocks[x].order;
    FlipHalves(x, o);
    RemoveExact(b.lists[o], FlipBit(x, o));
    hide Pow2, Aligned, FlipBit, ClearBit, Remove;
  }

  lemma MergeDisjoint(b: Buddy, x: nat)
    requires Inv(b) && IsUsed(b, x) && CanMerge(b, x)
    ensures Disjoint(Merge(b, x))
  {
    hide Total, ListsExact, Pow2, FlipBit, ClearBit, Disjoint;
    var r, o := Merge(b, x), b.blocks[x].order;
    var base := ClearBit(x, o);
    FlipHalves(x, o);
    hide Aligned;
    assert r.blocks == (b.blocks - {base + Pow2(o)})[base := Block(o + 1, true)];
    JoinDisjoint(b, r, base, base + Pow2(o), o);
  }

  lemma JoinDisjoint(b: Buddy, r: Buddy, base: nat, y: nat, o: nat)
    requires Disjoint(b) && base in b.blocks && y in b.blocks && y == base + Pow2(o)
    requires b.blocks[base].order == o && b.blocks[y].order == o
    requires r.blocks == (b.blocks - {y})[base := Block(o + 1, true)]
    ensures Disjoint(r)
  {
    Pow2Step(o);
    hide Pow2;
    forall u, v | u in r.blocks && v in r.blocks && u < v
      ensures u + Pow2(r.blocks[u].order) <= v
    {
      assert u in b.blocks && v in b.blocks && v != y;
      if u == base {
        assert y < v;
      }
    }
  }

  lemma MergeTotal(b: Buddy, x: nat)
    requires Inv(b) && IsUsed(b, x) && CanMerge(b, x)
    ensures Total(Merge(b, x))
  {
    var r, o := Merge(b, x), b.blocks[x].order;
    var y, base := FlipBit(x, o), ClearBit(x, o);
    FlipHalves(x, o);
    Pow2Step(o);
    hide Pow2, Aligned, FlipBit, ClearBit, Remove, Disjoint, ListsExact, Shaped;
    forall p | 0 <= p < Pow2(r.hi) ensures Covered(r, p) {
      assert Covered(b, p);
      var z: nat :| Covers(b, z, p);
      if z == x || z == y {
        assert Covers(r, base, p);
      } else {
        assert Covers(r, z, p);
      }
    }
  }
}
