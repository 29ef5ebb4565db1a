/** The free stacks of the Rust buddy allocator. A stack may hold stale entries; what counts is the topmost occurrence
    of each truly free block. */
module LazyStacks {
  import opened Powers
  import opened Seqs
  import opened BuddySpec
  import opened BuddyTags

  ghost function FreeSet(b: Buddy, o: nat): (f: set<nat>) {
    set x | x in b.blocks && b.blocks[x] == Block(o, false)
  }

  /** Topmost occurrences of the members of f, from the top of the stack down. */
  ghost function Top(stack: seq<nat>, f: set<nat>): (r: seq<nat>) {
    if stack == [] then []
    else
      var last, rest := stack[|stack| - 1], stack[..|stack| - 1];
      if last in f then [last] + Top(rest, f - {last}) else Top(rest, f)
  }

  lemma TopPush(stack: seq<nat>, f: set<nat>, x: nat)
    requires x !in f
    ensures Top(stack + [x], f + {x}) == [x] + Top(stack, f)
  {
    assert (stack + [x])[..|stack|] == stack;
    assert f + {x} - {x} == f;
  }

  /** Marking a block busy has on the filtered stack the effect that unlinking it has on the exact list. */
  lemma {:induction false} TopRemove(stack: seq<nat>, f: set<nat>, y: nat)
    ensures Top(stack, f - {y}) == Remove<nat>(Top(stack, f), y)
  {
    if stack != [] {
      var last, rest := stack[|stack| - 1], stack[..|stack| - 1];
      if last == y {
        if last in f {
          assert Top(stack, f) == [y] + Top(rest, f - {y});
        } else {
          TopRemove(rest, f, y);
        }
      } else if last in f {
        TopRemove(rest, f - {last}, y);
        assert f - {y} - {last} == f - {last} - {y};
        assert Top(stack, f) == [last] + Top(rest, f - {last});
      } else {
        TopRemove(rest, f, y);
      }
    }
  }

  ghost predicate StacksAgree(b: Buddy, stacks: seq<seq<nat>>) {
    |stacks| == |b.lists| && forall o :: 0 <= o < |stacks| ==> b.lists[o] == Top(stacks[o], FreeSet(b, o))
  }

  /** An offset that may index the tag map. */
  predicate InHeap(b: Buddy, x: nat) {
    b.lo <= b.hi && Aligned(x, b.lo) && x < Pow2(b.hi) && Slot(x, b.lo) < Pow2(b.hi - b.lo)
  }

  ghost predicate EntriesOk(b: Buddy, stacks: seq<seq<nat>>) {
    forall o, i :: 0 <= o < |stacks| && 0 <= i < |stacks[o]| ==> InHeap(b, stacks[o][i])
  }

  /** Only the start of a live free block, or of a held one, carries a free tag. */
  ghost predicate NoGhosts(b: Buddy, tags: seq<nat>, held: set<nat>) {
    forall x: nat, o: nat :: InHeap(b, x) && Slot(x, b.lo) < |tags| && TagFreeAt(tags[Slot(x, b.lo)], o) ==>
      IsFree(b, x, o) || x in held
  }

  lemma LiveInHeap(b: Buddy, x: nat)
    requires Shaped(b) && x in b.blocks
    ensures InHeap(b, x)
  {
    SlotsInRange(b);
    AlignedWeaken(x, b.lo, b.blocks[x].order);
  }

  // ----- Free sets along the primitives -----

  lemma FreeSetPop(b: Buddy, o: nat)
    requires Inv(b) && o <= b.hi && b.lists[o] != []
    ensures var x := b.lists[o][0];
            && x in FreeSet(b, o) && FreeSet(Pop(b, o), o) == FreeSet(b, o) - {x}
            && forall k :: k != o ==> FreeSet(Pop(b, o), k) == FreeSet(b, k)
  {
    hide Total, Disjoint, Pow2, Aligned;
    assert b.lists[o][0] in b.lists[o];
    assert IsFree(b, b.lists[o][0], o);
  }

  lemma FreeSetSplit(b: Buddy, x: nat)
    requires IsUsed(b, x) && 0 < b.blocks[x].order <= |b.lists| && x + Pow2(b.blocks[x].order - 1) !in b.blocks
    ensures var o := b.blocks[x].order - 1;
            && x + Pow2(o) !in FreeSet(b, o)
            && FreeSet(Split(b, x), o) == FreeSet(b, o) + {x + Pow2(o)}
            && forall k :: k != o ==> FreeSet(Split(b, x), k) == FreeSet(b, k)
  {
    hide Pow2;
  }

  lemma FreeSetMerge(b: Buddy, x: nat)
    requires IsUsed(b, x) && b.blocks[x].order < |b.lists| && CanMerge(b, x) && Aligned(x, b.blocks[x].order)
    ensures var o := b.blocks[x].order;
            && FreeSet(Merge(b, x), o) == FreeSet(b, o) - {FlipBit(x, o)}
            && forall k :: k != o ==> FreeSet(Merge(b, x), k) == FreeSet(b, k)
  {
    FlipHalves(x, b.blocks[x].order);
    hide Pow2, Aligned, FlipBit, ClearBit;
  }

  lemma FreeSetRelease(b: Buddy, x: nat)
    requires IsUsed(b, x) && b.blocks[x].order < |b.lists|
    ensures var o := b.blocks[x].order;
            && x !in FreeSet(b, o)
            && FreeSet(Release(b, x), o) == FreeSet(b, o) + {x}
            && forall k :: k != o ==> FreeSet(Release(b, x), k) == FreeSet(b, k)
  {
  }

  // ----- The whole representation along the primitives -----

  /** Stacks and tags describe b, except that the blocks in `held` belong to the running
      operation; those in `loose` may still carry a free tag. */
  ghost predicate Lazily(b: Buddy, stacks: seq<seq<nat>>, tags: seq<nat>, held: set<nat>, loose: set<nat>) {
    TagsAgree(b, tags, held) && StacksAgree(b, stacks) && EntriesOk(b, stacks) && NoGhosts(b, tags, loose)
  }

  lemma SlotElsewhere(b: Buddy, x: nat, y: nat)
    requires InHeap(b, x) && InHeap(b, y) && x != y
    ensures Slot(x, b.lo) != Slot(y, b.lo)
  {
    if Slot(x, b.lo) == Slot(y, b.lo) {
      ShrInjective(x, y, b.lo);
    }
  }

  /** Writing the tag of one offset leaves the others readable as before. */
  lemma TagWrite(b: Buddy, tags: seq<nat>, y: nat, e: nat)
    requires InHeap(b, y) && |tags| == Pow2(b.hi - b.lo)
    ensures var t := tags[Slot(y, b.lo) := e];
            && t[Slot(y, b.lo)] == e
            && forall x :: InHeap(b, x) && x != y ==> t[Slot(x, b.lo)] == tags[Slot(x, b.lo)]
  {
    forall x | InHeap(b, x) && x != y ensures Slot(x, b.lo) != Slot(y, b.lo) {
      SlotElsewhere(b, x, y);
    }
  }

  /** On the stacks, an entry passes the tag check exactly when it is a truly free block of that order. */
  lemma TagCheckExact(b: Buddy, stacks: seq<seq<nat>>, tags: seq<nat>, x: nat, o: nat)
    requires Shaped(b) && Lazily(b, stacks, tags, {}, {}) && InHeap(b, x)
    ensures TagFreeAt(tags[Slot(x, b.lo)], o) <==> x in FreeSet(b, o)
  {
    if IsFree(b, x, o) {
      EncodeRoundTrip(b.blocks[x]);
    }
  }

  lemma PushEntries(b: Buddy, stacks: seq<seq<nat>>, o: nat, y: nat)
    requires b.lo <= b.hi && EntriesOk(b, stacks) && o < |stacks| && InHeap(b, y)
    ensures EntriesOk(b, stacks[o := stacks[o] + [y]])
  {
    hide InHeap;
  }

  lemma PushStacks(b: Buddy, r: Buddy, stacks: seq<seq<nat>>, o: nat, y: nat)
    requires StacksAgree(b, stacks) && o < |stacks| && r.lists == b.lists[o := [y] + b.lists[o]]
    requires y !in FreeSet(b, o) && FreeSet(r, o) == FreeSet(b, o) + {y}
    requires forall k :: k != o ==> FreeSet(r, k) == FreeSet(b, k)
    ensures StacksAgree(r, stacks[o := stacks[o] + [y]])
  {
    TopPush(stacks[o], FreeSet(b, o), y);
    hide Top, FreeSet;
  }

  lemma PushGhosts(b: Buddy, r: Buddy, tags: seq<nat>, y: nat, o: nat, loose: set<nat>)
    requires InHeap(b, y) && |tags| == Pow2(b.hi - b.lo) && r.lo == b.lo && r.hi == b.hi && o < 64
    requires NoGhosts(b, tags, loose) && IsFree(r, y, o)
    requires forall x, k :: IsFree(b, x, k) ==> IsFree(r, x, k)
    ensures NoGhosts(r, tags[Slot(y, b.lo) := Encode(Block(o, false))], loose)
  {
    TagWrite(b, tags, y, Encode(Block(o, false)));
    EncodeRoundTrip(Block(o, false));
    hide Slot, Encode, Pow2, TagFreeAt, Aligned, IsFree;
    assert forall x :: InHeap(r, x) == InHeap(b, x);
    hide InHeap;
  }

  lemma SplitFacts(b: Buddy, x: nat)
    requires Inv(b) && IsUsed(b, x) && b.blocks[x].order > b.lo
    ensures var r, o := Split(b, x), b.blocks[x].order - 1;
            var y := x + Pow2(o);
            && Shaped(r) && r.lo == b.lo && r.hi == b.hi && |b.lists| == b.hi + 1 && o < b.hi
            && y in r.blocks && y !in b.blocks && IsFree(r, y, o) && r.blocks[y] == Block(o, false)
            && (forall z, k :: IsFree(b, z, k) ==> IsFree(r, z, k))
            && r.lists == b.lists[o := [y] + b.lists[o]]
  {
    SplitInv(b, x);
    BlockOrders(b);
    hide Total, ListsExact, Aligned;
  }

  lemma {:induction false} SplitLazily(b: Buddy, stacks: seq<seq<nat>>, tags: seq<nat>, x: nat)
    requires Inv(b) && IsUsed(b, x) && b.blocks[x].order > b.lo && Lazily(b, stacks, tags, {x}, {x})
    ensures var o := b.blocks[x].order - 1;
            var y := x + Pow2(o);
            && o < |stacks| && Slot(y, b.lo) < |tags|
            && Lazily(Split(b, x), stacks[o := stacks[o] + [y]],
                      tags[Slot(y, b.lo) := Encode(Block(o, false))], {x}, {x})
  {
    var r, o := Split(b, x), b.blocks[x].order - 1;
    var y := x + Pow2(o);
    SplitFacts(b, x);
    SplitTags(b, tags, x);
    LiveInHeap(r, y);
    SplitLazyTags(b, r, tags, tags[Slot(y, b.lo) := Encode(Block(o, false))], x, y, o);
    SplitLazyStacks(b, stacks, x);
    hide Inv, Shaped, Pow2, Slot, Encode, IsFree, Split, NoGhosts, EntriesOk, TagsAgree, StacksAgree;
  }

  lemma SplitLazyTags(b: Buddy, r: Buddy, tags: seq<nat>, t: seq<nat>, x: nat, y: nat, o: nat)
    requires r.lo == b.lo && r.hi == b.hi && Shaped(r) && TagsAgree(r, tags, {x, y}) && NoGhosts(b, tags, {x})
    requires y in r.blocks && r.blocks[y] == Block(o, false) && o < 64 && x != y
    requires forall z, k :: IsFree(b, z, k) ==> IsFree(r, z, k)
    requires Slot(y, b.lo) < |tags| && t == tags[Slot(y, b.lo) := Encode(Block(o, false))]
    ensures TagsAgree(r, t, {x}) && NoGhosts(r, t, {x})
  {
    assert IsFree(r, y, o) && |tags| == Pow2(b.hi - b.lo);
    hide Pow2, Slot, Encode, IsFree;
    LiveInHeap(r, y);
    hide TagsAgree, NoGhosts, Shaped;
    PutTag(r, tags, {x, y}, y);
    assert {x, y} - {y} == {x};
    PushGhosts(b, r, tags, y, o, {x});
  }

  lemma SplitLazyStacks(b: Buddy, stacks: seq<seq<nat>>, x: nat)
    requires Inv(b) && IsUsed(b, x) && b.blocks[x].order > b.lo
    requires StacksAgree(b, stacks) && b.lo <= b.hi && EntriesOk(b, stacks)
    ensures var r, o := Split(b, x), b.blocks[x].order - 1;
            && o < |stacks|
            && StacksAgree(r, stacks[o := stacks[o] + [x + Pow2(o)]])
            && EntriesOk(r, stacks[o := stacks[o] + [x + Pow2(o)]])
  {
    var r, o := Split(b, x), b.blocks[x].order - 1;
    var y := x + Pow2(o);
    SplitFacts(b, x);
    hide Inv, Shaped, Pow2, Slot, IsFree, Split;
    LiveInHeap(r, y);
    FreeSetSplit(b, x);
    PushStacks(b, r, stacks, o, y);
    SameEntries(b, r, stacks);
    PushEntries(r, stacks, o, y);
    hide EntriesOk, StacksAgree;
  }

  lemma BlockOrders(b: Buddy)
    requires Inv(b)
    ensures b.lo <= b.hi && |b.lists| == b.hi + 1 && forall x :: x in b.blocks ==> b.lo <= b.blocks[x].order <= b.hi
  {
    hide Total, Disjoint, Pow2, Aligned, ListsExact;
  }

  lemma SameEntries(b: Buddy, r: Buddy, stacks: seq<seq<nat>>)
    requires b.lo == r.lo && b.hi == r.hi && b.lo <= b.hi && EntriesOk(b, stacks)
    ensures EntriesOk(r, stacks)
  {
    hide Aligned, Slot, Pow2;
  }

  lemma {:induction false} ReleaseLazily(b: Buddy, stacks: seq<seq<nat>>, tags: seq<nat>, x: nat)
    requires Inv(b) && IsUsed(b, x) && Lazily(b, stacks, tags, {x}, {})
    ensures var o := b.blocks[x].order;
            && o < |stacks| && Slot(x, b.lo) < |tags|
            && Lazily(Release(b, x), stacks[o := stacks[o] + [x]],
                      tags[Slot(x, b.lo) := Encode(Block(o, false))], {}, {})
  {
    hide Inv, Shaped, Pow2, Slot, Encode, NoGhosts, EntriesOk, TagsAgree, StacksAgree, IsFree;
    BlockOrders(b);
    var r, o := Release(b, x), b.blocks[x].order;
    ReleaseFacts(b, stacks, tags, x);
    ReleaseInv(b, x);
    InvShaped(r);
    LiveInHeap(r, x);
    PutTag(r, tags, {x}, x);
    assert {x} - {x} == {};
    FreeSetRelease(b, x);
    PushStacks(b, r, stacks, o, x);
    SameEntries(b, r, stacks);
    PushEntries(r, stacks, o, x);
    PushGhosts(b, r, tags, x, o, {});
  }

  lemma ReleaseFacts(b: Buddy, stacks: seq<seq<nat>>, tags: seq<nat>, x: nat)
    requires IsUsed(b, x) && b.blocks[x].order < |b.lists| && TagsAgree(b, tags, {x}) && StacksAgree(b, stacks)
    ensures var r := Release(b, x);
            && TagsAgree(r, tags, {x}) && |tags| == Pow2(b.hi - b.lo) && |stacks| == |b.lists|
            && IsFree(r, x, b.blocks[x].order) && forall z, k :: IsFree(b, z, k) ==> IsFree(r, z, k)
  {
    hide Pow2, Slot, Encode;
  }

  lemma {:induction false} MergeLazily(b: Buddy, stacks: seq<seq<nat>>, tags: seq<nat>, x: nat)
    requires Inv(b) && IsUsed(b, x) && CanMerge(b, x) && Lazily(b, stacks, tags, {x}, {})
    ensures var o := b.blocks[x].order;
            var y := FlipBit(x, o);
            && Slot(y, b.lo) < |tags|
            && Lazily(Merge(b, x), stacks, tags[Slot(y, b.lo) := 0], {ClearBit(x, o)}, {})
  {
    ClearedTags(b, tags, x);
    MergeStacks(b, stacks, x);
    MergeGhosts(b, tags, x);
    BlockOrders(b);
    hide Inv, NoGhosts, EntriesOk, TagsAgree, StacksAgree, CanMerge, FlipBit, ClearBit;
    SameEntries(b, Merge(b, x), stacks);
  }

  lemma MergeStacks(b: Buddy, stacks: seq<seq<nat>>, x: nat)
    requires Inv(b) && IsUsed(b, x) && CanMerge(b, x) && StacksAgree(b, stacks)
    ensures StacksAgree(Merge(b, x), stacks)
  {
    var r, o := Merge(b, x), b.blocks[x].order;
    FreeSetMerge(b, x);
    TopRemove(stacks[o], FreeSet(b, o), FlipBit(x, o));
    BlockOrders(b);
    hide Inv, CanMerge, FlipBit, ClearBit, FreeSet, Top, Pow2;
  }

  /** Merging leaves no free tag behind: the buddy's is zeroed, and the held block's was never free. */
  lemma MergeGhosts(b: Buddy, tags: seq<nat>, x: nat)
    requires Inv(b) && IsUsed(b, x) && CanMerge(b, x) && |tags| == Pow2(b.hi - b.lo) && NoGhosts(b, tags, {})
    ensures var y := FlipBit(x, b.blocks[x].order);
            Slot(y, b.lo) < |tags| && NoGhosts(Merge(b, x), tags[Slot(y, b.lo) := 0], {})
  {
    var r, o := Merge(b, x), b.blocks[x].order;
    var y, base := FlipBit(x, o), ClearBit(x, o);
    FlipHalves(x, o);
    LiveInHeap(b, y);
    TagWrite(b, tags, y, 0);
    assert forall z :: InHeap(r, z) == InHeap(b, z);
    assert forall k :: !TagFreeAt(0, k);
    hide Inv, Slot, Pow2, Aligned, FlipBit, ClearBit, InHeap, TagFreeAt;
    var t := tags[Slot(y, b.lo) := 0];
    forall z: nat, k: nat | InHeap(r, z) && TagFreeAt(t[Slot(z, b.lo)], k) ensures IsFree(r, z, k) {
      assert z != y;
      assert IsFree(b, z, k);
      assert z != x && z != base;
    }
  }

  lemma ClearedTags(b: Buddy, tags: seq<nat>, x: nat)
    requires Inv(b) && IsUsed(b, x) && CanMerge(b, x) && TagsAgree(b, tags, {x})
    ensures var o := b.blocks[x].order;
            var y := FlipBit(x, o);
            Slot(y, b.lo) < |tags| && TagsAgree(Merge(b, x), tags[Slot(y, b.lo) := 0], {ClearBit(x, o)})
  {
    var o := b.blocks[x].order;
    var y := FlipBit(x, o);
    FlipHalves(x, o);
    LiveInHeap(b, y);
    forall z | z in b.blocks && z != y ensures Slot(z, b.lo) != Slot(y, b.lo) {
      if Slot(z, b.lo) == Slot(y, b.lo) {
        SlotsDistinct(b, z, y);
      }
    }
    hide Inv, Slot, Encode, Pow2, FlipBit, ClearBit, Aligned;
  }

  lemma {:induction false} MarkLazily(b: Buddy, stacks: seq<seq<nat>>, tags: seq<nat>, x: nat)
    requires Inv(b) && IsUsed(b, x) && Lazily(b, stacks, tags, {x}, {x})
    ensures Slot(x, b.lo) < |tags|
    ensures Lazily(b, stacks, tags[Slot(x, b.lo) := Encode(b.blocks[x])], {}, {})
  {
    LiveInHeap(b, x);
    PutTag(b, tags, {x}, x);
    assert {x} - {x} == {};
    TagWrite(b, tags, x, Encode(b.blocks[x]));
    BlockOrders(b);
    EncodeRoundTrip(b.blocks[x]);
    hide Inv, TagsAgree, InHeap, Slot, Encode, Pow2, StacksAgree, EntriesOk;
  }

  lemma {:induction false} PopLazily(b: Buddy, stacks: seq<seq<nat>>, tags: seq<nat>, o: nat, rest: seq<nat>)
    requires Inv(b) && Lazily(b, stacks, tags, {}, {}) && o <= b.hi && b.lists[o] != []
    requires stacks[o] == rest + [b.lists[o][0]]
    ensures Lazily(Pop(b, o), stacks[o := rest], tags, {b.lists[o][0]}, {b.lists[o][0]})
  {
    PopTags(b, tags, o);
    PopEntries(b, stacks, o, rest, b.lists[o][0]);
    PopStacks(b, stacks, o, rest);
    hide Inv, NoGhosts, EntriesOk, TagsAgree, StacksAgree;
    SameEntries(b, Pop(b, o), stacks[o := rest]);
  }

  lemma PopStacks(b: Buddy, stacks: seq<seq<nat>>, o: nat, rest: seq<nat>)
    requires Inv(b) && StacksAgree(b, stacks) && o <= b.hi && b.lists[o] != []
    requires stacks[o] == rest + [b.lists[o][0]]
    ensures StacksAgree(Pop(b, o), stacks[o := rest])
  {
    var x, r := b.lists[o][0], Pop(b, o);
    FreeSetPop(b, o);
    assert stacks[o][..|stacks[o]| - 1] == rest;
    assert b.lists[o] == [x] + Top(rest, FreeSet(b, o) - {x});
    hide Inv, Top, FreeSet;
    assert r.lists[o] == Top(rest, FreeSet(r, o));
  }

  lemma PopTags(b: Buddy, tags: seq<nat>, o: nat)
    requires Inv(b) && TagsAgree(b, tags, {}) && NoGhosts(b, tags, {}) && o <= b.hi && b.lists[o] != []
    ensures TagsAgree(Pop(b, o), tags, {b.lists[o][0]}) && NoGhosts(Pop(b, o), tags, {b.lists[o][0]})
  {
    hide Total, Disjoint, Pow2, Aligned, Slot, Encode;
    HeadIn(b.lists[o]);
    assert IsFree(b, b.lists[o][0], o);
  }

  lemma PopEntries(b: Buddy, stacks: seq<seq<nat>>, o: nat, rest: seq<nat>, x: nat)
    requires b.lo <= b.hi && EntriesOk(b, stacks) && o < |stacks| && stacks[o] == rest + [x]
    ensures EntriesOk(b, stacks[o := rest])
  {
    hide InHeap;
    var s := stacks[o := rest];
    forall k, i | 0 <= k < |s| && 0 <= i < |s[k]| ensures InHeap(b, s[k][i]) {
      assert s[k][i] == stacks[k][i];
    }
  }

  /** Dropping a stale top entry changes nothing. */
  lemma {:induction false} DropLazily(b: Buddy, stacks: seq<seq<nat>>, tags: seq<nat>, o: nat, rest: seq<nat>, x: nat)
    requires Shaped(b) && Lazily(b, stacks, tags, {}, {}) && o <= b.hi
    requires stacks[o] == rest + [x] && x !in FreeSet(b, o)
    ensures Lazily(b, stacks[o := rest], tags, {}, {})
  {
    assert stacks[o][..|stacks[o]| - 1] == rest;
    assert Top(stacks[o], FreeSet(b, o)) == Top(rest, FreeSet(b, o));
    PopEntries(b, stacks, o, rest, x);
    hide TagsAgree, InHeap, Slot, Encode, Pow2, Top, FreeSet, NoGhosts, EntriesOk;
  }
}
