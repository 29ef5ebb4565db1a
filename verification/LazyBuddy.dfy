/** The Rust buddy allocator: free stacks cleaned lazily, a merged buddy only loses its tag. */
module LazyBuddy {
  import opened Powers
  import opened Platform
  import opened HeapWalk
  import opened Seqs
  import opened BuddySpec
  import opened BuddyTheorems
  import opened BuddyTags
  import opened LazyStacks
  import opened LazyBound

  class Heap {
    const lo: nat
    const hi: nat
    const mem: array<int>      // the word stored at each byte offset
    const tags: array<nat>     // order and state of the block starting at each slot
    var stacks: seq<seq<nat>>  // free offsets of each order, the top last
    var used: nat
    var peak: nat
    var allocCalls: nat
    var freeCalls: nat
    var failed: nat
    ghost var model: Buddy

    ghost predicate Shape() {
      5 <= lo <= hi < 64 && mem.Length == Pow2(hi) && tags.Length == Pow2(hi - lo) && tags as object != mem
    }

    ghost predicate Working(held: set<nat>, loose: set<nat>)
      reads this, mem, tags
    {
      && Shape() && Inv(model) && model.lo == lo && model.hi == hi
      && Lazily(model, stacks, tags[..], held, loose) && Lean(model, stacks)
      && OrdersStored(model, mem[..], held)
    }

    ghost predicate Valid()
      reads this, mem, tags
    {
      Working({}, {}) && Canonical(model) && used == UsedBytes(model) && used <= peak
    }

    constructor (lo: nat, hi: nat)
      requires 5 <= lo <= hi < 64
      ensures Valid() && model == Initial(lo, hi) && fresh(mem) && fresh(tags)
      ensures used == 0
    {
      this.lo, this.hi := lo, hi;
      mem := new int[Pow2(hi)];
      tags := new nat[Pow2(hi - lo)](_ => 0);
      stacks := seq(hi + 1, _ => []);
      used, peak, allocCalls, freeCalls, failed := 0, 0, 0, 0, 0;
      model := Initial(lo, hi);
      new;
      InitialFacts(lo, hi);
      InitialLean(lo, hi);
      ghost var busy := model.(blocks := map[0 := Block(hi, true)], lists := stacks);
      ghost var zeros := tags[..];
      InitialLazily(lo, hi, busy, zeros);
      stacks := stacks[hi := stacks[hi] + [0]];
      tags[Slot(0, lo)] := Encode(Block(hi, false));
      assert tags[..] == zeros[Slot(0, lo) := Encode(Block(hi, false))];
      assert stacks == model.lists;
      hide Inv, Canonical, UsedMap, SizeBelow, Lazily, Lean, OrdersStored, Pow2, Slot, Encode;
    }

    /** Whatever was allocated and freed before: no stack holds an entry twice, so the stack of order o holds at most as
        many as there are places for blocks of that order. */
    lemma StacksStaySmall(o: nat)
      requires Valid() && o <= hi
      ensures |stacks| == hi + 1 && NoDup(stacks[o]) && |stacks[o]| <= Pow2(hi - o)
    {
      hide Inv, Lazily, Canonical, UsedMap, SizeBelow, OrdersStored, Pow2;
      StackBound(model, stacks, o);
    }

    // ----- Steps of the loops -----

    method PushFree(x: nat, o: nat)
      requires Shape() && o < |stacks| && Slot(x, lo) < tags.Length
      modifies this`stacks, tags
      ensures stacks == old(stacks)[o := old(stacks)[o] + [x]]
      ensures tags[..] == old(tags[..])[Slot(x, lo) := Encode(Block(o, false))]
    {
      stacks := stacks[o := stacks[o] + [x]];
      tags[Slot(x, lo)] := Encode(Block(o, false));
    }

    /** Pops entries of order o until one passes the tag check; the survivor is the block that
        leads the exact list, and nothing survives exactly when that list is empty. */
    method PopFree(o: nat) returns (r: Option<nat>)
      requires Working({}, {}) && o <= hi
      modifies this`stacks, this`model
      ensures old(model).lists[o] == [] ==> r.None? && model == old(model) && Working({}, {}) && stacks[o] == []
      ensures |stacks| == |old(stacks)| == hi + 1 && forall k :: 0 <= k <= hi && k != o ==> stacks[k] == old(stacks)[k]
      ensures old(model).lists[o] != [] ==>
                && r == Some(old(model).lists[o][0]) && model == Pop(old(model), o)
                && Working({r.value}, {r.value}) && r.value in model.blocks && model.blocks[r.value] == Block(o, true)
    {
      ghost var b := model;
      while stacks[o] != []
        invariant model == b && Working({}, {})
        invariant |stacks| == |old(stacks)| && forall k :: 0 <= k < |stacks| && k != o ==> stacks[k] == old(stacks)[k]
        decreases |stacks[o]|
      {
        var x, rest := stacks[o][|stacks[o]| - 1], stacks[o][..|stacks[o]| - 1];
        ghost var s := stacks;
        EntryFacts(b, stacks, tags[..], o);
        TopFacts(b, stacks, tags[..], o, rest, x);
        assert tags[..][Slot(x, lo)] == tags[Slot(x, lo)];
        DropLean(b, stacks, o, rest, x);
        hide Inv, Lazily, Lean, OrdersStored, Slot, TagFreeAt, FreeSet, Pow2;
        stacks := stacks[o := rest];
        if TagFreeAt(tags[Slot(x, lo)], o) {
          PopLean(b, s, o, rest);
          PopLazily(b, s, tags[..], o, rest);
          PopInv(b, o);
          PopHeld(b, mem[..], o);
          model := Pop(b, o);
          return Some(x);
        }
        DropLazily(b, s, tags[..], o, rest, x);
      }
      EmptyFacts(b, stacks, tags[..], o);
      return None;
    }

    method SplitOff(x: nat, o: nat)
      requires Working({x}, {x}) && lo < o <= hi && x in model.blocks && model.blocks[x] == Block(o, true)
      requires |stacks| == hi + 1 && stacks[o - 1] == []
      modifies this`model, this`stacks, tags
      ensures model == Split(old(model), x)
      ensures Working({x}, {x})
      ensures |stacks| == hi + 1 && forall k :: 0 <= k <= hi && k != o - 1 ==> stacks[k] == old(stacks)[k]
    {
      ghost var b := model;
      hide Inv, Lazily, Lean, OrdersStored, Split, Slot, Encode, Pow2, Shaped, IsFree;
      SplitInv(b, x);
      SplitLean(b, stacks, x);
      SplitLazily(b, stacks, tags[..], x);
      SplitFacts(b, x);
      OrdersKept(b, Split(b, x), mem[..], mem[..], x, x + Pow2(o - 1));
      PushFree(x + Pow2(o - 1), o - 1);
      model := Split(b, x);
    }

    method MarkUsed(x: nat, o: nat)
      requires Working({x}, {x}) && x in model.blocks && model.blocks[x] == Block(o, true)
      modifies mem, tags
      ensures Working({}, {})
    {
      MarkLazily(model, stacks, tags[..], x);
      Inside(model, x);
      ghost var m, t := mem[..], tags[..];
      tags[Slot(x, lo)] := Encode(Block(o, true));
      mem[x] := o;
      assert tags[..] == t[Slot(x, lo) := Encode(Block(o, true))];
      assert mem[..] == m[x := o];
      hide Inv, Lazily, Lean, Slot, Encode, Pow2;
    }

    /** Joins the held block x with its free buddy, whose tag is zeroed and whose stack entry goes stale. */
    method JoinBuddy(x: nat, o: nat)
      requires Working({x}, {}) && o < hi && x in model.blocks && model.blocks[x] == Block(o, true)
      requires CanMerge(model, x)
      modifies this`model, tags
      ensures model == Merge(old(model), x)
      ensures Working({ClearBit(x, o)}, {})
    {
      ghost var b, t := model, tags[..];
      MergeInv(b, x);
      MergeLazily(b, stacks, t, x);
      MergeLean(b, stacks, x);
      MergeOrders(b, mem[..], x);
      tags[Slot(FlipBit(x, o), lo)] := 0;
      assert tags[..] == t[Slot(FlipBit(x, o), lo) := 0];
      hide Inv, Lazily, Lean, OrdersStored, Slot, Pow2, CanMerge, FlipBit, ClearBit;
      model := Merge(b, x);
    }

    method Give(x: nat, o: nat)
      requires Working({x}, {}) && o <= hi && x in model.blocks && model.blocks[x] == Block(o, true)
      modifies this`model, this`stacks, tags
      ensures model == Release(old(model), x)
      ensures Working({}, {})
    {
      ghost var b := model;
      ReleaseInv(b, x);
      ReleaseLazily(b, stacks, tags[..], x);
      ReleaseLean(b, stacks, x);
      assert OrdersStored(Release(b, x), mem[..], {});
      hide Inv, Lazily, Lean, OrdersStored, Slot, Encode, Pow2;
      PushFree(x, o);
      model := Release(b, x);
    }

    // ----- Operations -----

    /** A block of the order the request needs, or nothing when no free block is large enough;
        exactly the outcome of the specification. */
    method Allocate(size: nat, alignment: nat) returns (p: Option<nat>)
      requires Valid() && size < WORD && alignment < WORD
      modifies this, mem, tags
      ensures Valid()
      ensures var (r, x) := Alloc(old(model), OrderOf(Need(size, alignment), lo));
              model == r && p == (if x.Some? then Some(x.value + HEADER) else None)
      ensures p.Some? ==>
                && p.value >= HEADER && IsUsed(model, p.value - HEADER) && !IsUsed(old(model), p.value - HEADER)
                && (Servable(size, alignment) ==>
                      LeastOrder(model.blocks[p.value - HEADER].order, size, alignment, lo))
      ensures allocCalls == old(allocCalls) + 1 && freeCalls == old(freeCalls)
      ensures failed == old(failed) + (if p.None? then 1 else 0)
      ensures peak == if used > old(peak) then used else old(peak)
    {
      hide Inv, Lazily, Lean, OrdersStored, Canonical, UsedMap, SizeBelow, LeastOrder;
      allocCalls := allocCalls + 1;
      var order := OrderFor(Need(size, alignment), lo);
      Grants(model, size, alignment, lo);
      AllocUsed(model, order);
      AllocBytes(model, order);
      if order > hi {
        failed := failed + 1;
        return None;
      }
      var x := Obtain(order);
      if x.None? {
        failed := failed + 1;
        return None;
      }
      used := used + Pow2(order);
      peak := if used > peak then used else peak;
      return Some(x.value + HEADER);
    }

    /** Finds the smallest order with a free block and splits that block down to `order`. */
    method Obtain(order: nat) returns (x: Option<nat>)
      requires Working({}, {}) && lo <= order <= hi
      modifies this`model, this`stacks, mem, tags
      ensures Working({}, {})
      ensures Alloc(old(model), order) == (model, x)
    {
      BlockOrders(model);
      ghost var b := model;
      var o := order;
      while true
        invariant order <= o <= hi + 1 && model == b && Working({}, {}) && |b.lists| == hi + 1
        invariant FirstOrder(b, order) == FirstOrder(b, o)
        invariant |stacks| == hi + 1 && forall k :: order <= k < o ==> stacks[k] == []
        decreases hi + 1 - o
      {
        if o > hi {
          return None;
        }
        x := PopFree(o);
        if x.Some? {
          break;
        }
        o := o + 1;
      }
      SplitDown(x.value, o, order);
    }

    method SplitDown(x: nat, o0: nat, order: nat)
      requires Working({x}, {x}) && lo <= order <= o0 <= hi
      requires x in model.blocks && model.blocks[x] == Block(o0, true)
      requires |stacks| == hi + 1 && forall k :: order <= k < o0 ==> stacks[k] == []
      modifies this`model, this`stacks, mem, tags
      ensures Working({}, {})
      ensures model == SplitTo(old(model), x, order)
    {
      hide Inv, Lazily, Lean, OrdersStored, Pow2, Split;
      var o := o0;
      while o > order
        invariant order <= o <= o0 && Working({x}, {x})
        invariant x in model.blocks && model.blocks[x] == Block(o, true)
        invariant SplitTo(model, x, order) == SplitTo(old(model), x, order)
        invariant |stacks| == hi + 1 && forall k :: order <= k < o ==> stacks[k] == []
      {
        SplitOnce(model, x);
        SplitToStep(model, x, order);
        SplitOff(x, o);
        o := o - 1;
      }
      SplitToBase(model, x, order);
      MarkUsed(x, order);
    }

    /** Frees a live allocation; exactly the outcome of the specification. */
    method Deallocate(p: nat)
      requires Valid() && p >= HEADER && IsUsed(model, p - HEADER)
      modifies this, mem, tags
      ensures Valid()
      ensures model == MergeUp(old(model), p - HEADER)
      ensures allocCalls == old(allocCalls) && failed == old(failed) && freeCalls == old(freeCalls) + 1
      ensures peak == old(peak)
    {
      hide Inv, Lazily, Lean, OrdersStored, Canonical, UsedMap, SizeBelow;
      freeCalls := freeCalls + 1;
      var off: nat := p - HEADER;
      var order := ReadOrder(off);
      MergeUpUsed(model, off);
      FreeBytes(model, off);
      used := used - Pow2(order);
      Coalesce(off, order);
    }

    method ReadOrder(off: nat) returns (order: nat)
      requires Working({}, {}) && IsUsed(model, off)
      ensures order == model.blocks[off].order && lo <= order <= hi
    {
      BlockOrders(model);
      order := mem[off];
    }

    method BuddyFree(x: nat, o: nat) returns (free: bool)
      requires Working({x}, {}) && o < hi && x in model.blocks && model.blocks[x] == Block(o, true)
      ensures free == CanMerge(model, x)
    {
      var buddy := FlipBit(x, o);
      BuddyIsLive(model, x);
      FlipHalves(x, o);
      EncodeRoundTrip(model.blocks[buddy]);
      assert tags[..][Slot(buddy, lo)] == Encode(model.blocks[buddy]);
      free := TagFreeAt(tags[Slot(buddy, lo)], o);
    }

    method Coalesce(x: nat, o: nat)
      requires Working({}, {}) && o <= hi && x in model.blocks && model.blocks[x] == Block(o, true)
      modifies this`model, this`stacks, tags
      ensures Working({}, {})
      ensures model == MergeUp(old(model), x)
    {
      assert Working({x}, {});
      hide Inv, Lazily, Lean, OrdersStored;
      var off, order := x, o;
      while order < hi
        invariant order <= hi && Working({off}, {})
        invariant off in model.blocks && model.blocks[off] == Block(order, true)
        invariant MergeUp(model, off) == MergeUp(old(model), x)
        decreases hi - order
      {
        var free := BuddyFree(off, order);
        if !free {
          break;
        }
        MergeInv(model, off);
        JoinBuddy(off, order);
        off := ClearBit(off, order);
        order := order + 1;
      }
      Give(off, order);
    }

    method Walk() returns (w: seq<BlockInfo>)
      requires Valid()
      ensures Tiling(w, Pow2(hi)) && AllReported(model, w, Pow2(hi))
      ensures forall i :: 0 <= i < |w| ==> Reports(model, w[i])
      ensures UsedSum(w) == used
    {
      w := BuddyTags.Walk(tags, lo, hi, model);
    }
  }

  lemma InitialLazily(lo: nat, hi: nat, busy: Buddy, zeros: seq<nat>)
    requires 5 <= lo <= hi < 64 && |zeros| == Pow2(hi - lo) && forall i :: 0 <= i < |zeros| ==> zeros[i] == 0
    requires busy == Initial(lo, hi).(blocks := map[0 := Block(hi, true)], lists := seq(hi + 1, _ => []))
    ensures Slot(0, lo) < |zeros|
    ensures Lazily(Release(busy, 0), busy.lists[hi := busy.lists[hi] + [0]],
                   zeros[Slot(0, lo) := Encode(Block(hi, false))], {}, {})
    ensures Release(busy, 0) == Initial(lo, hi)
  {
    assert [0] + busy.lists[hi] == [0];
    assert Release(busy, 0).lists == Initial(lo, hi).lists;
    ZeroAligned(hi);
    forall p | 0 <= p < Pow2(hi) ensures Covered(busy, p) {
      assert Covers(busy, 0, p);
    }
    assert Inv(busy);
    assert forall o: nat :: FreeSet(busy, o) == {};
    assert Lazily(busy, busy.lists, zeros, {0}, {});
    ReleaseLazily(busy, busy.lists, zeros, 0);
  }

  lemma EntryFacts(b: Buddy, stacks: seq<seq<nat>>, tags: seq<nat>, o: nat)
    requires Inv(b) && Lazily(b, stacks, tags, {}, {}) && o <= b.hi && stacks[o] != []
    ensures Shaped(b) && InHeap(b, stacks[o][|stacks[o]| - 1])
  {
    hide InHeap, Total, Disjoint;
  }

  lemma TopFacts(b: Buddy, stacks: seq<seq<nat>>, tags: seq<nat>, o: nat, rest: seq<nat>, x: nat)
    requires Shaped(b) && Lazily(b, stacks, tags, {}, {}) && o <= b.hi && stacks[o] == rest + [x] && InHeap(b, x)
    ensures Slot(x, b.lo) < |tags|
    ensures TagFreeAt(tags[Slot(x, b.lo)], o) <==> x in FreeSet(b, o)
    ensures x in FreeSet(b, o) ==> b.lists[o] != [] && b.lists[o][0] == x
  {
    TagCheckExact(b, stacks, tags, x, o);
    assert stacks[o][..|stacks[o]| - 1] == rest;
  }

  lemma EmptyFacts(b: Buddy, stacks: seq<seq<nat>>, tags: seq<nat>, o: nat)
    requires Inv(b) && Lazily(b, stacks, tags, {}, {}) && o <= b.hi && stacks[o] == []
    ensures b.lists[o] == []
  {
  }

  lemma PopHeld(b: Buddy, mem: seq<int>, o: nat)
    requires Inv(b) && o <= b.hi && b.lists[o] != [] && OrdersStored(b, mem, {})
    ensures var x := b.lists[o][0];
            x in b.blocks && Pop(b, o).blocks[x] == Block(o, true) && OrdersStored(Pop(b, o), mem, {x})
  {
    hide Total, Disjoint, Pow2, Aligned;
    HeadIn(b.lists[o]);
    assert IsFree(b, b.lists[o][0], o);
  }

  lemma MergeOrders(b: Buddy, mem: seq<int>, x: nat)
    requires Inv(b) && IsUsed(b, x) && CanMerge(b, x) && OrdersStored(b, mem, {x})
    ensures OrdersStored(Merge(b, x), mem, {ClearBit(x, b.blocks[x].order)})
  {
    hide Inv, Pow2;
  }
}
