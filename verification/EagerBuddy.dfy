/** The C buddy allocator: exact doubly linked lists, unlinked eagerly on merge. */
module EagerBuddy {
  import opened Powers
  import opened Platform
  import opened HeapWalk
  import opened Seqs
  import opened BuddySpec
  import opened BuddyTheorems
  import opened BuddyTags
  import opened EagerLists

  lemma BlocksSpaced(b: Buddy)
    requires Inv(b) && 5 <= b.lo
    ensures Spaced(b.blocks.Keys) && ListsIn(b.lists, b.blocks.Keys)
    ensures forall x :: x in b.blocks ==> x + 32 <= Pow2(b.hi)
  {
    assert Pow2(5) == 32;
    forall x | x in b.blocks ensures Pow2(b.blocks[x].order) >= 32 {
      Pow2Mono(5, b.blocks[x].order);
    }
    forall o, z | 0 <= o < |b.lists| && z in b.lists[o] ensures IsFree(b, z, o) {
    }
    forall o, o', z | 0 <= o < o' < |b.lists| && z in b.lists[o] ensures z !in b.lists[o'] {
      assert IsFree(b, z, o);
    }
  }

  lemma NewNodesSpaced(b: Buddy, r: Buddy)
    requires Inv(b) && Inv(r) && 5 <= b.lo && 5 <= r.lo && b.blocks.Keys <= r.blocks.Keys
    ensures Spaced(r.blocks.Keys) && ListsIn(b.lists, r.blocks.Keys)
  {
    BlocksSpaced(b);
    BlocksSpaced(r);
  }

  lemma FreshUnlisted(b: Buddy, y: nat)
    requires Inv(b) && y !in b.blocks
    ensures Unlisted(b.lists, y) && |b.lists| == b.hi + 1
    ensures forall x :: x in b.blocks ==> b.blocks[x].order <= b.hi
  {
    hide Total, Disjoint, Pow2, Aligned;
    forall o | 0 <= o < |b.lists| ensures y !in b.lists[o] {
      assert !IsFree(b, y, o);
    }
  }

  /** What is needed to push the right half of a held block. */
  lemma SplitPlan(b: Buddy, tags: seq<nat>, x: nat)
    requires Inv(b) && 5 <= b.lo && IsUsed(b, x) && b.blocks[x].order > b.lo && TagsAgree(b, tags, {x})
    ensures var r, o := Split(b, x), b.blocks[x].order - 1;
            var y := x + Pow2(o);
            && Inv(r) && r.lo == b.lo && r.hi == b.hi && o < |b.lists|
            && r.lists == b.lists[o := [y] + b.lists[o]]
            && Spaced(r.blocks.Keys) && ListsIn(b.lists, r.blocks.Keys) && Unlisted(b.lists, y)
            && y in r.blocks && y + 8 < Pow2(b.hi) && Slot(y, b.lo) < |tags|
            && TagsAgree(r, tags[Slot(y, b.lo) := Encode(Block(o, false))], {x})
  {
    SplitInv(b, x);
    SplitTags(b, tags, x);
    var r, y := Split(b, x), x + Pow2(b.blocks[x].order - 1);
    FreshUnlisted(b, y);
    hide Inv, TagsAgree, Pow2, Aligned, Slot, Encode;
    NewNodesSpaced(b, r);
    BlocksSpaced(r);
    InvShaped(r);
    PutTag(r, tags, {x, y}, y);
    assert {x, y} - {y} == {x};
  }

  class Heap {
    const lo: nat
    const hi: nat
    const mem: array<int>    // the word stored at each byte offset
    const heads: array<int>  // first free block of each order
    const tags: array<nat>   // order and state of the block starting at each slot
    var used: nat
    var peak: nat
    var allocCalls: nat
    var freeCalls: nat
    var failed: nat
    ghost var model: Buddy

    ghost predicate Shape() {
      && 5 <= lo <= hi < 64
      && mem.Length == Pow2(hi) && heads.Length == hi + 1 && tags.Length == Pow2(hi - lo)
      && mem != heads && tags as object != mem && tags as object != heads
    }

    /** Consistent except that the blocks in `held` belong to the running operation. */
    ghost predicate Working(held: set<nat>)
      reads this, mem, heads, tags
    {
      && Shape() && Inv(model) && model.lo == lo && model.hi == hi
      && LinkedAll(model.lists, heads[..], mem[..])
      && TagsAgree(model, tags[..], held)
      && OrdersStored(model, mem[..], held)
    }

    ghost predicate Valid()
      reads this, mem, heads, tags
    {
      Working({}) && Canonical(model) && used == UsedBytes(model) && used <= peak
    }

    /** hf_buddy_create, with the two orders already computed from the sizes. */
    constructor (lo: nat, hi: nat)
      requires 5 <= lo <= hi < 64
      ensures Valid() && model == Initial(lo, hi) && fresh(mem) && fresh(heads) && fresh(tags)
      ensures used == 0
    {
      this.lo, this.hi := lo, hi;
      mem := new int[Pow2(hi)];
      heads := new int[hi + 1](_ => NIL);
      tags := new nat[Pow2(hi - lo)](_ => 0);
      used, peak, allocCalls, freeCalls, failed := 0, 0, 0, 0, 0;
      model := Initial(lo, hi);
      new;
      ghost var empty: seq<seq<nat>> := seq(hi + 1, i => []);
      InitialFacts(lo, hi);
      assert model.lists == empty[hi := [0] + empty[hi]] by {
        assert [0] + empty[hi] == [0];
      }
      hide Inv, Canonical, UsedMap, SizeBelow, Pow2, Slot, Encode;
      Push(0, hi, empty, {0});
    }

    // ----- List primitives -----

    method Push(x: nat, o: nat, ghost lists: seq<seq<nat>>, ghost nodes: set<nat>)
      requires Shape() && LinkedAll(lists, heads[..], mem[..]) && ListsIn(lists, nodes) && Spaced(nodes)
      requires o < |lists| && x in nodes && Unlisted(lists, x) && x + 8 < mem.Length && Slot(x, lo) < tags.Length
      modifies mem, heads, tags
      ensures LinkedAll(lists[o := [x] + lists[o]], heads[..], mem[..])
      ensures tags[..] == old(tags[..])[Slot(x, lo) := Encode(Block(o, false))]
      ensures forall u :: u in nodes && u != x && u < mem.Length ==> mem[u] == old(mem[u])
    {
      PushLinked(lists, heads[..], mem[..], o, x, nodes);
      mem[x + 8] := NIL;
      mem[x] := heads[o];
      if mem[x] != NIL {
        mem[mem[x] + 8] := x;
      }
      heads[o] := x;
      tags[Slot(x, lo)] := Encode(Block(o, false));
      assert mem[..] == PushMem(old(mem[..]), old(heads[o]), x);
      assert heads[..] == old(heads[..])[o := x];
    }

    /** Takes the first block of list o. */
    method Pop(o: nat, ghost lists: seq<seq<nat>>, ghost nodes: set<nat>) returns (n: nat)
      requires Shape() && LinkedAll(lists, heads[..], mem[..]) && ListsIn(lists, nodes) && Spaced(nodes)
      requires o < |lists| && lists[o] != []
      modifies mem, heads
      ensures n == lists[o][0] && LinkedAll(lists[o := lists[o][1..]], heads[..], mem[..])
      ensures forall u :: u in nodes && u !in lists[o] && u < mem.Length ==> mem[u] == old(mem[u])
    {
      UnlinkLinked(lists, heads[..], mem[..], o, 0, nodes);
      assert Linked(lists[o], heads[..][o], mem[..]);
      n := heads[o];
      heads[o] := mem[n];
      if mem[n] != NIL {
        mem[mem[n] + 8] := NIL;
      }
      assert mem[..] == UnlinkMem(old(mem[..]), NextIn(lists[o], 0), NIL);
      assert heads[..] == old(heads[..])[o := NextIn(lists[o], 0)];
    }

    /** Takes block n out of list o, wherever it is. */
    method Unlink(n: nat, o: nat, ghost lists: seq<seq<nat>>, ghost nodes: set<nat>)
      requires Shape() && LinkedAll(lists, heads[..], mem[..]) && ListsIn(lists, nodes) && Spaced(nodes)
      requires o < |lists| && n in lists[o]
      modifies mem, heads
      ensures LinkedAll(lists[o := Remove<nat>(lists[o], n)], heads[..], mem[..])
      ensures forall u :: u in nodes && u !in lists[o] && u < mem.Length ==> mem[u] == old(mem[u])
    {
      ghost var i :| 0 <= i < |lists[o]| && lists[o][i] == n;
      UnlinkLinked(lists, heads[..], mem[..], o, i, nodes);
      var next, prev := mem[n], mem[n + 8];
      if prev != NIL {
        mem[prev] := next;
      } else {
        heads[o] := next;
      }
      if next != NIL {
        mem[next + 8] := prev;
      }
      assert mem[..] == UnlinkMem(old(mem[..]), next, prev);
      assert heads[..] == if prev == NIL then old(heads[..])[o := next] else old(heads[..]);
    }

    // ----- Steps of the two loops -----

    /** Takes the first free block of order o into the hands of the running operation. */
    method Take(o: nat) returns (x: nat)
      requires Working({}) && o <= hi && model.lists[o] != []
      modifies this`model, mem, heads
      ensures model == BuddySpec.Pop(old(model), o) && x == old(model.lists[o][0])
      ensures Working({x}) && x in model.blocks && model.blocks[x] == Block(o, true)
    {
      ghost var b := model;
      BlocksSpaced(b);
      PopInv(b, o);
      assert b.lists[o][0] in b.lists[o];
      x := Pop(o, b.lists, b.blocks.Keys);
      model := BuddySpec.Pop(b, o);
      assert forall u :: IsUsed(b, u) ==> u !in b.lists[o];
    }

    /** Splits the held block x; its right half becomes free. */
    method SplitOff(x: nat, o: nat)
      requires Working({x}) && lo < o <= hi && x in model.blocks && model.blocks[x] == Block(o, true)
      modifies this`model, mem, heads, tags
      ensures model == Split(old(model), x)
      ensures Working({x})
    {
      ghost var b := model;
      ghost var r := Split(b, x);
      ghost var m := mem[..];
      SplitPlan(b, tags[..], x);
      hide Inv, LinkedAll, TagsAgree, OrdersStored, Spaced, ListsIn, Unlisted, Split, Slot, Pow2, Encode;
      Push(x + Pow2(o - 1), o - 1, b.lists, r.blocks.Keys);
      OrdersKept(b, r, m, mem[..], x, x + Pow2(o - 1));
      model := r;
    }

    /** Joins the held block x with its free buddy. */
    method JoinBuddy(x: nat, o: nat)
      requires Working({x}) && o < hi && x in model.blocks && model.blocks[x] == Block(o, true)
      requires CanMerge(model, x)
      modifies this`model, mem, heads
      ensures model == Merge(old(model), x)
      ensures Working({ClearBit(x, o)})
    {
      ghost var b := model;
      var y := FlipBit(x, o);
      MergeInv(b, x);
      MergeTags(b, tags[..], x);
      BlocksSpaced(b);
      FlipHalves(x, o);
      Unlink(y, o, b.lists, b.blocks.Keys);
      model := Merge(b, x);
      assert forall u :: IsUsed(b, u) ==> u !in b.lists[o];
    }

    /** Gives the held block x back to its list. */
    method Give(x: nat, o: nat)
      requires Working({x}) && o <= hi && x in model.blocks && model.blocks[x] == Block(o, true)
      modifies this`model, mem, heads, tags
      ensures model == Release(old(model), x)
      ensures Working({})
    {
      ghost var b := model;
      ReleaseInv(b, x);
      BlocksSpaced(b);
      ghost var r := Release(b, x);
      assert TagsAgree(r, tags[..], {x});
      PutTag(r, tags[..], {x}, x);
      assert {x} - {x} == {};
      Push(x, o, b.lists, b.blocks.Keys);
      model := r;
    }

    // ----- Operations -----

    /** A block of the order the request needs, or nothing when no free block is large enough;
        exactly the outcome of the specification. */
    method Allocate(size: nat, alignment: nat) returns (p: Option<nat>)
      requires Valid() && size < WORD && alignment < WORD
      modifies this, mem, heads, tags
      ensures Valid()
      ensures var (r, x) := Alloc(old(model), OrderOf(Need(size, alignment), lo));
              model == r && p == (if x.Some? then Some(x.value + HEADER) else None)
      ensures p.Some? ==>
                && p.value >= HEADER && IsUsed(model, p.value - HEADER) && !IsUsed(old(model), p.value - HEADER)
                && (Servable(size, alignment) ==>
                      LeastOrder(model.blocks[p.value - HEADER].order, size, alignment, lo))
      ensures allocCalls == old(allocCalls) + 1 && freeCalls == old(freeCalls)
      ensures failed == old(failed) + (if p.None? then 1 else 0)
      ensures peak == if used > old(peak) then used else old(peak)
    {
      hide Inv, LinkedAll, TagsAgree, OrdersStored, Canonical, UsedMap, SizeBelow, LeastOrder;
      var order := OrderFor(Need(size, alignment), lo);
      allocCalls := allocCalls + 1;
      Grants(model, size, alignment, lo);
      AllocUsed(model, order);
      AllocBytes(model, order);
      if order > hi {
        failed := failed + 1;
        return None;
      }
      var o := FindOrder(order);
      if o > hi {
        failed := failed + 1;
        return None;
      }
      var x := Obtain(order, o);
      used := used + Pow2(order);
      if used > peak {
        peak := used;
      }
      return Some(x + HEADER);
    }

    /** The smallest order from `order` upward whose list is not empty. */
    method FindOrder(order: nat) returns (o: nat)
      requires Working({}) && order <= hi
      ensures o == FirstOrder(model, order)
    {
      o := order;
      while o <= hi && heads[o] == NIL
        invariant order <= o <= hi + 1
        invariant FirstOrder(model, order) == FirstOrder(model, o)
      {
        assert Linked(model.lists[o], heads[..][o], mem[..]);
        o := o + 1;
      }
      assert o <= hi ==> Linked(model.lists[o], heads[..][o], mem[..]);
    }

    /** Pops a block of order o0 and splits it down to `order`. */
    method Obtain(order: nat, o0: nat) returns (x: nat)
      requires Working({}) && lo <= order <= hi && o0 == FirstOrder(model, order) && o0 <= hi
      modifies this`model, mem, heads, tags
      ensures Working({})
      ensures Alloc(old(model), order) == (model, Some(x))
    {
      x := Take(o0);
      var o := o0;
      ghost var target := SplitTo(model, x, order);
      while o > order
        invariant order <= o <= hi && Working({x})
        invariant x in model.blocks && model.blocks[x] == Block(o, true)
        invariant SplitTo(model, x, order) == target
      {
        SplitOff(x, o);
        o := o - 1;
      }
      MarkUsed(x, order);
    }

    method MarkUsed(x: nat, o: nat)
      requires Working({x}) && x in model.blocks && model.blocks[x] == Block(o, true)
      modifies mem, tags
      ensures Working({})
    {
      BlocksSpaced(model);
      PutTag(model, tags[..], {x}, x);
      assert {x} - {x} == {};
      tags[Slot(x, lo)] := Encode(Block(o, true));
      ghost var m := mem[..];
      mem[x] := o;
      assert mem[..] == m[x := o];
      StoreKeepsLinks(model, heads[..], m, x, o);
    }

    /** Frees a live allocation; exactly the outcome of the specification. A null pointer is ignored. */
    method Deallocate(p: Option<nat>)
      requires Valid()
      requires p.Some? ==> p.value >= HEADER && IsUsed(model, p.value - HEADER)
      modifies this, mem, heads, tags
      ensures Valid()
      ensures model == if p.None? then old(model) else MergeUp(old(model), p.value - HEADER)
      ensures allocCalls == old(allocCalls) && failed == old(failed)
      ensures freeCalls == old(freeCalls) + (if p.None? then 0 else 1)
      ensures peak == old(peak)
    {
      hide Inv, LinkedAll, TagsAgree, OrdersStored, Canonical, UsedMap, SizeBelow;
      if p.None? {
        return;
      }
      freeCalls := freeCalls + 1;
      var off: nat := p.value - HEADER;
      var order := ReadOrder(off);
      MergeUpUsed(model, off);
      FreeBytes(model, off);
      used := used - Pow2(order);
      Coalesce(off, order);
    }

    /** The order a live allocation was tagged with. */
    method ReadOrder(off: nat) returns (order: nat)
      requires Working({}) && IsUsed(model, off)
      ensures order == model.blocks[off].order && lo <= order <= hi
    {
      order := mem[off];
    }

    /** Whether the buddy of the held block x is a free block of the same order. */
    method BuddyFree(x: nat, o: nat) returns (free: bool)
      requires Working({x}) && o < hi && x in model.blocks && model.blocks[x] == Block(o, true)
      ensures free == CanMerge(model, x)
    {
      var buddy := FlipBit(x, o);
      BuddyIsLive(model, x);
      FlipHalves(x, o);
      EncodeRoundTrip(model.blocks[buddy]);
      assert tags[..][Slot(buddy, lo)] == Encode(model.blocks[buddy]);
      free := TagFreeAt(tags[Slot(buddy, lo)], o);
    }

    method Coalesce(x: nat, o: nat)
      requires Working({}) && o <= hi && x in model.blocks && model.blocks[x] == Block(o, true)
      modifies this`model, mem, heads, tags
      ensures Working({})
      ensures model == MergeUp(old(model), x)
    {
      assert Working({x});
      hide Inv, LinkedAll, TagsAgree, OrdersStored;
      var off, order := x, o;
      while order < hi
        invariant order <= hi && Working({off})
        invariant off in model.blocks && model.blocks[off] == Block(order, true)
        invariant MergeUp(model, off) == MergeUp(old(model), x)
        decreases hi - order
      {
        var free := BuddyFree(off, order);
        if !free {
          break;
        }
        MergeInv(model, off);
        JoinBuddy(off, order);
        off := ClearBit(off, order);
        order := order + 1;
      }
      Give(off, order);
    }

    /** Every live block, in address order. */
    method Walk() returns (w: seq<BlockInfo>)
      requires Valid()
      ensures Tiling(w, Pow2(hi)) && AllReported(model, w, Pow2(hi))
      ensures forall i :: 0 <= i < |w| ==> Reports(model, w[i])
      ensures UsedSum(w) == used
    {
      w := BuddyTags.Walk(tags, lo, hi, model);
    }
  }

  /** Writing the order into a used block touches no list node. */
  lemma StoreKeepsLinks(b: Buddy, heads: seq<int>, mem: seq<int>, x: nat, v: int)
    requires Inv(b) && 5 <= b.lo && IsUsed(b, x) && x < |mem| && LinkedAll(b.lists, heads, mem)
    ensures LinkedAll(b.lists, heads, mem[x := v])
  {
    BlocksSpaced(b);
    forall o | 0 <= o < |b.lists| ensures Linked(b.lists[o], heads[o], mem[x := v]) {
      assert Linked(b.lists[o], heads[o], mem);
      var s, m := b.lists[o], mem[x := v];
      forall i | 0 <= i < |s| ensures NodeOk(s, i, m) {
        assert NodeOk(s, i, mem);
        assert s[i] in s;
        assert IsFree(b, s[i], o);
      }
    }
  }

  /** Whatever callers write into the payloads of used blocks, lists and stored orders stay right. */
  lemma PayloadWriteHarmless(b: Buddy, heads: seq<int>, mem: seq<int>, x: nat, y: nat, v: int)
    requires Inv(b) && 5 <= b.lo && IsUsed(b, x) && LinkedAll(b.lists, heads, mem) && OrdersStored(b, mem, {})
    requires x + HEADER <= y < x + Pow2(b.blocks[x].order) && y < |mem|
    ensures LinkedAll(b.lists, heads, mem[y := v]) && OrdersStored(b, mem[y := v], {})
  {
    hide Inv, Pow2, OrdersStored;
    PayloadKeepsOrders(b, mem, {}, x, y, v);
    PayloadInside(b, x, y);
    BlocksSpaced(b);
    ListedFree(b, x);
    assert x in b.blocks.Keys;
    forall o | 0 <= o < |b.lists| ensures Linked(b.lists[o], heads[o], mem[y := v]) {
      assert Linked(b.lists[o], heads[o], mem);
      var s, m := b.lists[o], mem[y := v];
      forall i | 0 <= i < |s| ensures NodeOk(s, i, m) {
        assert NodeOk(s, i, mem);
        assert s[i] in s;
        assert s[i] in b.blocks.Keys;
      }
    }
  }

  lemma ListedFree(b: Buddy, x: nat)
    requires Inv(b) && IsUsed(b, x)
    ensures Unlisted(b.lists, x)
  {
    hide Total, Disjoint, Pow2, Aligned;
  }
}
