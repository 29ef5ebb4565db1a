/** How far the free stacks of the Rust buddy allocator can grow: stale entries stay behind, duplicates never arise. */
module LazyBound {
  import opened Powers
  import opened Seqs
  import opened BuddySpec

  /** Entry e of stack o: the block that holds it is larger than 2^o, so the entry is stale, or it is the free block e
      of order o itself. */
  ghost predicate Waiting(b: Buddy, o: nat, e: nat) {
    && Aligned(e, o) && e < Pow2(b.hi)
    && forall z: nat :: Covers(b, z, e) ==> b.blocks[z].order > o || (z == e && IsFree(b, e, o))
  }

  ghost predicate Lean(b: Buddy, stacks: seq<seq<nat>>) {
    && |stacks| == b.hi + 1
    && forall o :: 0 <= o < |stacks| ==> NoDup(stacks[o]) && forall e :: e in stacks[o] ==> Waiting(b, o, e)
  }

  // ----- One change of a stack -----

  lemma DropLean(b: Buddy, stacks: seq<seq<nat>>, o: nat, rest: seq<nat>, x: nat)
    requires Lean(b, stacks) && o < |stacks| && stacks[o] == rest + [x]
    ensures Lean(b, stacks[o := rest]) && x !in rest && Waiting(b, o, x)
  {
    hide Waiting;
    assert forall i :: 0 <= i < |rest| ==> rest[i] == stacks[o][i];
    assert stacks[o][|rest|] == x;
  }

  lemma PushLean(b: Buddy, stacks: seq<seq<nat>>, o: nat, x: nat)
    requires Lean(b, stacks) && o < |stacks| && x !in stacks[o] && Waiting(b, o, x)
    ensures Lean(b, stacks[o := stacks[o] + [x]])
  {
    hide Waiting;
  }

  /** The stacks stay as they are while the heap changes. */
  lemma StillLean(b: Buddy, r: Buddy, stacks: seq<seq<nat>>)
    requires Lean(b, stacks) && r.hi == b.hi
    requires forall o, e :: 0 <= o < |stacks| && e in stacks[o] && Waiting(b, o, e) ==> Waiting(r, o, e)
    ensures Lean(r, stacks)
  {
    hide Waiting;
  }

  // ----- Along the primitives -----

  lemma InitialLean(lo: nat, hi: nat)
    requires lo <= hi
    ensures Lean(Initial(lo, hi), Initial(lo, hi).lists)
  {
    ZeroAligned(hi);
  }

  lemma PopLean(b: Buddy, stacks: seq<seq<nat>>, o: nat, rest: seq<nat>)
    requires Inv(b) && Lean(b, stacks) && o <= b.hi && b.lists[o] != [] && stacks[o] == rest + [b.lists[o][0]]
    ensures Lean(Pop(b, o), stacks[o := rest])
  {
    var x, r := b.lists[o][0], Pop(b, o);
    var s := stacks[o := rest];
    DropLean(b, stacks, o, rest, x);
    HeadIn(b.lists[o]);
    assert IsFree(b, x, o);
    hide Inv, Lean, Aligned, Pow2;
    forall k, e | 0 <= k < |s| && e in s[k] && Waiting(b, k, e) ensures Waiting(r, k, e) {
      forall z: nat | Covers(r, z, e) ensures r.blocks[z].order > k || (z == e && IsFree(r, e, k)) {
        assert Covers(b, z, e);
      }
    }
    StillLean(b, r, s);
  }

  /** A block is split into an order whose stack is empty, so the new half is no duplicate there. */
  lemma SplitLean(b: Buddy, stacks: seq<seq<nat>>, x: nat)
    requires Inv(b) && Lean(b, stacks) && IsUsed(b, x) && b.lo < b.blocks[x].order <= b.hi
    requires stacks[b.blocks[x].order - 1] == []
    ensures var o := b.blocks[x].order - 1; Lean(Split(b, x), stacks[o := stacks[o] + [x + Pow2(o)]])
  {
    var r, o := Split(b, x), b.blocks[x].order - 1;
    SplitInv(b, x);
    HalfWaits(b, x);
    forall k, e | 0 <= k < |stacks| && e in stacks[k] && Waiting(b, k, e) ensures Waiting(r, k, e) {
      SplitWaits(b, x, k, e);
    }
    hide Inv, Waiting, Pow2;
    StillLean(b, r, stacks);
    PushLean(r, stacks, o, x + Pow2(o));
  }

  lemma SplitWaits(b: Buddy, x: nat, k: nat, e: nat)
    requires IsUsed(b, x) && 0 < b.blocks[x].order <= |b.lists| && k != b.blocks[x].order - 1 && Waiting(b, k, e)
    ensures Waiting(Split(b, x), k, e)
  {
    var r, o := Split(b, x), b.blocks[x].order - 1;
    assert Pow2(o + 1) == 2 * Pow2(o);
    hide Aligned, Pow2;
    forall z: nat | Covers(r, z, e) ensures r.blocks[z].order > k || (z == e && IsFree(r, e, k)) {
      if z == x || z == x + Pow2(o) {
        assert Covers(b, x, e);
      } else {
        assert Covers(b, z, e);
      }
    }
  }

  lemma HalfWaits(b: Buddy, x: nat)
    requires Inv(b) && IsUsed(b, x) && b.lo < b.blocks[x].order <= b.hi && Inv(Split(b, x))
    ensures var o := b.blocks[x].order - 1; Waiting(Split(b, x), o, x + Pow2(o))
  {
    var r, o := Split(b, x), b.blocks[x].order - 1;
    FreeWaits(r, x + Pow2(o), o);
  }

  /** A free block is in place on the stack of its order. */
  lemma FreeWaits(b: Buddy, x: nat, o: nat)
    requires Inv(b) && IsFree(b, x, o)
    ensures Waiting(b, o, x)
  {
    hide Total, ListsExact, Aligned;
    Pow2Positive(o);
  }

  lemma {:induction false} Pow2Positive(k: nat)
    ensures Pow2(k) > 0
  {
    Pow2Mono(0, k);
  }

  lemma MergeLean(b: Buddy, stacks: seq<seq<nat>>, x: nat)
    requires Inv(b) && Lean(b, stacks) && IsUsed(b, x) && CanMerge(b, x)
    ensures Lean(Merge(b, x), stacks)
  {
    var r, o := Merge(b, x), b.blocks[x].order;
    var y, base := FlipBit(x, o), ClearBit(x, o);
    FlipHalves(x, o);
    assert Pow2(o + 1) == 2 * Pow2(o);
    hide Inv, Lean, Aligned, Pow2, FlipBit, ClearBit;
    forall k, e | 0 <= k < |stacks| && e in stacks[k] && Waiting(b, k, e) ensures Waiting(r, k, e) {
      forall z: nat | Covers(r, z, e) ensures r.blocks[z].order > k || (z == e && IsFree(r, e, k)) {
        if z == base {
          assert Covers(b, x, e) || Covers(b, y, e);
        } else {
          assert Covers(b, z, e);
        }
      }
    }
    StillLean(b, r, stacks);
  }

  lemma ReleaseLean(b: Buddy, stacks: seq<seq<nat>>, x: nat)
    requires Inv(b) && Lean(b, stacks) && IsUsed(b, x) && b.blocks[x].order <= b.hi
    ensures var o := b.blocks[x].order; Lean(Release(b, x), stacks[o := stacks[o] + [x]])
  {
    var r, o := Release(b, x), b.blocks[x].order;
    ReleaseInv(b, x);
    FreeWaits(r, x, o);
    Pow2Positive(o);
    assert Covers(b, x, x);
    assert x !in stacks[o];
    hide Inv, Lean, Aligned, Pow2;
    forall k, e | 0 <= k < |stacks| && e in stacks[k] && Waiting(b, k, e) ensures Waiting(r, k, e) {
      forall z: nat | Covers(r, z, e) ensures r.blocks[z].order > k || (z == e && IsFree(r, e, k)) {
        assert Covers(b, z, e);
      }
    }
    StillLean(b, r, stacks);
    PushLean(r, stacks, o, x);
  }

  // ----- The bound -----

  /** A duplicate-free sequence of numbers below n has at most n elements. */
  lemma {:induction false} FewBelow(s: seq<nat>, n: nat)
    requires NoDup(s) && forall i :: 0 <= i < |s| ==> s[i] < n
    ensures |s| <= n
    decreases n
  {
    if s != [] {
      assert s[0] < n;
      RemoveExact<nat>(s, n - 1);
      var r := Remove<nat>(s, n - 1);
      forall i | 0 <= i < |r| ensures r[i] < n - 1 {
        Below(s, r, i, n);
      }
      hide NoDup, Remove;
      FewBelow(r, n - 1);
      RemovedOne(s, n - 1);
    }
  }

  lemma Below(s: seq<nat>, r: seq<nat>, i: nat, n: nat)
    requires i < |r| && n > 0 && forall y :: y in r <==> y in s && y != n - 1
    requires forall i :: 0 <= i < |s| ==> s[i] < n
    ensures r[i] < n - 1
  {
    assert r[i] in r;
  }

  lemma {:induction false} RemovedOne(s: seq<nat>, x: nat)
    ensures |Remove<nat>(s, x)| >= |s| - 1
  {
    if s != [] && s[0] != x {
      RemovedOne(s[1..], x);
    }
  }

  /** The stack of order o never holds more entries than the heap has places for blocks of that order. */
  lemma StackBound(b: Buddy, stacks: seq<seq<nat>>, o: nat)
    requires Lean(b, stacks) && o < |stacks|
    ensures |stacks[o]| <= Pow2(b.hi - o)
  {
    var s := stacks[o];
    var q := seq(|s|, i requires 0 <= i < |s| => Shr(s[i], o));
    forall i | 0 <= i < |s| ensures q[i] < Pow2(b.hi - o) {
      assert Waiting(b, o, s[i]);
      ShrBound(s[i], o, b.hi);
    }
    forall i, j | 0 <= i < j < |s| ensures q[i] != q[j] {
      assert Waiting(b, o, s[i]) && Waiting(b, o, s[j]);
      if q[i] == q[j] {
        ShrInjective(s[i], s[j], o);
      }
    }
    FewBelow(q, Pow2(b.hi - o));
  }
}
