/** What the free-list heap promises over whole runs, under every placement policy. */
module FreeTheorems {
  import opened HeapWalk
  import opened Seqs
  import opened FreeSpec

  // ----- Used blocks -----

  ghost function UsedMap(h: Heap): (m: map<nat, nat>) {
    map x | x in h.blocks && h.blocks[x].used :: h.blocks[x].size
  }

  lemma TakeUsed(h: Heap, x: nat)
    requires IsFree(h, x)
    ensures UsedMap(Take(h, x)) == UsedMap(h)[x := h.blocks[x].size] && x !in UsedMap(h)
  {
    hide Remove, CursorAfterUnlink;
  }

  lemma SplitUsed(h: Heap, x: nat, need: nat)
    requires x in h.blocks && 0 < need <= h.blocks[x].size && x + need !in h.blocks
    ensures UsedMap(SplitOff(h, x, need)) == UsedMap(h)[x := need]
  {
    hide Inserted;
  }

  lemma JoinUsed(h: Heap, x: nat)
    requires IsUsed(h, x) && IsUsed(h, End(h, x)) && End(h, x) != x
    ensures UsedMap(Join(h, x)) - {x} == UsedMap(h) - {x, End(h, x)}
  {
  }

  lemma ReleaseUsed(h: Heap, x: nat)
    requires x in h.blocks
    ensures UsedMap(Release(h, x)) == UsedMap(h) - {x}
  {
    hide Inserted;
  }

  /** The size a request gets from block x: what it asked for, or the whole block when the rest would be too small. */
  function Granted(h: Heap, x: nat, need: nat): (size: nat)
    requires x in h.blocks && need <= h.blocks[x].size
    ensures need <= size < need + MIN_BLOCK
  {
    if h.blocks[x].size - need >= MIN_BLOCK then need else h.blocks[x].size
  }

  lemma CarveUsed(h: Heap, x: nat, need: nat)
    requires Inv(h) && IsFree(h, x) && MIN_BLOCK <= need <= h.blocks[x].size && need % 16 == 0
    ensures x !in UsedMap(h) && UsedMap(Carve(h, x, need)) == UsedMap(h)[x := Granted(h, x, need)]
  {
    TakeUsed(h, x);
    TakeFree(h, x);
    var size := h.blocks[x].size;
    if size - need >= MIN_BLOCK {
      var t := Take(h, x);
      SplitAway(t, x, need);
      SplitUsed(t, x, need);
      PutTwice(UsedMap(h), x, size, need);
    }
  }

  lemma SplitAway(h: Heap, x: nat, need: nat)
    requires Inv(h) && x in h.blocks && 0 < need < h.blocks[x].size
    ensures x + need !in h.blocks
  {
    hide Shaped, Coalesced, ListExact, CursorOk;
    SplitDisjoint(h, x, need);
  }

  /** A successful allocation adds exactly one used block, at least as large as asked and less than one
      minimum block larger; a failed one changes nothing. */
  lemma AllocUsed(h: Heap, policy: Policy, need: nat)
    requires Inv(h) && MIN_BLOCK <= need && need % 16 == 0
    ensures var (r, x) := Alloc(h, policy, need);
            && (x.None? ==> r == h)
            && (x.Some? ==>
                  && IsFree(h, x.value) && need <= h.blocks[x.value].size && x.value !in UsedMap(h)
                  && UsedMap(r) == UsedMap(h)[x.value := Granted(h, x.value, need)])
  {
    var x := Fit(h, policy, need);
    if x.Some? {
      FitFits(h, policy, need);
      AimInv(h, policy, x.value);
      var a := Aim(h, policy, x.value);
      assert UsedMap(a) == UsedMap(h);
      hide UsedMap, Inv;
      CarveUsed(a, x.value, need);
    }
  }

  /** Freeing takes exactly the freed block out of the used blocks. */
  lemma FreeUsed(h: Heap, x: nat)
    requires Inv(h) && IsUsed(h, x)
    ensures UsedMap(Free(h, x)) == UsedMap(h) - {x}
  {
    hide Inv;
    JoinNextUsed(h, x);
    var j := JoinNext(h, x);
    JoinPrevUsed(j, x, PrevOf(j, x));
  }

  lemma JoinNextUsed(h: Heap, x: nat)
    requires Inv(h) && IsUsed(h, x)
    ensures UsedMap(JoinNext(h, x)) - {x} == UsedMap(h) - {x}
  {
    var y := End(h, x);
    if IsFree(h, y) {
      JoinNextReady(h, x);
      BlockFacts(h, x);
      TakeUsed(h, y);
      JoinUsed(Take(h, y), x);
      var u := UsedMap(h);
      hide *;
      RemoveBoth(u, x, y, UsedMap(Take(h, y))[y]);
    }
  }

  lemma RemoveBoth(m: map<nat, nat>, x: nat, y: nat, v: nat)
    requires y !in m
    ensures m[y := v] - {x, y} == m - {x}
  {
  }

  lemma JoinPrevUsed(h: Heap, x: nat, p: int)
    requires Inv(h) && IsUsed(h, x) && !IsFree(h, End(h, x)) && IsPrev(h, x, p)
    ensures UsedMap(JoinPrev(h, x, p)) == UsedMap(h) - {x}
  {
    if p != NIL && IsFree(h, p) {
      JoinPrevReady(h, x, p);
      BlockFacts(h, p);
      TakeUsed(h, p);
      var t := Take(h, p);
      JoinUsed(t, p);
      ReleaseUsed(Join(t, p), p);
      var u := UsedMap(h);
      assert {x, p} == {p, x};
      RemoveBoth(u, x, p, UsedMap(t)[p]);
      hide UsedMap, Inv;
    } else {
      ReleaseUsed(h, x);
    }
  }

  // ----- Completeness -----

  ghost predicate Covers(h: Heap, x: nat, p: nat) {
    x in h.blocks && x <= p < End(h, x)
  }

  ghost predicate FreeByte(h: Heap, p: nat) {
    exists x: nat :: Covers(h, x, p) && IsFree(h, x)
  }

  /** `need` contiguous free bytes from `start`. */
  ghost predicate FreeRun(h: Heap, start: nat, need: nat) {
    forall p :: start <= p < start + need ==> FreeByte(h, p)
  }

  /** A contiguous free run lies inside one free block. */
  lemma {:induction false} RunInBlock(h: Heap, start: nat, need: nat) returns (x: nat)
    requires Inv(h) && need > 0 && FreeRun(h, start, need)
    ensures IsFree(h, x) && x <= start && start + need <= End(h, x)
    decreases need
  {
    var p := start + need - 1;
    assert FreeByte(h, p);
    var y: nat :| Covers(h, y, p) && IsFree(h, y);
    if need == 1 {
      x := y;
    } else {
      x := RunInBlock(h, start, need - 1);
      NextByteSameBlock(h, x, y, p);
    }
  }

  lemma NextByteSameBlock(h: Heap, x: nat, y: nat, p: nat)
    requires Inv(h) && IsFree(h, x) && IsFree(h, y) && Covers(h, y, p) && x < p <= End(h, x)
    ensures x == y
  {
    assert Apart(h, x);
    assert BlockOk(h, x) && BlockOk(h, y);
  }

  /** Under every policy, allocation succeeds exactly when some contiguous free run holds the request. */
  lemma AllocComplete(h: Heap, policy: Policy, need: nat)
    requires Inv(h) && MIN_BLOCK <= need && need % 16 == 0
    ensures Alloc(h, policy, need).1.Some? <==> exists start: nat :: FreeRun(h, start, need)
  {
    FitFits(h, policy, need);
    if exists x: nat :: IsFree(h, x) && h.blocks[x].size >= need {
      var x: nat :| IsFree(h, x) && h.blocks[x].size >= need;
      forall p | x <= p < x + need ensures FreeByte(h, p) {
        assert Covers(h, x, p);
      }
      assert FreeRun(h, x, need);
    }
    if start: nat :| FreeRun(h, start, need) {
      var x := RunInBlock(h, start, need);
      assert h.blocks[x].size >= need;
    }
  }

  /** With nothing in use the heap is one free block again. */
  lemma AllFreeIsInitial(h: Heap)
    requires Inv(h) && UsedMap(h) == map[]
    ensures h == Initial(h.cap)
  {
    assert BlockOk(h, 0) && Apart(h, 0);
    NoneUsed(h, 0);
    NoneUsed(h, End(h, 0));
    OnlyBlock(h);
  }

  lemma NoneUsed(h: Heap, x: nat)
    requires UsedMap(h) == map[]
    ensures !IsUsed(h, x)
  {
    assert x !in UsedMap(h);
  }

  lemma OnlyBlock(h: Heap)
    requires Inv(h) && IsFree(h, 0) && End(h, 0) == h.cap
    ensures h == Initial(h.cap)
  {
    forall x | x in h.blocks ensures x == 0 {
      assert BlockOk(h, x);
    }
    assert h.blocks == map[0 := Block(h.cap, false)];
    assert 0 in h.list;
    SingletonList(h.list, [0]);
  }

  // ----- The used blocks determine the layout -----

  lemma SameStartSameBlock(h: Heap, g: Heap, x: nat)
    requires Inv(h) && Inv(g) && h.cap == g.cap && UsedMap(h) == UsedMap(g) && x in h.blocks && x in g.blocks
    ensures h.blocks[x] == g.blocks[x]
  {
    assert IsUsed(h, x) <==> x in UsedMap(h);
    assert IsUsed(g, x) <==> x in UsedMap(g);
    if IsFree(h, x) {
      FreeEndsAtUsed(h, g, x);
      FreeEndsAtUsed(g, h, x);
    }
  }

  lemma FreeEndsAtUsed(h: Heap, g: Heap, x: nat)
    requires Inv(h) && Inv(g) && h.cap == g.cap && UsedMap(h) == UsedMap(g) && IsFree(h, x) && IsFree(g, x)
    ensures End(g, x) <= End(h, x)
  {
    BlockFacts(h, x);
    BlockFacts(g, x);
    assert Apart(h, x);
    var e := End(h, x);
    if e < h.cap {
      assert e in UsedMap(h);
      assert e in g.blocks;
    }
  }

  lemma {:induction false} SameStarts(h: Heap, g: Heap, x: nat)
    requires Inv(h) && Inv(g) && h.cap == g.cap && UsedMap(h) == UsedMap(g) && x in h.blocks
    ensures x in g.blocks && h.blocks[x] == g.blocks[x]
    decreases x
  {
    if x > 0 {
      PrevExists(h, x);
      var p: nat :| p in h.blocks && End(h, p) == x;
      BlockFacts(h, p);
      BlockFacts(h, x);
      SameStarts(h, g, p);
      BlockFacts(g, p);
      hide Inv, UsedMap;
      SameStartSameBlock(h, g, x);
    } else {
      SameStartSameBlock(h, g, x);
    }
  }

  /** The block layout depends only on which blocks are in use, not on how the heap got there. */
  lemma StructureDetermined(h: Heap, g: Heap)
    requires Inv(h) && Inv(g) && h.cap == g.cap && UsedMap(h) == UsedMap(g)
    ensures h.blocks == g.blocks
  {
    hide Inv, UsedMap;
    forall x: nat ensures (x in h.blocks <==> x in g.blocks) && (x in h.blocks ==> h.blocks[x] == g.blocks[x]) {
      if x in h.blocks {
        SameStarts(h, g, x);
      }
      if x in g.blocks {
        SameStarts(g, h, x);
      }
    }
  }

  /** Freeing a fresh allocation restores the layout, under every policy. */
  lemma AllocFreeRoundTrip(h: Heap, policy: Policy, need: nat)
    requires Inv(h) && MIN_BLOCK <= need && need % 16 == 0 && Alloc(h, policy, need).1.Some?
    ensures var (r, x) := Alloc(h, policy, need);
            IsUsed(r, x.value) && Free(r, x.value).blocks == h.blocks
  {
    AllocUsed(h, policy, need);
    AllocCap(h, policy, need);
    var (r, x) := Alloc(h, policy, need);
    assert x.value in UsedMap(r);
    hide Inv, Alloc, Free, UsedMap;
    UsedFacts(r, x.value);
    FreeUsed(r, x.value);
    FreeCap(r, x.value);
    PutRemove(UsedMap(h), x.value, Granted(h, x.value, need));
    StructureDetermined(Free(r, x.value), h);
  }

  lemma UsedFacts(h: Heap, x: nat)
    requires x in UsedMap(h)
    ensures IsUsed(h, x)
  {
  }

  lemma AllocCap(h: Heap, policy: Policy, need: nat)
    requires Inv(h) && MIN_BLOCK <= need && need % 16 == 0
    ensures Alloc(h, policy, need).0.cap == h.cap
  {
    hide Inv;
  }

  // ----- Runs -----

  datatype Request = Want(need: nat) | Give(offset: nat)

  predicate Legal(h: Heap, q: Request) {
    match q
    case Want(need) => MIN_BLOCK <= need && need % 16 == 0
    case Give(x) => IsUsed(h, x)
  }

  ghost function Step(h: Heap, policy: Policy, q: Request): (r: Heap)
    requires Inv(h) && Legal(h, q)
    ensures Inv(r)
  {
    match q
    case Want(need) => Alloc(h, policy, need).0
    case Give(x) => Free(h, x)
  }

  ghost predicate LegalRun(h: Heap, policy: Policy, qs: seq<Request>)
    requires Inv(h)
    decreases |qs|
  {
    qs == [] || (Legal(h, qs[0]) && LegalRun(Step(h, policy, qs[0]), policy, qs[1..]))
  }

  ghost function Run(h: Heap, policy: Policy, qs: seq<Request>): (r: Heap)
    requires Inv(h) && LegalRun(h, policy, qs)
    ensures Inv(r)
    decreases |qs|
  {
    if qs == [] then h else Run(Step(h, policy, qs[0]), policy, qs[1..])
  }

  /** The live requests as the callers see them: each answered request adds what was asked for, each free removes it. */
  ghost function Ledger(h: Heap, policy: Policy, live: map<nat, nat>, qs: seq<Request>): (m: map<nat, nat>)
    requires Inv(h) && LegalRun(h, policy, qs)
    decreases |qs|
  {
    if qs == [] then live
    else
      var next := match qs[0]
                  case Want(need) =>
                    var x := Alloc(h, policy, need).1;
                    if x.Some? then live[x.value := need] else live
                  case Give(x) => live - {x};
      Ledger(Step(h, policy, qs[0]), policy, next, qs[1..])
  }

  /** The used blocks are the live requests, each at least as large as asked and less than a minimum block larger. */
  ghost predicate Backs(u: map<nat, nat>, live: map<nat, nat>) {
    u.Keys == live.Keys && forall x :: x in live ==> live[x] <= u[x] < live[x] + MIN_BLOCK
  }

  /** In every reachable state the heap is well formed and its used blocks are exactly the callers' live requests. */
  lemma {:induction false} RunSafe(h: Heap, policy: Policy, live: map<nat, nat>, qs: seq<Request>)
    requires Inv(h) && Backs(UsedMap(h), live) && LegalRun(h, policy, qs)
    ensures Inv(Run(h, policy, qs)) && Run(h, policy, qs).cap == h.cap
    ensures Backs(UsedMap(Run(h, policy, qs)), Ledger(h, policy, live, qs))
    decreases |qs|
  {
    hide Inv, UsedMap, Alloc, Free;
    if qs != [] {
      match qs[0] {
        case Want(need) =>
          AllocUsed(h, policy, need);
          AllocCap(h, policy, need);
          var x := Alloc(h, policy, need).1;
          RunSafe(Step(h, policy, qs[0]), policy, if x.Some? then live[x.value := need] else live, qs[1..]);
        case Give(x) =>
          FreeUsed(h, x);
          FreeCap(h, x);
          RunSafe(Step(h, policy, qs[0]), policy, live - {x}, qs[1..]);
      }
    }
  }

  /** Live requests never overlap and stay inside the heap. */
  lemma LiveDisjoint(h: Heap, policy: Policy, live: map<nat, nat>, qs: seq<Request>, x: nat, y: nat)
    requires Inv(h) && Backs(UsedMap(h), live) && LegalRun(h, policy, qs)
    requires var l := Ledger(h, policy, live, qs); x in l && y in l && x < y
    ensures var l := Ledger(h, policy, live, qs); x + l[x] <= y && y + l[y] <= h.cap
  {
    hide Inv, UsedMap, Ledger, LegalRun, Run;
    RunSafe(h, policy, live, qs);
    UsedApart(Run(h, policy, qs), x, y);
  }

  lemma UsedApart(h: Heap, x: nat, y: nat)
    requires Inv(h) && x in UsedMap(h).Keys && y in UsedMap(h).Keys && x < y
    ensures x + UsedMap(h)[x] <= y && y + UsedMap(h)[y] <= h.cap
  {
    BlockFacts(h, y);
    hide Shaped, Coalesced, ListExact, CursorOk;
  }

  ghost function Gives(xs: seq<nat>): (qs: seq<Request>)
    ensures |qs| == |xs| && forall i :: 0 <= i < |xs| ==> qs[i] == Give(xs[i])
  {
    seq(|xs|, i requires 0 <= i < |xs| => Give(xs[i]))
  }

  /** Freeing every used block, in any order, coalesces the heap back into one free block. */
  lemma {:induction false} FreeEverything(h: Heap, policy: Policy, xs: seq<nat>)
    requires Inv(h) && NoDup(xs) && forall x: nat :: x in xs <==> x in UsedMap(h)
    ensures LegalRun(h, policy, Gives(xs))
    ensures Run(h, policy, Gives(xs)).blocks == map[0 := Block(h.cap, false)]
    decreases |xs|
  {
    hide Inv, UsedMap, IsUsed, Free, NoDup;
    if xs == [] {
      assert UsedMap(h) == map[];
      AllFreeIsInitial(h);
    } else {
      UsedFacts(h, xs[0]);
      FreeUsed(h, xs[0]);
      FreeCap(h, xs[0]);
      TailSet(xs);
      FreeEverything(Free(h, xs[0]), policy, xs[1..]);
      assert Gives(xs)[1..] == Gives(xs[1..]);
    }
  }

  lemma FreeCap(h: Heap, x: nat)
    requires Inv(h) && IsUsed(h, x)
    ensures Free(h, x).cap == h.cap
  {
    hide Inv;
  }

  // ----- Accounting -----

  ghost function UsedBytes(h: Heap): (s: nat) {
    SizeBelow(UsedMap(h), h.cap)
  }
}
