/** The free-list heap as a value: blocks by start offset, the circular free list from its head, and the
    Next-Fit cursor. A block the running operation holds counts as used, so every intermediate state is
    again a well-formed heap. */
module FreeSpec {
  import opened Seqs

  const NIL: int := -1
  const MIN_BLOCK: nat := 32

  datatype Block = Block(size: nat, used: bool)

  datatype Heap = Heap(cap: nat, blocks: map<nat, Block>, list: seq<nat>, cursor: int)

  datatype Policy = FirstFit | BestFit | NextFit

  // ----- Well-formedness -----

  predicate IsFree(h: Heap, x: nat) {
    x in h.blocks && !h.blocks[x].used
  }

  predicate IsUsed(h: Heap, x: nat) {
    x in h.blocks && h.blocks[x].used
  }

  /** One past the last byte of block x. */
  function End(h: Heap, x: nat): (e: nat)
    requires x in h.blocks
  {
    x + h.blocks[x].size
  }

  ghost predicate BlockOk(h: Heap, x: nat) {
    x in h.blocks ==>
      && h.blocks[x].size >= MIN_BLOCK && h.blocks[x].size % 16 == 0 && x % 16 == 0
      && End(h, x) <= h.cap && (End(h, x) < h.cap ==> End(h, x) in h.blocks)
  }

  ghost predicate Shaped(h: Heap) {
    h.cap > 0 && 0 in h.blocks && forall x {:trigger BlockOk(h, x)} :: BlockOk(h, x)
  }

  ghost predicate Disjoint(h: Heap) {
    forall x, y :: x in h.blocks && y in h.blocks && x < y ==> End(h, x) <= y
  }

  ghost predicate Apart(h: Heap, x: nat) {
    IsFree(h, x) ==> !IsFree(h, End(h, x))
  }

  /** No two adjacent free blocks. */
  ghost predicate Coalesced(h: Heap) {
    forall x {:trigger Apart(h, x)} :: Apart(h, x)
  }

  ghost predicate ListExact(h: Heap) {
    NoDup(h.list) && forall x :: x in h.list <==> IsFree(h, x)
  }

  ghost predicate CursorOk(h: Heap) {
    if h.list == [] then h.cursor == NIL else h.cursor in h.list
  }

  /** Blocks tile the heap, free neighbours are coalesced, the list holds exactly the free blocks and the
      cursor is one of them. */
  ghost predicate Inv(h: Heap) {
    Shaped(h) && Disjoint(h) && Coalesced(h) && ListExact(h) && CursorOk(h)
  }

  function Initial(cap: nat): (h: Heap) {
    Heap(cap, map[0 := Block(cap, false)], [0], 0)
  }

  // ----- The circular list -----

  /** The element after x, cyclically; NIL if x is absent. */
  function After(s: seq<nat>, x: nat): (y: int) {
    if x !in s then NIL
    else
      var i := IndexOf(s, x);
      if i + 1 < |s| then s[i + 1] else s[0]
  }

  function IndexOf(s: seq<nat>, x: nat): (i: nat)
    requires x in s
    ensures i < |s| && s[i] == x
  {
    if s[0] == x then 0 else 1 + IndexOf(s[1..], x)
  }

  /** A new node goes right after the head. */
  function Inserted(s: seq<nat>, x: nat): (r: seq<nat>) {
    if s == [] then [x] else [s[0], x] + s[1..]
  }

  function CursorAfterUnlink(h: Heap, x: nat): (c: int) {
    if |h.list| <= 1 then NIL else if h.cursor == x then After(h.list, x) else h.cursor
  }

  // ----- Primitive steps -----

  /** Takes the free block x out of the list into the hands of the running operation. */
  function Take(h: Heap, x: nat): (r: Heap)
    requires x in h.blocks
  {
    h.(blocks := h.blocks[x := h.blocks[x].(used := true)], list := Remove<nat>(h.list, x),
       cursor := CursorAfterUnlink(h, x))
  }

  /** Puts the held block x into the list. */
  function Release(h: Heap, x: nat): (r: Heap)
    requires x in h.blocks
  {
    h.(blocks := h.blocks[x := h.blocks[x].(used := false)], list := Inserted(h.list, x),
       cursor := if h.cursor == NIL then x else h.cursor)
  }

  /** Cuts the held block x to `need` bytes; the rest becomes a free block. */
  function SplitOff(h: Heap, x: nat, need: nat): (r: Heap)
    requires x in h.blocks && need <= h.blocks[x].size
  {
    var y := x + need;
    h.(blocks := h.blocks[x := Block(need, true)][y := Block(h.blocks[x].size - need, false)],
       list := Inserted(h.list, y), cursor := if h.cursor == NIL then y else h.cursor)
  }

  /** Joins the held block x with the held block right after it. */
  function Join(h: Heap, x: nat): (r: Heap)
    requires x in h.blocks && End(h, x) in h.blocks
  {
    var y := End(h, x);
    h.(blocks := (h.blocks - {y})[x := Block(h.blocks[x].size + h.blocks[y].size, true)])
  }

  // ----- Each step keeps the invariant -----

  lemma InitialInv(cap: nat)
    requires cap >= MIN_BLOCK && cap % 16 == 0
    ensures Inv(Initial(cap))
  {
  }

  lemma AfterIn(s: seq<nat>, x: nat)
    requires NoDup(s) && x in s && |s| > 1
    ensures After(s, x) in s && After(s, x) != x
  {
  }

  lemma InsertedExact(s: seq<nat>, x: nat)
    requires NoDup(s) && x !in s
    ensures NoDup(Inserted(s, x)) && forall y :: y in Inserted(s, x) <==> y == x || y in s
  {
    if s != [] {
      var r, t := Inserted(s, x), s[1..];
      assert forall y :: y in s <==> y == s[0] || y in t;
      assert forall y :: y in r <==> y == s[0] || y == x || y in t;
    }
  }

  lemma RemovedShorter(s: seq<nat>, x: nat)
    requires NoDup(s) && x in s
    ensures |Remove<nat>(s, x)| == |s| - 1
  {
    RemoveAt(s, IndexOf(s, x));
  }

  lemma TakeLists(h: Heap, x: nat)
    requires Inv(h) && IsFree(h, x)
    ensures ListExact(Take(h, x)) && CursorOk(Take(h, x))
  {
    hide Shaped, Disjoint, Coalesced, After, Remove;
    var r := Take(h, x);
    RemoveExact(h.list, x);
    RemovedShorter(h.list, x);
    if |h.list| > 1 {
      AfterIn(h.list, x);
    }
  }

  lemma TakeInv(h: Heap, x: nat)
    requires Inv(h) && IsFree(h, x)
    ensures Inv(Take(h, x)) && IsUsed(Take(h, x), x)
  {
    TakeLists(h, x);
    hide ListExact, CursorOk, CursorAfterUnlink, Remove;
    var r := Take(h, x);
    forall y ensures BlockOk(r, y) && Apart(r, y) {
      assert BlockOk(h, y) && Apart(h, y);
    }
  }

  lemma ReleaseInv(h: Heap, x: nat)
    requires Inv(h) && IsUsed(h, x) && !IsFree(h, End(h, x))
    requires forall z :: z in h.blocks && End(h, z) == x ==> !IsFree(h, z)
    ensures Inv(Release(h, x)) && IsFree(Release(h, x), x)
  {
    ReleaseLists(h, x);
    hide ListExact, CursorOk, Inserted;
    var r := Release(h, x);
    forall y ensures BlockOk(r, y) && Apart(r, y) {
      assert BlockOk(h, y) && Apart(h, y);
    }
  }

  lemma ReleaseLists(h: Heap, x: nat)
    requires ListExact(h) && CursorOk(h) && IsUsed(h, x)
    ensures ListExact(Release(h, x)) && CursorOk(Release(h, x))
  {
    InsertedExact(h.list, x);
    hide Inserted;
  }

  lemma SplitShaped(h: Heap, x: nat, need: nat)
    requires Shaped(h) && Disjoint(h) && x in h.blocks
    requires MIN_BLOCK <= need && need % 16 == 0 && need + MIN_BLOCK <= h.blocks[x].size
    ensures Shaped(SplitOff(h, x, need)) && Disjoint(SplitOff(h, x, need)) && x + need !in h.blocks
  {
    hide Disjoint, Inserted;
    SplitDisjoint(h, x, need);
    var r := SplitOff(h, x, need);
    assert BlockOk(h, x);
    forall z ensures BlockOk(r, z) {
      assert BlockOk(h, z);
    }
  }

  lemma SplitDisjoint(h: Heap, x: nat, need: nat)
    requires Disjoint(h) && x in h.blocks && 0 < need < h.blocks[x].size
    ensures Disjoint(SplitOff(h, x, need)) && x + need !in h.blocks
  {
    hide Inserted;
    var r, y := SplitOff(h, x, need), x + need;
    assert y !in h.blocks;
    forall u, v | u in r.blocks && v in r.blocks && u < v ensures End(r, u) <= v {
      assert u == y || u in h.blocks;
      assert v == y || v in h.blocks;
    }
  }

  lemma SplitInv(h: Heap, x: nat, need: nat)
    requires Inv(h) && IsUsed(h, x) && !IsFree(h, End(h, x))
    requires MIN_BLOCK <= need && need % 16 == 0 && need + MIN_BLOCK <= h.blocks[x].size
    ensures Inv(SplitOff(h, x, need)) && SplitOff(h, x, need).blocks[x] == Block(need, true)
  {
    hide Shaped, Disjoint, Inserted, ListExact, CursorOk;
    SplitShaped(h, x, need);
    SplitLists(h, x, need);
    var r, y := SplitOff(h, x, need), x + need;
    forall z ensures Apart(r, z) {
      assert Apart(h, z);
      if z in h.blocks && z != x {
        EndNotInside(h, z, x, y);
      }
    }
  }

  lemma SplitLists(h: Heap, x: nat, need: nat)
    requires ListExact(h) && CursorOk(h) && IsUsed(h, x) && 0 < need <= h.blocks[x].size && x + need !in h.blocks
    ensures ListExact(SplitOff(h, x, need)) && CursorOk(SplitOff(h, x, need))
  {
    InsertedExact(h.list, x + need);
    hide Inserted;
  }

  /** No block ends strictly inside another. */
  lemma EndNotInside(h: Heap, z: nat, x: nat, y: nat)
    requires Shaped(h) && Disjoint(h) && z in h.blocks && x in h.blocks && x < y < End(h, x)
    ensures End(h, z) != y
  {
    assert BlockOk(h, z) && BlockOk(h, x);
  }

  lemma JoinShaped(h: Heap, x: nat)
    requires Shaped(h) && Disjoint(h) && x in h.blocks && End(h, x) in h.blocks
    ensures Shaped(Join(h, x)) && Disjoint(Join(h, x))
  {
    hide Disjoint;
    JoinDisjoint(h, x);
    var r, y := Join(h, x), End(h, x);
    assert BlockOk(h, x) && BlockOk(h, y);
    assert y > x;
    forall z ensures BlockOk(r, z) {
      assert BlockOk(h, z);
      if z in h.blocks && z != x && End(h, z) == y {
        OneBefore(h, z, x);
      }
    }
  }

  lemma JoinDisjoint(h: Heap, x: nat)
    requires Shaped(h) && Disjoint(h) && x in h.blocks && End(h, x) in h.blocks
    ensures Disjoint(Join(h, x))
  {
    var r, y := Join(h, x), End(h, x);
    assert BlockOk(h, x) && BlockOk(h, y);
    hide Shaped;
    forall u, v | u in r.blocks && v in r.blocks && u < v ensures End(r, u) <= v {
      assert u in h.blocks && v in h.blocks && v != y;
      if u == x {
        assert y < v;
      }
    }
  }

  /** Two blocks ending at the same place are the same block. */
  lemma OneBefore(h: Heap, z: nat, x: nat)
    requires Shaped(h) && Disjoint(h) && z in h.blocks && x in h.blocks && End(h, z) == End(h, x)
    ensures z == x
  {
    assert BlockOk(h, z) && BlockOk(h, x);
  }

  lemma JoinInv(h: Heap, x: nat)
    requires Inv(h) && IsUsed(h, x) && IsUsed(h, End(h, x))
    ensures Inv(Join(h, x)) && IsUsed(Join(h, x), x)
  {
    JoinShaped(h, x);
    var r, y := Join(h, x), End(h, x);
    assert BlockOk(h, x);
    assert y != x;
    hide Shaped, Disjoint;
    forall z ensures Apart(r, z) {
      assert Apart(h, z);
    }
  }

  // ----- Fit search -----

  /** The first block of `order` that holds `need` bytes. */
  function FirstIn(h: Heap, order: seq<nat>, need: nat): (r: Option<nat>)
    requires forall x :: x in order ==> x in h.blocks
  {
    if order == [] then None
    else if h.blocks[order[0]].size >= need then Some(order[0])
    else FirstIn(h, order[1..], need)
  }

  /** The smallest block of `order` that holds `need` bytes, the earliest among equals. */
  function BestIn(h: Heap, order: seq<nat>, need: nat): (r: Option<nat>)
    requires forall x :: x in order ==> x in h.blocks
    ensures r.Some? ==> r.value in order
  {
    if order == [] then None
    else
      var x, best := order[|order| - 1], BestIn(h, order[..|order| - 1], need);
      if h.blocks[x].size >= need && (best.None? || h.blocks[x].size < h.blocks[best.value].size) then Some(x) else best
  }

  /** One lap of the circular list from element x. */
  function LapFrom(s: seq<nat>, x: nat): (r: seq<nat>)
    requires x in s
    ensures |r| == |s|
  {
    var i := IndexOf(s, x);
    s[i..] + s[..i]
  }

  function Fit(h: Heap, policy: Policy, need: nat): (r: Option<nat>)
    requires forall x :: x in h.list ==> x in h.blocks
    requires h.list != [] ==> h.cursor in h.list
  {
    if h.list == [] then None
    else
      match policy
      case FirstFit => FirstIn(h, h.list, need)
      case BestFit => BestIn(h, h.list, need)
      case NextFit =>
        var lap := LapFrom(h.list, h.cursor);
        assert forall x :: x in lap ==> x in h.list;
        FirstIn(h, lap, need)
  }

  /** Next-Fit leaves the cursor after the block it chose. */
  function Aim(h: Heap, policy: Policy, x: nat): (r: Heap) {
    if policy.NextFit? then h.(cursor := After(h.list, x)) else h
  }

  lemma AimInv(h: Heap, policy: Policy, x: nat)
    requires Inv(h) && x in h.list
    ensures Inv(Aim(h, policy, x))
  {
    hide Disjoint;
    var r := Aim(h, policy, x);
    forall y ensures BlockOk(r, y) && Apart(r, y) {
      assert BlockOk(h, y) && Apart(h, y);
    }
    assert Disjoint(h);
    SameDisjoint(h, r);
  }

  lemma SameDisjoint(h: Heap, r: Heap)
    requires h.blocks == r.blocks && Disjoint(h)
    ensures Disjoint(r)
  {
  }

  // ----- Operations -----

  /** What surrounds a free block is in use. */
  lemma TakeFree(h: Heap, x: nat)
    requires Inv(h) && IsFree(h, x)
    ensures var t := Take(h, x);
            Inv(t) && IsUsed(t, x) && t.blocks[x].size == h.blocks[x].size && !IsFree(t, End(t, x))
  {
    TakeInv(h, x);
    assert Apart(h, x);
    hide Inv;
  }

  ghost function Carve(h: Heap, x: nat, need: nat): (r: Heap)
    requires Inv(h) && IsFree(h, x) && MIN_BLOCK <= need <= h.blocks[x].size && need % 16 == 0
    ensures Inv(r)
  {
    TakeFree(h, x);
    var t := Take(h, x);
    if h.blocks[x].size - need >= MIN_BLOCK then
      SplitInv(t, x, need);
      SplitOff(t, x, need)
    else t
  }

  ghost function Alloc(h: Heap, policy: Policy, need: nat): (r: (Heap, Option<nat>))
    requires Inv(h) && MIN_BLOCK <= need && need % 16 == 0
    ensures Inv(r.0)
  {
    var x := Fit(h, policy, need);
    if x.None? then (h, None)
    else
      FitFits(h, policy, need);
      AimInv(h, policy, x.value);
      (Carve(Aim(h, policy, x.value), x.value, need), x)
  }

  /** Absorbs the free block after the held block x, if there is one. */
  ghost function JoinNext(h: Heap, x: nat): (r: Heap)
    requires Inv(h) && IsUsed(h, x)
    ensures Inv(r) && IsUsed(r, x) && !IsFree(r, End(r, x))
  {
    var y := End(h, x);
    if IsFree(h, y) then
      JoinNextReady(h, x);
      Join(Take(h, y), x)
    else h
  }

  lemma JoinNextReady(h: Heap, x: nat)
    requires Inv(h) && IsUsed(h, x) && IsFree(h, End(h, x))
    ensures var y := End(h, x);
            var t := Take(h, y);
            && Inv(t) && IsUsed(t, x) && IsUsed(t, y) && End(t, x) == y
            && Inv(Join(t, x)) && IsUsed(Join(t, x), x) && !IsFree(Join(t, x), End(Join(t, x), x))
  {
    var y := End(h, x);
    BlockFacts(h, x);
    hide Inv, Remove, CursorAfterUnlink;
    TakeFree(h, y);
    JoinInv(Take(h, y), x);
  }

  lemma BlockFacts(h: Heap, x: nat)
    requires Inv(h) && x in h.blocks
    ensures h.blocks[x].size >= MIN_BLOCK && End(h, x) <= h.cap && End(h, x) != x
    ensures End(h, x) < h.cap ==> End(h, x) in h.blocks
  {
    assert BlockOk(h, x);
    hide Disjoint, Coalesced, ListExact, CursorOk;
  }

  /** Is absorbed by the free block before the held block x, if there is one, and goes to the list. */
  ghost function JoinPrev(h: Heap, x: nat, p: int): (r: Heap)
    requires Inv(h) && IsUsed(h, x) && !IsFree(h, End(h, x)) && IsPrev(h, x, p)
    ensures Inv(r)
  {
    if p != NIL && IsFree(h, p) then
      JoinPrevReady(h, x, p);
      Release(Join(Take(h, p), p), p)
    else
      PrevNotFree(h, x, p);
      ReleaseInv(h, x);
      Release(h, x)
  }

  /** p is the start of the block right before x, NIL for the first block. */
  ghost predicate IsPrev(h: Heap, x: nat, p: int) {
    if x == 0 then p == NIL else 0 <= p && p in h.blocks && End(h, p) == x
  }

  lemma PrevNotFree(h: Heap, x: nat, p: int)
    requires Shaped(h) && Disjoint(h) && x in h.blocks && IsPrev(h, x, p) && (p == NIL || !IsFree(h, p))
    ensures forall z :: z in h.blocks && End(h, z) == x ==> !IsFree(h, z)
  {
    forall z | z in h.blocks && End(h, z) == x ensures !IsFree(h, z) {
      assert BlockOk(h, z);
      if x > 0 {
        OneBefore(h, z, p);
      }
    }
  }

  lemma JoinPrevReady(h: Heap, x: nat, p: nat)
    requires Inv(h) && IsUsed(h, x) && !IsFree(h, End(h, x)) && IsPrev(h, x, p) && IsFree(h, p)
    ensures var t := Take(h, p);
            && Inv(t) && IsUsed(t, p) && End(t, p) == x && IsUsed(t, x)
            && Inv(Join(t, p)) && IsUsed(Join(t, p), p) && Inv(Release(Join(t, p), p))
  {
    BlockFacts(h, p);
    BlockFacts(h, x);
    FreeAlone(h, p);
    hide Inv, Remove, CursorAfterUnlink, Inserted;
    TakeFree(h, p);
    var t := Take(h, p);
    JoinInv(t, p);
    AloneAfterJoin(h, x, p);
    hide Take, Join;
    ReleaseInv(Join(t, p), p);
  }

  lemma AloneAfterJoin(h: Heap, x: nat, p: nat)
    requires p in h.blocks && x in h.blocks && End(h, p) == x && x != p && h.blocks[p].size > 0 && h.blocks[x].size > 0
    requires !IsFree(h, End(h, x)) && (forall z :: z in h.blocks && End(h, z) == p ==> !IsFree(h, z))
    ensures var j := Join(Take(h, p), p);
            && (forall z :: z in j.blocks && End(j, z) == p ==> !IsFree(j, z))
            && !IsFree(j, End(j, p))
  {
    hide Remove, CursorAfterUnlink;
    var j := Join(Take(h, p), p);
    forall z | z in j.blocks && End(j, z) == p ensures !IsFree(j, z) {
      assert z != p ==> End(h, z) == p;
    }
  }

  /** No free block ends where a free block starts. */
  lemma FreeAlone(h: Heap, p: nat)
    requires Coalesced(h) && IsFree(h, p)
    ensures forall z :: z in h.blocks && End(h, z) == p ==> !IsFree(h, z)
  {
    forall z | z in h.blocks && End(h, z) == p ensures !IsFree(h, z) {
      assert Apart(h, z);
    }
  }

  ghost function PrevOf(h: Heap, x: nat): (p: int)
    requires Inv(h) && x in h.blocks
    ensures IsPrev(h, x, p)
  {
    if x == 0 then NIL
    else
      PrevExists(h, x);
      var p: nat :| p in h.blocks && End(h, p) == x;
      p
  }

  /** Every block but the first has one right before it. */
  lemma PrevExists(h: Heap, x: nat)
    requires Shaped(h) && Disjoint(h) && x in h.blocks && x > 0
    ensures exists p: nat :: p in h.blocks && End(h, p) == x
  {
    var p: nat := 0;
    assert BlockOk(h, x);
    while End(h, p) != x
      invariant p in h.blocks && p < x
      decreases x - p
    {
      assert BlockOk(h, p);
      p := End(h, p);
    }
  }

  ghost function Free(h: Heap, x: nat): (r: Heap)
    requires Inv(h) && IsUsed(h, x)
    ensures Inv(r)
  {
    var j := JoinNext(h, x);
    JoinPrev(j, x, PrevOf(j, x))
  }

  // ----- The search finds a fit exactly when there is one -----

  lemma {:induction false} FirstInFits(h: Heap, order: seq<nat>, need: nat)
    requires forall x :: x in order ==> x in h.blocks
    ensures var r := FirstIn(h, order, need);
            && (r.None? <==> forall x :: x in order ==> h.blocks[x].size < need)
            && (r.Some? ==> exists i :: 0 <= i < |order| && order[i] == r.value && h.blocks[r.value].size >= need
                                        && forall j :: 0 <= j < i ==> h.blocks[order[j]].size < need)
  {
    if order != [] {
      var t := order[1..];
      assert order[0] in order;
      assert forall x :: x in order <==> x == order[0] || x in t;
      FirstInFits(h, t, need);
      var r := FirstIn(h, order, need);
      if h.blocks[order[0]].size >= need {
        assert order[0] == r.value;
      } else if r.Some? {
        var i :| 0 <= i < |t| && t[i] == r.value && forall j :: 0 <= j < i ==> h.blocks[t[j]].size < need;
        assert order[i + 1] == r.value;
        forall j | 0 <= j < i + 1 ensures h.blocks[order[j]].size < need {
          if j > 0 {
            assert order[j] == t[j - 1];
          }
        }
      }
    }
  }

  lemma {:induction false} BestInFits(h: Heap, order: seq<nat>, need: nat)
    requires forall x :: x in order ==> x in h.blocks
    ensures var r := BestIn(h, order, need);
            && (r.None? <==> forall x :: x in order ==> h.blocks[x].size < need)
            && (r.Some? ==> h.blocks[r.value].size >= need
                            && forall x :: x in order && h.blocks[x].size >= need ==>
                                 h.blocks[r.value].size <= h.blocks[x].size)
  {
    if order != [] {
      var t, last := order[..|order| - 1], order[|order| - 1];
      assert last in order;
      assert forall x :: x in order <==> x == last || x in t;
      BestInFits(h, t, need);
    }
  }

  lemma LapSame(s: seq<nat>, x: nat)
    requires x in s
    ensures forall y :: y in LapFrom(s, x) <==> y in s
  {
    var i := IndexOf(s, x);
    assert s == s[..i] + s[i..];
  }

  /** Whatever the policy, the chosen block is free and large enough. */
  lemma FitFits(h: Heap, policy: Policy, need: nat)
    requires Inv(h)
    ensures var r := Fit(h, policy, need);
            && (r.None? <==> forall x :: IsFree(h, x) ==> h.blocks[x].size < need)
            && (r.Some? ==> r.value in h.list && IsFree(h, r.value) && h.blocks[r.value].size >= need)
  {
    hide Shaped, Disjoint, Coalesced, FirstIn, BestIn, LapFrom;
    if h.list != [] {
      match policy {
        case FirstFit => FirstInFits(h, h.list, need);
        case BestFit => BestInFits(h, h.list, need);
        case NextFit =>
          LapSame(h.list, h.cursor);
          FirstInFits(h, LapFrom(h.list, h.cursor), need);
      }
    }
  }
}
