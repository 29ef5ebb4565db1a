/** Block headers in memory: the word at x holds the size with the used flag in its lowest bit, the word at
    x + 8 the start of the block right before. */
module FreeHeaders {
  import opened Seqs
  import opened FreeSpec
  import opened FreeLinks

  /** Block x is described by its two header words; the flag of a held block may lag behind. */
  ghost predicate HeaderOk(h: Heap, mem: seq<int>, held: set<nat>, x: nat) {
    x in h.blocks ==>
      && x + 24 < |mem|
      && (mem[x] == h.blocks[x].size || mem[x] == h.blocks[x].size + 1)
      && (x !in held ==> mem[x] == h.blocks[x].size + if h.blocks[x].used then 1 else 0)
      && IsPrev(h, x, mem[x + 8])
  }

  ghost predicate Headers(h: Heap, mem: seq<int>, held: set<nat>) {
    forall x {:trigger HeaderOk(h, mem, held, x)} :: HeaderOk(h, mem, held, x)
  }

  lemma BlocksSpaced(h: Heap)
    requires Inv(h)
    ensures Spaced(h.blocks.Keys) && Within(h.list, h.blocks.Keys) && NoDup(h.list)
    ensures forall x :: x in h.blocks ==> x + MIN_BLOCK <= h.cap && h.blocks[x].size % 2 == 0
  {
    hide Coalesced;
    forall x | x in h.blocks
      ensures x + MIN_BLOCK <= h.cap && h.blocks[x].size % 2 == 0 && h.blocks[x].size >= MIN_BLOCK
    {
      assert BlockOk(h, x);
    }
    forall i | 0 <= i < |h.list| ensures h.list[i] in h.blocks.Keys {
      assert h.list[i] in h.list;
    }
  }

  /** Same header words, same neighbours: the headers stay right. */
  ghost predicate SameHeaderWords(nodes: set<nat>, m0: seq<int>, m1: seq<int>) {
    |m0| == |m1| && forall u :: u in nodes && u + 24 < |m0| ==> m1[u] == m0[u] && m1[u + 8] == m0[u + 8]
  }

  ghost predicate SameLinkWords(nodes: set<nat>, m0: seq<int>, m1: seq<int>) {
    |m0| == |m1| && forall u :: u in nodes && u + 24 < |m0| ==> m1[u + 16] == m0[u + 16] && m1[u + 24] == m0[u + 24]
  }

  lemma CircKept(s: seq<nat>, m0: seq<int>, m1: seq<int>, nodes: set<nat>)
    requires Circ(s, m0) && Within(s, nodes) && SameLinkWords(nodes, m0, m1)
    ensures Circ(s, m1)
  {
    forall i | 0 <= i < |s| ensures NodeOk(s, i, m1) {
      assert NodeOk(s, i, m0);
    }
  }

  lemma HeadersKept(h: Heap, m0: seq<int>, m1: seq<int>, held: set<nat>)
    requires Headers(h, m0, held) && SameHeaderWords(h.blocks.Keys, m0, m1)
    ensures Headers(h, m1, held)
  {
    forall x ensures HeaderOk(h, m1, held, x) {
      assert HeaderOk(h, m0, held, x);
    }
  }

  lemma InsertFrame(s: seq<nat>, mem: seq<int>, x: nat, nodes: set<nat>)
    requires Within(s, nodes) && Spaced(nodes) && x in nodes && x + 24 < |mem|
    requires s != [] ==> s[0] + 24 < |mem| && NextC(s, 0) + 24 < |mem|
    ensures SameHeaderWords(nodes, mem, InsertMem(mem, s, x))
  {
    if s != [] {
      hide InsertMem;
      var n, m := NextC(s, 0), InsertMem(mem, s, x);
      assert s[0] in nodes && n in nodes;
      forall u | u in nodes && u + 24 < |mem| ensures m[u] == mem[u] && m[u + 8] == mem[u + 8] {
        InsertMemAt(mem, s, x, u);
        InsertMemAt(mem, s, x, u + 8);
      }
    }
  }

  lemma UnlinkFrame(s: seq<nat>, mem: seq<int>, i: nat, nodes: set<nat>)
    requires Within(s, nodes) && Spaced(nodes) && i < |s| && NextC(s, i) + 24 < |mem| && PrevC(s, i) + 24 < |mem|
    ensures SameHeaderWords(nodes, mem, UnlinkMem(mem, s, i))
  {
    assert NextC(s, i) in nodes && PrevC(s, i) in nodes;
  }

  lemma TakeHeaders(h: Heap, mem: seq<int>, held: set<nat>, x: nat)
    requires Headers(h, mem, held) && x in h.blocks
    ensures Headers(Take(h, x), mem, held + {x})
  {
    hide Remove, CursorAfterUnlink;
    forall y ensures HeaderOk(Take(h, x), mem, held + {x}, y) {
      assert HeaderOk(h, mem, held, y);
    }
  }

  lemma ReleaseHeaders(h: Heap, mem: seq<int>, x: nat)
    requires Headers(h, mem, {x}) && x in h.blocks && x < |mem| && mem[x] == h.blocks[x].size
    ensures Headers(Release(h, x), mem, {})
  {
    hide Inserted;
    forall y ensures HeaderOk(Release(h, x), mem, {}, y) {
      assert HeaderOk(h, mem, {x}, y);
    }
  }

  ghost function SplitMem(h: Heap, mem: seq<int>, x: nat, need: nat): (r: seq<int>)
    requires x in h.blocks && need <= h.blocks[x].size && x + need + 8 < |mem|
    requires End(h, x) < h.cap ==> End(h, x) + 8 < |mem|
    ensures |r| == |mem|
  {
    var y := x + need;
    var m := mem[y := h.blocks[x].size - need][y + 8 := x];
    (if End(h, x) < h.cap then m[End(h, x) + 8 := y] else m)[x := need + 1]
  }

  /** What the header words of block u read after a split. */
  lemma SplitWords(h: Heap, mem: seq<int>, x: nat, need: nat, u: nat)
    requires Inv(h) && x in h.blocks && |mem| == h.cap
    requires MIN_BLOCK <= need && need % 16 == 0 && need + MIN_BLOCK <= h.blocks[x].size
    requires u in h.blocks
    ensures u + 24 < |mem| && x + need + 8 < |mem|
    ensures (End(h, x) < h.cap ==> End(h, x) in h.blocks && End(h, x) + 8 < |mem|)
    ensures var m := SplitMem(h, mem, x, need);
            && m[u] == (if u == x then need + 1 else mem[u])
            && m[u + 8] == (if u == End(h, x) && u < h.cap then x + need else mem[u + 8])
            && m[u + 16] == mem[u + 16] && m[u + 24] == mem[u + 24]
            && m[x + need] == h.blocks[x].size - need && m[x + need + 8] == x
  {
    BlocksSpaced(h);
    SplitAwayFrom(h, x, need, u);
    BlockFacts(h, x);
    assert End(h, x) < h.cap ==> End(h, x) in h.blocks.Keys;
    hide Inv;
  }

  /** Every block starts before x, at x, or at or after the end of x. */
  lemma SplitAwayFrom(h: Heap, x: nat, need: nat, u: nat)
    requires Inv(h) && x in h.blocks && u in h.blocks && MIN_BLOCK <= need && need + MIN_BLOCK <= h.blocks[x].size
    ensures u == x || u + MIN_BLOCK <= x || x + need + MIN_BLOCK <= u
  {
    BlocksSpaced(h);
    assert u > x ==> End(h, x) <= u;
  }

  lemma SplitHeaders(h: Heap, mem: seq<int>, x: nat, need: nat)
    requires Inv(h) && IsUsed(h, x) && |mem| == h.cap && Headers(h, mem, {x})
    requires MIN_BLOCK <= need && need % 16 == 0 && need + MIN_BLOCK <= h.blocks[x].size
    requires x + need + 8 < |mem| && (End(h, x) < h.cap ==> End(h, x) + 8 < |mem|)
    ensures Headers(SplitOff(h, x, need), SplitMem(h, mem, x, need), {})
  {
    var r, m, y := SplitOff(h, x, need), SplitMem(h, mem, x, need), x + need;
    BlockFacts(h, x);
    forall u ensures HeaderOk(r, m, {}, u) {
      if u in h.blocks {
        assert HeaderOk(h, mem, {x}, u);
        SplitHeader(h, mem, x, need, u);
      } else if u == y {
        SplitNewHeader(h, mem, x, need);
      }
    }
  }

  lemma SplitHeader(h: Heap, mem: seq<int>, x: nat, need: nat, u: nat)
    requires Inv(h) && IsUsed(h, x) && |mem| == h.cap && HeaderOk(h, mem, {x}, u) && u in h.blocks
    requires MIN_BLOCK <= need && need % 16 == 0 && need + MIN_BLOCK <= h.blocks[x].size
    requires x + need + 8 < |mem| && (End(h, x) < h.cap ==> End(h, x) + 8 < |mem|)
    ensures HeaderOk(SplitOff(h, x, need), SplitMem(h, mem, x, need), {}, u)
  {
    SplitWords(h, mem, x, need, u);
    SplitAwayFrom(h, x, need, u);
    BlockFacts(h, u);
    hide Inv, Inserted, SplitMem;
  }

  lemma SplitNewHeader(h: Heap, mem: seq<int>, x: nat, need: nat)
    requires Inv(h) && IsUsed(h, x) && |mem| == h.cap
    requires MIN_BLOCK <= need && need % 16 == 0 && need + MIN_BLOCK <= h.blocks[x].size
    requires x + need + 8 < |mem| && (End(h, x) < h.cap ==> End(h, x) + 8 < |mem|)
    ensures HeaderOk(SplitOff(h, x, need), SplitMem(h, mem, x, need), {}, x + need)
  {
    SplitWords(h, mem, x, need, x);
    BlockFacts(h, x);
    hide Inv, Inserted, SplitMem;
  }

  ghost function JoinMem(h: Heap, mem: seq<int>, x: nat): (r: seq<int>)
    requires x in h.blocks && End(h, x) in h.blocks && x < |mem|
    requires End(h, End(h, x)) < h.cap ==> End(h, End(h, x)) + 8 < |mem|
    ensures |r| == |mem|
  {
    var y := End(h, x);
    var m := mem[x := h.blocks[x].size + h.blocks[y].size];
    if End(h, y) < h.cap then m[End(h, y) + 8 := x] else m
  }

  lemma JoinHeaders(h: Heap, mem: seq<int>, x: nat)
    requires Inv(h) && IsUsed(h, x) && IsUsed(h, End(h, x)) && |mem| == h.cap && Headers(h, mem, {x, End(h, x)})
    requires x < |mem| && (End(h, End(h, x)) < h.cap ==> End(h, End(h, x)) + 8 < |mem|)
    ensures Headers(Join(h, x), JoinMem(h, mem, x), {x})
  {
    var r, m, y := Join(h, x), JoinMem(h, mem, x), End(h, x);
    BlockFacts(h, x);
    hide Inv, JoinMem;
    forall u ensures HeaderOk(r, m, {x}, u) {
      assert HeaderOk(h, mem, {x, y}, u);
      if u in r.blocks {
        JoinHeader(h, mem, x, u);
      }
    }
  }

  lemma JoinHeader(h: Heap, mem: seq<int>, x: nat, u: nat)
    requires Inv(h) && IsUsed(h, x) && IsUsed(h, End(h, x)) && |mem| == h.cap && HeaderOk(h, mem, {x, End(h, x)}, u)
    requires u in h.blocks && u != End(h, x)
    requires x < |mem| && (End(h, End(h, x)) < h.cap ==> End(h, End(h, x)) + 8 < |mem|)
    ensures HeaderOk(Join(h, x), JoinMem(h, mem, x), {x}, u)
  {
    hide Inv, JoinMem;
    JoinWords(h, mem, x, u);
    BlockFacts(h, x);
  }

  /** What the words of block u read after a join. */
  lemma JoinWords(h: Heap, mem: seq<int>, x: nat, u: nat)
    requires Inv(h) && x in h.blocks && End(h, x) in h.blocks && |mem| == h.cap && u in h.blocks
    ensures u + 24 < |mem| && x < |mem| && (End(h, End(h, x)) < h.cap ==> End(h, End(h, x)) + 8 < |mem|)
    ensures var m, y := JoinMem(h, mem, x), End(h, x);
            && m[u] == (if u == x then h.blocks[x].size + h.blocks[y].size else mem[u])
            && m[u + 8] == (if u == End(h, y) then x else mem[u + 8])
            && m[u + 16] == mem[u + 16] && m[u + 24] == mem[u + 24]
  {
    hide Inv;
    var y := End(h, x);
    BlockFacts(h, x);
    BlockFacts(h, y);
    BlocksSpaced(h);
    assert u in h.blocks.Keys && x in h.blocks.Keys;
    if End(h, y) < h.cap {
      assert End(h, y) in h.blocks.Keys;
    }
  }

  // ----- What the operations may write -----

  /** The word at y belongs to the allocator: a header word of some block, or a link word of a free one. */
  predicate Bookkeeping(h: Heap, y: nat) {
    || y in h.blocks || (y >= 8 && y - 8 in h.blocks)
    || (y >= 16 && IsFree(h, y - 16)) || (y >= 24 && IsFree(h, y - 24))
  }

  /** On the way from heap h to heap r only words that belong to the allocator before or after changed. */
  ghost predicate Tidy(h: Heap, r: Heap, m0: seq<int>, m1: seq<int>) {
    |m0| == |m1| && forall y :: 0 <= y < |m0| && m1[y] != m0[y] ==> Bookkeeping(h, y) || Bookkeeping(r, y)
  }

  ghost predicate LinksOnly(s: seq<nat>, m0: seq<int>, m1: seq<int>) {
    |m0| == |m1| && forall y :: 0 <= y < |m0| && m1[y] != m0[y] ==> (y >= 16 && y - 16 in s) || (y >= 24 && y - 24 in s)
  }

  /** The blocks and the free blocks of t are among those of h. */
  ghost predicate Less(t: Heap, h: Heap) {
    forall u: nat :: (u in t.blocks ==> u in h.blocks) && (IsFree(t, u) ==> IsFree(h, u))
  }

  lemma InsertLinks(s: seq<nat>, mem: seq<int>, x: nat)
    requires x + 24 < |mem| && (s != [] ==> s[0] + 24 < |mem| && NextC(s, 0) + 24 < |mem|)
    ensures LinksOnly(Inserted(s, x), mem, InsertMem(mem, s, x))
  {
    if s != [] {
      var t := Inserted(s, x);
      assert t[0] == s[0] && t[1] == x;
      assert |s| > 1 ==> t[2] == s[1];
    }
  }

  lemma UnlinkLinks(s: seq<nat>, mem: seq<int>, i: nat)
    requires i < |s| && NextC(s, i) + 24 < |mem| && PrevC(s, i) + 24 < |mem|
    ensures LinksOnly(s, mem, UnlinkMem(mem, s, i))
  {
    assert NextC(s, i) in s && PrevC(s, i) in s;
  }

  lemma LinksTidy(h: Heap, r: Heap, s: seq<nat>, m0: seq<int>, m1: seq<int>)
    requires LinksOnly(s, m0, m1)
    requires (forall u :: u in s ==> IsFree(h, u)) || (forall u :: u in s ==> IsFree(r, u))
    ensures Tidy(h, r, m0, m1)
  {
  }

  lemma TidyThen(h: Heap, t: Heap, r: Heap, m0: seq<int>, m1: seq<int>, m2: seq<int>)
    requires Tidy(h, t, m0, m1) && Tidy(t, r, m1, m2) && (Less(t, h) || Less(t, r))
    ensures Tidy(h, r, m0, m2)
  {
    forall y: nat | y < |m0| && m2[y] != m0[y] ensures Bookkeeping(h, y) || Bookkeeping(r, y) {
      assert m1[y] != m0[y] || m2[y] != m1[y];
    }
  }

  lemma TakeLess(h: Heap, x: nat)
    requires x in h.blocks
    ensures Less(Take(h, x), h)
  {
    hide Remove, CursorAfterUnlink;
  }

  lemma JoinLess(h: Heap, x: nat)
    requires x in h.blocks && End(h, x) in h.blocks
    ensures Less(Join(h, x), h)
  {
  }

  lemma LessTrans(a: Heap, b: Heap, c: Heap)
    requires Less(a, b) && Less(b, c)
    ensures Less(a, c)
  {
  }

  lemma SplitTidy(h: Heap, mem: seq<int>, x: nat, need: nat)
    requires x in h.blocks && need <= h.blocks[x].size && x + need + 8 < |mem|
    requires End(h, x) < h.cap ==> End(h, x) + 8 < |mem| && End(h, x) in h.blocks
    ensures Tidy(h, SplitOff(h, x, need), mem, SplitMem(h, mem, x, need))
  {
    hide Inserted;
    var r := SplitOff(h, x, need);
    assert x in r.blocks && x + need in r.blocks;
  }

  lemma JoinTidy(h: Heap, mem: seq<int>, x: nat)
    requires x in h.blocks && End(h, x) in h.blocks && x < |mem|
    requires End(h, End(h, x)) < h.cap ==> End(h, End(h, x)) + 8 < |mem| && End(h, End(h, x)) in h.blocks
    ensures Tidy(h, Join(h, x), mem, JoinMem(h, mem, x))
  {
  }

  /** The payload of block u. */
  ghost predicate SamePayload(h: Heap, u: nat, m0: seq<int>, m1: seq<int>)
    requires u in h.blocks
  {
    |m0| == |m1| && forall y :: u + 16 <= y < End(h, u) && y < |m0| ==> m1[y] == m0[y]
  }

  /** A block in use before and after keeps its payload. */
  lemma PayloadKept(h: Heap, r: Heap, m0: seq<int>, m1: seq<int>, u: nat)
    requires Inv(h) && Inv(r) && Tidy(h, r, m0, m1)
    requires IsUsed(h, u) && IsUsed(r, u) && h.blocks[u].size == r.blocks[u].size
    ensures SamePayload(h, u, m0, m1)
  {
    hide Inv;
    forall y | u + 16 <= y < End(h, u) && y < |m0| ensures m1[y] == m0[y] {
      NotBookkeeping(h, u, y);
      NotBookkeeping(r, u, y);
    }
  }

  lemma NotBookkeeping(h: Heap, u: nat, y: nat)
    requires Inv(h) && IsUsed(h, u) && u + 16 <= y < End(h, u)
    ensures !Bookkeeping(h, y)
  {
    hide Coalesced, ListExact, CursorOk;
    assert BlockOk(h, u);
    assert y !in h.blocks && y - 8 !in h.blocks;
    if y - 16 in h.blocks {
      assert BlockOk(h, y - 16);
    }
    if y >= 24 && y - 24 in h.blocks {
      assert BlockOk(h, y - 24);
    }
  }
}
