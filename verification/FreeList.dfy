/** The free-list allocator: boundary tags, a circular free list with a Next-Fit cursor, three placement
    policies and two-sided coalescing, all in one memory. */
module FreeList {
  import opened Powers
  import opened Platform
  import opened HeapWalk
  import opened Seqs
  import opened FreeSpec
  import opened FreeTheorems
  import opened FreePolicies
  import opened FreeLinks
  import opened FreeHeaders

  const HEADER: nat := 16

  /** Bytes a request takes with its header, on 64-bit words; an over-aligned request asks for its alignment on top. */
  function NeedOf(size: nat, alignment: nat): (n: nat)
    ensures n >= MIN_BLOCK
  {
    var s := if size == 0 then 1 else size;
    var asked := if alignment > 16 then (s + alignment) % WORD else s;
    var n := AlignUp((HEADER + asked) % WORD, 16);
    if n < MIN_BLOCK then MIN_BLOCK else n
  }

  lemma NeedAligned(size: nat, alignment: nat)
    ensures NeedOf(size, alignment) % 16 == 0
  {
    hide Pow2, And, Aligned;
    WordIsPow2();
    Pow2Small();
    var s := if size == 0 then 1 else size;
    var asked := if alignment > 16 then (s + alignment) % WORD else s;
    var x := ((HEADER + asked) % WORD + 15) % WORD;
    AndHighMask(x, 4, 64);
    SixteenAligned(And(x, WORD - 16));
  }

  lemma SixteenAligned(x: nat)
    requires Aligned(x, 4)
    ensures x % 16 == 0
  {
    assert Aligned(x / 2, 3);
    assert Aligned(x / 2 / 2, 2);
    assert Aligned(x / 2 / 2 / 2, 1);
  }

  function Larger(a: nat, b: nat): (n: nat) {
    if a < b then b else a
  }

  /** What an over-aligned request asks for on top of its size. */
  function Extra(alignment: nat): (n: nat) {
    if alignment > 16 then alignment else 0
  }

  /** The block asked for holds header, payload and alignment exactly when payload and alignment are at most 2^64 - 32
      bytes: above that the size computation wraps. */
  lemma NeedHoldsIff(size: nat, alignment: nat)
    requires 0 < size < WORD && alignment < WORD
    ensures NeedOf(size, alignment) >= HEADER + size + Extra(alignment) <==> size + Extra(alignment) <= WORD - 32
  {
    hide AlignUp;
    var asked := if alignment > 16 then (size + alignment) % WORD else size;
    RoundedUp((HEADER + asked) % WORD);
  }

  /** A request that does not wrap asks for the least multiple of 16, from 32 on, that holds header, payload and
      alignment. */
  lemma NeedIsLeast(size: nat, alignment: nat, m: nat)
    requires Larger(size, 1) + Extra(alignment) <= WORD - 32 && m % 16 == 0
    ensures NeedOf(size, alignment) <= m <==> m >= MIN_BLOCK && m >= HEADER + Larger(size, 1) + Extra(alignment)
  {
    hide AlignUp;
    NeedAligned(size, alignment);
    RoundedUp(HEADER + Larger(size, 1) + Extra(alignment));
  }

  /** Rounding up to 16 adds less than 16, or wraps to less than 16. */
  lemma RoundedUp(n: nat)
    requires n < WORD
    ensures if n + 16 <= WORD then n <= AlignUp(n, 16) < n + 16 else AlignUp(n, 16) < 16
  {
    hide Pow2, And, Aligned;
    WordIsPow2();
    Pow2Small();
    if n + 16 <= WORD {
      AlignUpLeast(n, 4);
    } else {
      AndHighMask((n + 15) % WORD, 4, 64);
    }
  }

  /** For example: 2^64 - 32 bytes aligned to 32 are given a block of 32 bytes. */
  lemma WrappedNeed()
    ensures NeedOf(WORD - 32, 32) == 32
  {
    hide Pow2, And, Aligned;
    Pow2Small();
    AlignUpLeast(HEADER, 4);
    SixteenAligned(AlignUp(HEADER, 16));
  }

  // ----- Over-aligned pointers -----

  /** Where the pointer handed out for block x lies in the heap, which is mapped at `base`: what is rounded up is
      the address. */
  function PointerIn(base: nat, x: nat, alignment: nat): (p: int)
    requires alignment <= WORD
  {
    if alignment > 16 then AlignUp(base + x + HEADER + 8, alignment) - base else x + HEADER
  }

  /** Neither the size of the request nor its address in block x wraps. */
  predicate Fits(base: nat, x: nat, size: nat, alignment: nat) {
    Larger(size, 1) + Extra(alignment) <= WORD - 32 && (alignment > 16 ==> base + x + 24 + alignment <= WORD)
  }

  /** An over-aligned pointer is aligned as asked, the word before it that leads back to the block lies inside
      the payload area, and the payload ends inside the block. */
  lemma OverAlignedFits(base: nat, x: nat, size: nat, k: nat)
    requires base % 16 == 0 && x % 16 == 0 && 5 <= k <= 64 && Pow2(k) > 16 && Fits(base, x, size, Pow2(k))
    ensures var p := PointerIn(base, x, Pow2(k));
            && p >= x + HEADER + 16 && p % 16 == 0 && Aligned(base + p, k)
            && p + size <= x + NeedOf(size, Pow2(k)) && p < x + NeedOf(size, Pow2(k))
  {
    hide Pow2, And, Aligned, AlignUp, NeedOf;
    Pow2Small();
    Pow2Order(4, k);
    AlignUpLeast(base + x + 24, k);
    var q := AlignUp(base + x + 24, Pow2(k));
    AlignedWeaken(q, 4, k);
    SixteenAligned(q);
    Pow2Aligned(4, k);
    SixteenAligned(Pow2(k));
    NextSixteen(base, x, q, Pow2(k));
    OverNeed(size, k);
  }

  lemma NextSixteen(base: nat, x: nat, q: nat, a: nat)
    requires base % 16 == 0 && x % 16 == 0 && q % 16 == 0 && a % 16 == 0 && base + x + 24 <= q < base + x + 24 + a
    ensures base + x + 32 <= q <= base + x + 16 + a && (q - base) % 16 == 0
  {
    var i, j, k, m := base / 16, x / 16, q / 16, a / 16;
    assert base == 16 * i && x == 16 * j && q == 16 * k && a == 16 * m;
    assert q - base == 16 * (k - i);
  }

  lemma OverNeed(size: nat, k: nat)
    requires 16 < Pow2(k) && Larger(size, 1) + Pow2(k) <= WORD - 32
    ensures NeedOf(size, Pow2(k)) >= HEADER + size + Pow2(k) && NeedOf(size, Pow2(k)) > HEADER + Pow2(k)
  {
    hide Pow2, NeedOf;
    ZeroAsksForOne(Pow2(k));
    NeedHoldsIff(Larger(size, 1), Pow2(k));
  }

  lemma ZeroAsksForOne(alignment: nat)
    ensures NeedOf(0, alignment) == NeedOf(1, alignment)
  {
  }

  /** The pointer lies behind the header of its block and the payload ends inside the block if and only if neither the
      size nor the address of the request wraps. */
  lemma PointerFitsIff(base: nat, x: nat, size: nat, alignment: nat, k: nat)
    requires base % 16 == 0 && x % 16 == 0 && size < WORD && alignment < WORD && base + x + 24 <= WORD
    requires alignment > 16 ==> alignment == Pow2(k) && k <= 63
    ensures var p := PointerIn(base, x, alignment);
            x + HEADER <= p && p + Larger(size, 1) <= x + NeedOf(size, alignment) <==> Fits(base, x, size, alignment)
  {
    hide Pow2, And, Aligned, AlignUp, NeedOf;
    var s := Larger(size, 1);
    ZeroAsksForOne(alignment);
    NeedHoldsIff(s, alignment);
    if alignment > 16 {
      WordIsPow2();
      Pow2Order(k, 63);
      Pow2Small();
      if k < 5 {
        Pow2Order(k, 4);
      }
      if Fits(base, x, size, alignment) {
        OverAlignedFits(base, x, s, k);
      } else if base + x + 24 + alignment <= WORD {
        AlignUpLeast(base + x + 24, k);
        WrappedNeedIsSmall(s, k);
      } else {
        AlignUpWraps(base + x + 24, k);
      }
    }
  }

  lemma WrappedNeedIsSmall(size: nat, k: nat)
    requires 0 < size < WORD && 16 < Pow2(k) <= HALF && size + Pow2(k) > WORD - 32
    ensures NeedOf(size, Pow2(k)) < 24 + size
  {
    hide Pow2, AlignUp;
    RoundedUp((HEADER + (size + Pow2(k)) % WORD) % WORD);
  }

  /** Requests of more than 2^64 - 32 bytes with their alignment get a payload that ends past the heap. */
  lemma WrappedNeverFits(base: nat, x: nat, size: nat, k: nat, cap: nat)
    requires k <= 64 && Pow2(k) > 16 && x < cap && base + cap + 24 + Pow2(k) <= WORD && size + Pow2(k) > WORD - 32
    ensures Pow2(k) <= WORD && PointerIn(base, x, Pow2(k)) + size > cap
  {
    hide Pow2, And, Aligned, AlignUp;
    AlignUpLeast(base + x + 24, k);
  }

  /** plausible_header on 64-bit words and addresses: the word at x looks like the header of a used block. */
  predicate Plausible(mem: seq<int>, base: nat, x: nat) {
    && x < |mem|
    && var w := mem[x] % WORD;
       w % 2 == 1 && w - 1 >= MIN_BLOCK && (w - 1) % 16 == 0 && (base + x + w - 1) % WORD <= base + |mem|
  }

  /** What looks like a header: an odd word whose size is a multiple of 16 from 32 bytes on, and either ends inside the
      heap or is so large that the address of its end wraps. */
  lemma PlausibleIff(mem: seq<int>, base: nat, x: nat)
    requires x < |mem| && base + |mem| < WORD
    ensures var size := mem[x] % WORD - 1;
            Plausible(mem, base, x) <==>
            size % 16 == 0 && size >= MIN_BLOCK && (x + size <= |mem| || base + x + size >= WORD)
  {
  }

  /** Which block fl_deallocate takes a pointer to belong to. */
  function HeaderFor(mem: seq<int>, base: nat, p: nat): (x: int)
    requires HEADER <= p < |mem| + 8
  {
    if Plausible(mem, base, p - HEADER) then p - HEADER else (base + p - mem[p - 8] - HEADER) % WORD - base
  }

  lemma PlainHeader(h: Heap, mem: seq<int>, base: nat, x: nat)
    requires Inv(h) && Headers(h, mem, {}) && |mem| == h.cap && base + h.cap < WORD && IsUsed(h, x)
    ensures x + HEADER < |mem| && HeaderFor(mem, base, x + HEADER) == x
  {
    UsedHeader(h, mem, x);
    hide Inv, Headers, Plausible;
    PlausibleIff(mem, base, x);
  }

  lemma UsedHeader(h: Heap, mem: seq<int>, x: nat)
    requires Inv(h) && Headers(h, mem, {}) && |mem| == h.cap && IsUsed(h, x)
    ensures var size := h.blocks[x].size; MIN_BLOCK <= size && size % 16 == 0 && x + size <= |mem| && mem[x] == size + 1
  {
    hide Disjoint, Coalesced, ListExact, CursorOk;
    assert HeaderOk(h, mem, {}, x) && BlockOk(h, x);
  }

  /** An over-aligned pointer leads back to its block if and only if the word 16 bytes before it does not look
      like the header of a used block. */
  lemma OverAlignedFreeIff(mem: seq<int>, base: nat, x: nat, p: nat)
    requires x + HEADER + 16 <= p < |mem| && base + |mem| < WORD && mem[p - 8] == p - (x + HEADER)
    ensures HeaderFor(mem, base, p) == x <==> !Plausible(mem, base, p - HEADER)
  {
  }

  lemma PlainPointer(base: nat, x: nat, alignment: nat)
    requires alignment <= 16
    ensures PointerIn(base, x, alignment) == x + HEADER
  {
  }

  /** The pointer is in the heap and a free takes it to belong to block x: a plain one always, an over-aligned one if
      and only if the word 16 bytes before it does not look like a header. */
  predicate LeadsBack(mem: seq<int>, base: nat, x: nat, p: int, alignment: nat) {
    && HEADER <= p < |mem|
    && if alignment <= 16 then HeaderFor(mem, base, p) == x
       else HeaderFor(mem, base, p) == x <==> !Plausible(mem, base, p - HEADER)
  }

  /** Whatever is written into the payload of a used block, headers and list stay right. */
  lemma PayloadWriteHarmless(h: Heap, mem: seq<int>, x: nat, y: nat, v: int)
    requires Inv(h) && Headers(h, mem, {}) && Circ(h.list, mem) && |mem| == h.cap && IsUsed(h, x)
    requires x + HEADER <= y < End(h, x) && y < |mem|
    ensures Headers(h, mem[y := v], {}) && Circ(h.list, mem[y := v])
  {
    var m := mem[y := v];
    forall u ensures HeaderOk(h, m, {}, u) {
      assert HeaderOk(h, mem, {}, u) && BlockOk(h, u);
    }
    forall i | 0 <= i < |h.list| ensures NodeOk(h.list, i, m) {
      assert h.list[i] in h.list;
      assert NodeOk(h.list, i, mem) && BlockOk(h, h.list[i]);
    }
  }

  class Allocator {
    const cap: nat
    const base: nat        // address of the mapping
    const policy: Policy
    const mem: array<int>  // the word stored at each byte offset
    var head: int
    var cursor: int
    var used: nat
    var peak: nat
    var allocCalls: nat
    var freeCalls: nat
    var failed: nat
    ghost var model: Heap

    ghost predicate Working(held: set<nat>)
      reads this, mem
    {
      && Inv(model) && model.cap == cap == mem.Length && base % 16 == 0 && base + cap < WORD
      && Headers(model, mem[..], held) && Circ(model.list, mem[..])
      && head == HeadOf(model.list) && cursor == model.cursor
    }

    ghost predicate Valid()
      reads this, mem
    {
      Working({}) && used == UsedBytes(model) && used <= peak
    }

    constructor (cap: nat, base: nat, policy: Policy)
      requires cap >= 2 * MIN_BLOCK && cap % 16 == 0 && base % 16 == 0 && base + cap < WORD
      ensures Valid() && model == Initial(cap) && this.base == base && this.policy == policy && fresh(mem) && used == 0
    {
      this.cap, this.base, this.policy := cap, base, policy;
      mem := new int[cap];
      head, cursor := 0, 0;
      used, peak, allocCalls, freeCalls, failed := 0, 0, 0, 0, 0;
      model := Initial(cap);
      new;
      mem[0] := cap;
      mem[8] := NIL;
      mem[16] := 0;
      mem[24] := 0;
      InitialInv(cap);
      assert UsedMap(model) == map[];
      EmptyBytes(cap);
      forall x ensures HeaderOk(model, mem[..], {}, x) {
      }
      hide Inv;
    }

    // ----- List primitives -----

    /** fl_insert */
    method InsertNode(x: nat, ghost s: seq<nat>, ghost nodes: set<nat>)
      requires Circ(s, mem[..]) && head == HeadOf(s) && NoDup(s) && Within(s, nodes) && Spaced(nodes)
      requires x in nodes && x !in s && x + 24 < mem.Length
      modifies this`head, this`cursor, mem
      ensures Circ(Inserted(s, x), mem[..]) && head == HeadOf(Inserted(s, x))
      ensures s != [] ==> head == s[0] && s[0] + 16 < mem.Length && mem[s[0] + 16] == x && mem[x + 16] == NextC(s, 0)
      ensures cursor == if old(cursor) == NIL then x else old(cursor)
      ensures SameHeaderWords(nodes, old(mem[..]), mem[..]) && LinksOnly(Inserted(s, x), old(mem[..]), mem[..])
    {
      ghost var m := mem[..];
      hide Circ, NoDup, Within, Spaced, SameHeaderWords, Inserted, LinksOnly, NextC;
      InsertCirc(s, m, x, nodes);
      InsertLinks(s, m, x);
      InsertFrame(s, m, x, nodes);
      InsertedHead(s, x);
      LinkIn(x, s);
      SecondIs(s, mem[..], x);
      if cursor == NIL {
        cursor := x;
      }
    }

    /** The links of a new node, alone or right after the head. */
    method LinkIn(x: nat, ghost s: seq<nat>)
      requires x + 24 < mem.Length && head == HeadOf(s)
      requires s != [] ==> s[0] + 24 < mem.Length && NextC(s, 0) + 24 < mem.Length && mem[s[0] + 16] == NextC(s, 0)
      modifies this`head, mem
      ensures mem[..] == InsertMem(old(mem[..]), s, x) && head == if s == [] then x else s[0]
    {
      ghost var m := mem[..];
      if head == NIL {
        head := x;
        mem[x + 24] := x;
        mem[x + 16] := x;
      } else {
        var next := mem[head + 16];
        mem[x + 16] := next;
        mem[x + 24] := head;
        mem[next + 24] := x;
        mem[head + 16] := x;
      }
      assert mem[..] == InsertMem(m, s, x);
    }

    /** fl_unlink */
    method UnlinkNode(n: nat, ghost s: seq<nat>, ghost i: nat, ghost nodes: set<nat>)
      requires Circ(s, mem[..]) && head == HeadOf(s) && NoDup(s) && Within(s, nodes) && Spaced(nodes)
      requires i < |s| && s[i] == n
      modifies this`head, this`cursor, mem
      ensures Circ(Without(s, i), mem[..]) && head == HeadOf(Without(s, i))
      ensures cursor == if |s| == 1 then NIL else if old(cursor) == n then NextC(s, i) else old(cursor)
      ensures SameHeaderWords(nodes, old(mem[..]), mem[..]) && LinksOnly(s, old(mem[..]), mem[..])
    {
      ghost var m := mem[..];
      hide Circ, NoDup, Within, Spaced, SameHeaderWords, Without, LinksOnly;
      UnlinkBounds(s, m, i, nodes);
      UnlinkLinks(s, m, i);
      UnlinkCirc(s, m, i, nodes);
      UnlinkFrame(s, m, i, nodes);
      WithoutHead(s, i);
      AfterIs(s, i);
      SoleUnlink(s, m, i, nodes);
      if mem[n + 16] == n {
        head, cursor := NIL, NIL;
        return;
      }
      var next, prev := mem[n + 16], mem[n + 24];
      mem[prev + 16] := next;
      mem[next + 24] := prev;
      assert mem[..] == UnlinkMem(m, s, i);
      if head == n {
        head := next;
      }
      if cursor == n {
        cursor := next;
      }
    }

    // ----- Fit search -----

    /** hdr_size */
    function SizeAt(x: nat): (s: int)
      requires x < mem.Length
      reads mem
    {
      mem[x] - mem[x] % 2
    }

    /** hdr_used */
    predicate UsedAt(x: nat)
      requires x < mem.Length
      reads mem
    {
      mem[x] % 2 == 1
    }

    /** One lap of the circular list from `start`: the first block that is large enough. */
    method FirstOnLap(start: nat, need: nat, ghost lap: seq<nat>) returns (r: Option<nat>)
      requires Working({}) && lap != [] && lap[0] == start && NoDup(lap) && Circ(lap, mem[..])
      requires forall x :: x in lap ==> x in model.blocks
      ensures r == FirstIn(model, lap, need)
    {
      hide Inv, Circ, Headers;
      var n := start;
      ghost var i := 0;
      assert lap[0..] == lap;
      while true
        invariant 0 <= i < |lap| && n == lap[i]
        invariant forall x :: x in lap[i..] ==> x in model.blocks
        invariant FirstIn(model, lap[i..], need) == FirstIn(model, lap, need)
        decreases |lap| - i
      {
        NodeFacts(model, mem[..], lap, i);
        assert lap[i..][1..] == lap[i + 1..];
        if SizeAt(n) >= need {
          return Some(n);
        }
        n := mem[n + 16];
        if n == start {
          LapDone(lap, i);
          return None;
        }
        i := i + 1;
      }
    }

    /** One whole lap from the head, keeping the smallest block that is large enough. */
    method BestOnLap(need: nat) returns (best: Option<nat>)
      requires Working({}) && head != NIL
      ensures best == BestIn(model, model.list, need)
    {
      hide Inv, Circ, Headers, BestIn;
      ListFacts(model);
      ghost var s := model.list;
      best := None;
      var bestSize := 0;
      var n := head;
      ghost var i := 0;
      BestNone(model, s, need);
      while true
        invariant 0 <= i < |s| && n == s[i] && best == BestIn(model, s[..i], need)
        invariant best.Some? ==> best.value in model.blocks && bestSize == model.blocks[best.value].size
        decreases |s| - i
      {
        NodeFacts(model, mem[..], s, i);
        BestStep(model, s, need, i);
        var size := SizeAt(n);
        if size >= need && (best.None? || size < bestSize) {
          best, bestSize := Some(n), size;
        }
        n := mem[n + 16];
        if n == head {
          LapDone(s, i);
          assert s[..i + 1] == s;
          return;
        }
        i := i + 1;
      }
    }

    /** find_fit; Next-Fit also moves the cursor. */
    method FindFit(need: nat) returns (r: Option<nat>)
      requires Working({})
      modifies this`cursor, this`model
      ensures r == Fit(old(model), policy, need)
      ensures model == if r.None? then old(model) else Aim(old(model), policy, r.value)
      ensures r.Some? ==> Picks(old(model), policy, need, r.value)
      ensures forall i :: 0 <= i < |old(model).list| && r == Some(old(model).list[i]) ==>
                cursor == if policy.NextFit? then Around(old(model).list, i, 1) else old(cursor)
      ensures r.None? ==> cursor == old(cursor)
      ensures Working({})
    {
      ListFacts(model);
      Chosen(model, policy, need);
      hide Inv, Circ, Headers, NoDup, FirstIn, BestIn, LapFrom, After, Picks, Around;
      if head == NIL {
        return None;
      }
      match policy {
        case FirstFit =>
          r := FirstOnLap(head, need, model.list);
        case BestFit =>
          r := BestOnLap(need);
        case NextFit =>
          ghost var h := model;
          LapFacts(h, mem[..]);
          r := FirstOnLap(cursor, need, LapFrom(h.list, h.cursor));
          if r.Some? {
            AimFacts(h, mem[..], need, r.value);
            cursor := mem[r.value + 16];
            model := Aim(h, policy, r.value);
          }
      }
    }

    // ----- Steps of the operations -----

    /** Takes the free block x out of the list. */
    method Detach(x: nat, ghost held: set<nat>)
      requires Working(held) && IsFree(model, x)
      modifies this`head, this`cursor, this`model, mem
      ensures model == Take(old(model), x) && Working(held + {x}) && cursor != x
      ensures Tidy(old(model), model, old(mem[..]), mem[..]) && Less(model, old(model))
    {
      hide Inv, Circ, Headers, SameHeaderWords, Tidy, Less, LinksOnly;
      ghost var h, m := model, mem[..];
      BlocksSpaced(h);
      DetachFacts(h, x);
      TakeLess(h, x);
      ListFree(h);
      UnlinkNode(x, h.list, IndexOf(h.list, x), h.blocks.Keys);
      TakeInv(h, x);
      CursorMoved(h, x);
      HeadersKept(h, m, mem[..], held);
      TakeHeaders(h, mem[..], held, x);
      LinksTidy(h, Take(h, x), h.list, m, mem[..]);
      model := Take(h, x);
    }

    /** Marks the held block x used, splitting off the rest when that is large enough for a block. */
    method Cut(x: nat, need: nat)
      requires Working({x}) && IsUsed(model, x) && !IsFree(model, End(model, x))
      requires MIN_BLOCK <= need <= model.blocks[x].size && need % 16 == 0
      modifies this`head, this`cursor, this`model, mem
      ensures Working({})
      ensures model == if old(model.blocks[x].size) - need >= MIN_BLOCK then SplitOff(old(model), x, need)
                       else old(model)
      ensures Tidy(old(model), model, old(mem[..]), mem[..])
    {
      hide Inv, Circ, Headers, SameHeaderWords, SameLinkWords, Tidy, Less, LinksOnly;
      ghost var h, m := model, mem[..];
      HeaderFacts(h, m, {x}, x);
      var remain := SizeAt(x) - need;
      if remain >= MIN_BLOCK {
        var y := x + need;
        CutFacts(h, m, x, need);
        mem[y] := remain;
        mem[y + 8] := x;
        var after := y + remain;
        if after < cap {
          mem[after + 8] := y;
        }
        mem[x] := need + 1;
        assert mem[..] == SplitMem(h, m, x, need);
        ghost var r, m1 := SplitOff(h, x, need), mem[..];
        BlockFacts(h, x);
        SplitTidy(h, m, x, need);
        InsertNode(y, h.list, r.blocks.Keys);
        HeadersKept(r, m1, mem[..], {});
        ThenLinks(h, r, m, m1, mem[..]);
        model := r;
      } else {
        mem[x] := SizeAt(x) + 1;
        assert mem[..] == m[x := h.blocks[x].size + 1];
        FlagFacts(h, m, x);
        FlagTidy(h, m, x, h.blocks[x].size + 1);
      }
    }

    /** Joins the held block x with the held block y right after it. */
    method Fuse(x: nat, y: nat)
      requires Working({x, y}) && IsUsed(model, x) && IsUsed(model, y) && y == End(model, x)
      modifies this`model, mem
      ensures Working({x}) && model == Join(old(model), x) && x < mem.Length && mem[x] == model.blocks[x].size
      ensures Tidy(old(model), model, old(mem[..]), mem[..]) && Less(model, old(model))
    {
      hide Inv, Circ, Headers, Tidy, Less;
      ghost var t, m := model, mem[..];
      JoinFacts(t, m, x);
      BlockFacts(t, y);
      JoinTidy(t, m, x);
      JoinLess(t, x);
      mem[x] := SizeAt(x) + SizeAt(y);
      var nn := x + SizeAt(x);
      if nn < cap {
        mem[nn + 8] := x;
      }
      assert mem[..] == JoinMem(t, m, x);
      model := Join(t, x);
    }

    /** Coalesces the held block x with a free block right after it. */
    method AbsorbNext(x: nat)
      requires Working({x}) && IsUsed(model, x) && x < mem.Length && mem[x] == model.blocks[x].size
      modifies this`head, this`cursor, this`model, mem
      ensures Working({x}) && model == JoinNext(old(model), x) && mem[x] == model.blocks[x].size
      ensures Tidy(old(model), model, old(mem[..]), mem[..]) && Less(model, old(model))
    {
      hide Inv, Circ, Headers, Tidy, Less;
      Unchanged(model, mem[..]);
      ghost var h, m := model, mem[..];
      HeaderFacts(h, m, {x}, x);
      var nb := x + SizeAt(x);
      NeighbourFacts(h, m, x);
      if nb < cap && !UsedAt(nb) {
        JoinNextReady(h, x);
        Detach(nb, {x});
        cursor := if cursor == nb then NIL else cursor;
        assert {x} + {nb as nat} == {x, nb as nat};
        ghost var t, m1 := model, mem[..];
        Fuse(x, nb);
        TidyThen(h, t, model, m, m1, mem[..]);
        LessTrans(model, t, h);
      }
    }

    /** Coalesces the held block x into a free block right before it, and puts the result on the list. */
    method AbsorbIntoPrev(x: nat)
      requires Working({x}) && IsUsed(model, x) && x + 8 < mem.Length && mem[x] == model.blocks[x].size
      requires !IsFree(model, End(model, x)) && IsPrev(model, x, mem[x + 8])
      modifies this`head, this`cursor, this`model, mem
      ensures Working({}) && model == JoinPrev(old(model), x, old(mem[x + 8]))
      ensures Tidy(old(model), model, old(mem[..]), mem[..])
    {
      hide Inv, Circ, Headers, Tidy, Less;
      Unchanged(model, mem[..]);
      ghost var h, m := model, mem[..];
      HeaderFacts(h, m, {x}, x);
      var pb := mem[x + 8];
      if pb != NIL {
        BlockFacts(h, pb);
        HeaderFacts(h, m, {x}, pb);
      }
      var y := x;
      if pb != NIL && !UsedAt(pb) {
        JoinPrevReady(h, x, pb);
        Detach(pb, {x});
        cursor := if cursor == pb then NIL else cursor;
        assert {x} + {pb as nat} == {pb as nat, x};
        ghost var t, m1 := model, mem[..];
        Fuse(pb, x);
        TidyThen(h, t, model, m, m1, mem[..]);
        LessTrans(model, t, h);
        y := pb;
      } else {
        ReleaseReady(h, x, pb);
      }
      ghost var j, m2 := model, mem[..];
      PutBack(y);
      TidyThen(h, j, model, m, m2, mem[..]);
    }

    method PutBack(y: nat)
      requires Working({y}) && IsUsed(model, y) && y < mem.Length && mem[y] == model.blocks[y].size
      requires Inv(Release(model, y))
      modifies this`head, this`cursor, this`model, mem
      ensures Working({}) && model == Release(old(model), y)
      ensures Tidy(old(model), model, old(mem[..]), mem[..])
    {
      hide Inv, Circ, Headers, SameHeaderWords, Tidy, LinksOnly;
      ghost var h, m := model, mem[..];
      BlocksSpaced(h);
      UnlistedFacts(h, y);
      ReleaseHeaders(h, m, y);
      InsertNode(y, h.list, h.blocks.Keys);
      assert Release(h, y).blocks.Keys == h.blocks.Keys;
      HeadersKept(Release(h, y), m, mem[..], {});
      ListFree(Release(h, y));
      LinksTidy(h, Release(h, y), Release(h, y).list, m, mem[..]);
      model := Release(h, y);
    }

    // ----- Operations -----

    /** Hands out a block under the policy, or nothing when no contiguous free run is large enough; exactly the
        outcome of the specification. If the request fits into the block, the pointer leads back to it, an
        over-aligned one as long as what earlier owners left 16 bytes before it does not look like a header, and nothing
        is written into the payload of any block in use. If it does not fit, the word before an over-aligned pointer
        is written wherever that pointer lies. */
    method Allocate(size: nat, alignment: nat, ghost k: nat) returns (p: Option<int>)
      requires Valid() && size < WORD && alignment < WORD && (alignment > 16 ==> alignment == Pow2(k) && k <= 63)
      modifies this, mem
      ensures NeedOf(size, alignment) % 16 == 0
      ensures var (r, x) := Alloc(old(model), policy, NeedOf(size, alignment));
              && model == r && p == (if x.Some? then Some(PointerIn(base, x.value, alignment)) else None)
              && (x.Some? ==> Picks(old(model), policy, NeedOf(size, alignment), x.value))
              && (x.None? || alignment <= 16 || Fits(base, x.value, size, alignment) ==>
                    Valid() && forall u :: IsUsed(old(model), u) ==> SamePayload(old(model), u, old(mem[..]), mem[..]))
              && (x.Some? && (alignment <= 16 || Fits(base, x.value, size, alignment)) ==>
                    LeadsBack(mem[..], base, x.value, p.value, alignment))
      ensures allocCalls == old(allocCalls) + 1 && freeCalls == old(freeCalls)
      ensures failed == old(failed) + (if p.None? then 1 else 0)
      ensures peak == if used > old(peak) then used else old(peak)
      ensures Tidy(old(model), model, old(mem[..]),
                   Restored(old(mem[..]), mem[..], if p.Some? && alignment > 16 then p.value - 8 else NIL))
    {
      hide Inv, Circ, Headers, UsedMap, SizeBelow, NeedOf, Alloc, Take, SplitOff, Aim, Fit;
      hide PointerIn, LeadsBack, Fits, Restored, Pow2, Tidy, SamePayload, Picks, Around;
      var need := NeedOf(size, alignment);
      NeedAligned(size, alignment);
      ghost var h, m := model, mem[..];
      allocCalls := allocCalls + 1;
      ListFacts(h);
      AllocFacts(h, policy, need);
      var x := FindFit(need);
      if x.None? {
        failed := failed + 1;
        Unchanged(h, m);
        NothingRestored(m);
        return None;
      }
      Claim(x.value, need);
      ghost var m1 := mem[..];
      AimTidy(h, policy, x.value, model, m, m1);
      var granted := ReadSize(x.value);
      used := used + granted;
      if used > peak {
        peak := used;
      }
      p := Some(PointerIn(base, x.value, alignment));
      HandOut(x.value, size, need, alignment, k);
      AllocWritten(h, policy, need, m, m1, mem[..], p.value - 8, alignment > 16,
                   alignment <= 16 || Fits(base, x.value, size, alignment));
    }

    /** Stores the way back for an over-aligned pointer. */
    method HandOut(x: nat, size: nat, need: nat, alignment: nat, ghost k: nat)
      requires Valid() && IsUsed(model, x) && need == NeedOf(size, alignment) <= model.blocks[x].size
      requires alignment < WORD && (alignment > 16 ==> alignment == Pow2(k) && k <= 63)
      modifies mem
      ensures var p := PointerIn(base, x, alignment);
              mem[..] == if alignment > 16 && 0 <= p - 8 < cap then old(mem[..])[p - 8 := p - (x + HEADER)]
                         else old(mem[..])
      ensures alignment <= 16 || Fits(base, x, size, alignment) ==>
                var p := PointerIn(base, x, alignment);
                && Valid() && LeadsBack(mem[..], base, x, p, alignment)
                && (alignment > 16 ==> x + HEADER <= p - 8 < End(model, x) && p <= cap)
    {
      hide Inv, Circ, Headers, UsedMap, SizeBelow, NeedOf, PointerIn, Fits, HeaderFor, Plausible, Pow2;
      BlockFacts(model, x);
      ghost var m := mem[..];
      var p := PointerIn(base, x, alignment);
      if alignment <= 16 {
        PlainPointer(base, x, alignment);
      }
      if alignment > 16 && 0 <= p - 8 < cap {
        mem[p - 8] := p - (x + HEADER);
      }
      assert mem[..] == if alignment > 16 && 0 <= p - 8 < cap then m[p - 8 := p - (x + HEADER)] else m;
      if alignment <= 16 {
        PlainHeader(model, mem[..], base, x);
      } else if Fits(base, x, size, alignment) {
        Pow2Small();
        if k < 5 {
          Pow2Order(k, 4);
        }
        StartAligned(model, x);
        OverAlignedFits(base, x, size, k);
        PayloadWriteHarmless(model, m, x, p - 8, p - (x + HEADER));
        OverAlignedFreeIff(mem[..], base, x, p);
      }
    }

    method Claim(x: nat, need: nat)
      requires Working({}) && IsFree(model, x) && MIN_BLOCK <= need <= model.blocks[x].size && need % 16 == 0
      modifies this`head, this`cursor, this`model, mem
      ensures Working({})
      ensures model == if old(model).blocks[x].size - need >= MIN_BLOCK then SplitOff(Take(old(model), x), x, need)
                       else Take(old(model), x)
      ensures Tidy(old(model), model, old(mem[..]), mem[..])
    {
      hide Inv, Circ, Headers, Tidy, Less;
      ghost var h, m := model, mem[..];
      TakeFree(model, x);
      Detach(x, {});
      assert {} + {x} == {x};
      ghost var t, m1 := model, mem[..];
      Cut(x, need);
      TidyThen(h, t, model, m, m1, mem[..]);
    }

    method ReadSize(x: nat) returns (s: nat)
      requires Working({}) && x in model.blocks
      ensures s == model.blocks[x].size
    {
      hide Inv, Circ, Headers;
      HeaderFacts(model, mem[..], {}, x);
      s := SizeAt(x);
    }

    /** Frees a live allocation and coalesces it with its neighbours; exactly the outcome of the
        specification. A null pointer is ignored. */
    method Deallocate(p: Option<nat>)
      requires Valid()
      requires p.Some? ==>
                 && HEADER <= p.value < cap && HeaderFor(mem[..], base, p.value) >= 0
                 && IsUsed(model, HeaderFor(mem[..], base, p.value))
      modifies this, mem
      ensures Valid()
      ensures model == if p.None? then old(model) else Free(old(model), old(HeaderFor(mem[..], base, p.value)))
      ensures allocCalls == old(allocCalls) && failed == old(failed)
      ensures freeCalls == old(freeCalls) + (if p.None? then 0 else 1)
      ensures peak == old(peak)
      ensures Tidy(old(model), model, old(mem[..]), mem[..])
      ensures forall u :: IsUsed(old(model), u) && (p.None? || u != old(HeaderFor(mem[..], base, p.value))) ==>
                SamePayload(old(model), u, old(mem[..]), mem[..])
    {
      hide Inv, Circ, Headers, UsedMap, SizeBelow, HeaderFor, Tidy, Less, SamePayload;
      Unchanged(model, mem[..]);
      if p.None? {
        return;
      }
      freeCalls := freeCalls + 1;
      var x: nat := HeaderFor(mem[..], base, p.value);
      ghost var h, m := model, mem[..];
      HeaderFacts(h, m, {}, x);
      FreeBytes(h, x);
      used := used - SizeAt(x);
      mem[x] := SizeAt(x);
      assert mem[..] == m[x := h.blocks[x].size];
      HoldFacts(h, m, x);
      FlagTidy(h, m, x, h.blocks[x].size);
      ghost var m1 := mem[..];
      AbsorbNext(x);
      ghost var j, m2 := model, mem[..];
      TidyThen(h, h, j, m, m1, m2);
      HeaderFacts(j, mem[..], {x}, x);
      PrevUnique(j, x, PrevOf(j, x), mem[x + 8]);
      AbsorbIntoPrev(x);
      TidyThen(h, j, model, m, m2, mem[..]);
      FreeKeeps(h, x, m, mem[..]);
    }

    /** A caller writes a word into the payload of its block. */
    method Store(ghost x: nat, y: nat, v: int)
      requires Valid() && IsUsed(model, x) && x + HEADER <= y < End(model, x) && y < cap
      modifies mem
      ensures Valid() && mem[..] == old(mem[..])[y := v]
    {
      hide Inv, Circ, Headers, UsedMap, SizeBelow;
      PayloadWriteHarmless(model, mem[..], x, y, v);
      ghost var m := mem[..];
      mem[y] := v;
      assert mem[..] == m[y := v];
    }

    /** Every block in address order. */
    method Walk() returns (w: seq<BlockInfo>)
      requires Valid()
      ensures Tiling(w, cap) && AllReported(model, w, cap)
      ensures forall i :: 0 <= i < |w| ==> Reports(model, w[i])
      ensures UsedSum(w) == used
    {
      hide Inv, Circ, Headers, WalkedTo;
      w := [];
      var c := 0;
      WalkStart(model);
      while c < cap
        invariant 0 <= c <= cap && WalkedTo(model, w, c)
        decreases cap - c
      {
        WalkBlock(model, w, c);
        HeaderFacts(model, mem[..], {}, c);
        w := w + [BlockInfo(c, SizeAt(c), !UsedAt(c))];
        c := c + SizeAt(c);
      }
      WalkEnd(model, w);
    }
  }

  /** The links say that a new node stands between the head and what came after it. */
  lemma SecondIs(s: seq<nat>, m: seq<int>, x: nat)
    requires Circ(Inserted(s, x), m)
    ensures s != [] ==> s[0] + 16 < |m| && x + 16 < |m| && m[s[0] + 16] == x && m[x + 16] == NextC(s, 0)
  {
    if s != [] {
      assert NodeOk(Inserted(s, x), 0, m) && NodeOk(Inserted(s, x), 1, m);
    }
  }

  /** What the search comes to, block and cursor. */
  lemma Chosen(h: Heap, policy: Policy, need: nat)
    requires Inv(h) && (forall x :: x in h.list ==> x in h.blocks) && (h.list != [] ==> h.cursor in h.list)
    ensures var r := Fit(h, policy, need);
            && (r.Some? ==> Picks(h, policy, need, r.value))
            && forall i :: 0 <= i < |h.list| && r == Some(h.list[i]) ==>
                 Aim(h, policy, h.list[i]).cursor == if policy.NextFit? then Around(h.list, i, 1) else h.cursor
  {
    ListOk(h);
    hide Inv, Fit, Picks, Aim, Around;
    var r := Fit(h, policy, need);
    if r.Some? {
      FitPicks(h, policy, need);
    }
    forall i | 0 <= i < |h.list| && r == Some(h.list[i])
      ensures Aim(h, policy, h.list[i]).cursor == if policy.NextFit? then Around(h.list, i, 1) else h.cursor
    {
      AimCursor(h, policy, i);
    }
  }

  // ----- What is written -----

  lemma Unchanged(h: Heap, m: seq<int>)
    ensures Tidy(h, h, m, m) && Less(h, h) && forall u :: u in h.blocks ==> SamePayload(h, u, m, m)
  {
  }

  lemma FlagTidy(h: Heap, m: seq<int>, x: nat, v: int)
    requires x in h.blocks && x < |m|
    ensures Tidy(h, h, m, m[x := v])
  {
  }

  lemma ListFree(h: Heap)
    requires Inv(h)
    ensures forall u :: u in h.list ==> IsFree(h, u)
  {
    hide Shaped, Disjoint, Coalesced;
  }

  lemma ThenLinks(h: Heap, r: Heap, m0: seq<int>, m1: seq<int>, m2: seq<int>)
    requires Inv(r) && Tidy(h, r, m0, m1) && LinksOnly(r.list, m1, m2)
    ensures Tidy(h, r, m0, m2)
  {
    hide Inv, Tidy, LinksOnly;
    ListFree(r);
    Unchanged(r, m1);
    LinksTidy(r, r, r.list, m1, m2);
    TidyThen(h, r, r, m0, m1, m2);
  }

  /** Moving the Next-Fit cursor changes no block. */
  lemma AimTidy(h: Heap, policy: Policy, x: nat, r: Heap, m0: seq<int>, m1: seq<int>)
    requires Tidy(Aim(h, policy, x), r, m0, m1)
    ensures Tidy(h, r, m0, m1)
  {
    hide After;
    var a := Aim(h, policy, x);
    forall y: nat ensures Bookkeeping(a, y) == Bookkeeping(h, y) {
    }
  }

  /** The memory with the word at q as it was before. */
  function Restored(m0: seq<int>, m1: seq<int>, q: int): (m: seq<int>) {
    if 0 <= q < |m1| && q < |m0| then m1[q := m0[q]] else m1
  }

  lemma NothingRestored(m: seq<int>)
    ensures Restored(m, m, NIL) == m
  {
  }

  lemma AllocWritten(h: Heap, policy: Policy, need: nat, m0: seq<int>, m1: seq<int>, m2: seq<int>, q: int, over: bool,
                     fits: bool)
    requires Inv(h) && MIN_BLOCK <= need && need % 16 == 0 && Alloc(h, policy, need).1.Some? && |m0| == |m1|
    requires var (r, x) := Alloc(h, policy, need);
             && IsUsed(r, x.value) && Tidy(h, r, m0, m1)
             && (if over && 0 <= q < |m1| then |m2| == |m1| && m2 == m1[q := m2[q]] else m2 == m1)
             && (over && fits ==> x.value + HEADER <= q < End(r, x.value) && q < |m1|)
    ensures fits ==> forall u :: IsUsed(h, u) ==> SamePayload(h, u, m0, m2)
    ensures Tidy(h, Alloc(h, policy, need).0, m0, Restored(m0, m2, if over then q else NIL))
  {
    hide Inv, Alloc, Tidy, SamePayload, IsUsed;
    if fits {
      AllocKeeps(h, policy, need, m0, m1, m2, q, over);
    } else if over && 0 <= q < |m1| {
      TidyBut(h, Alloc(h, policy, need).0, m0, m1, m2, q);
    }
  }

  lemma AllocKeeps(h: Heap, policy: Policy, need: nat, m0: seq<int>, m1: seq<int>, m2: seq<int>, q: int, over: bool)
    requires Inv(h) && MIN_BLOCK <= need && need % 16 == 0 && Alloc(h, policy, need).1.Some?
    requires var (r, x) := Alloc(h, policy, need);
             && IsUsed(r, x.value) && Tidy(h, r, m0, m1)
             && (if over then
                   x.value + HEADER <= q < End(r, x.value) && q < |m1| == |m2| && m2 == m1[q := m2[q]]
                 else m2 == m1)
    ensures forall u :: IsUsed(h, u) ==> SamePayload(h, u, m0, m2)
    ensures var r := Alloc(h, policy, need).0; Tidy(h, r, m0, if over then m2[q := m0[q]] else m2)
  {
    var (r, x) := Alloc(h, policy, need);
    AllocUsed(h, policy, need);
    hide Inv, Alloc, Tidy, UsedMap;
    forall u | IsUsed(h, u) ensures SamePayload(h, u, m0, m2) {
      StillUsed(h, r, UsedMap(h), x.value, Granted(h, x.value, need), u);
      PayloadKept(h, r, m0, m1, u);
      if over {
        BlocksApart(r, x.value, u);
      }
    }
    if over {
      TidyBut(h, r, m0, m1, m2, q);
    }
  }

  lemma StillUsed(h: Heap, r: Heap, used: map<nat, nat>, x: nat, v: nat, u: nat)
    requires used == UsedMap(h) && UsedMap(r) == used[x := v] && x !in used && IsUsed(h, u)
    ensures u != x && IsUsed(r, u) && r.blocks[u].size == h.blocks[u].size
  {
    assert u in used && u in UsedMap(r) && UsedMap(r)[u] == used[u];
  }

  lemma BlocksApart(h: Heap, x: nat, u: nat)
    requires Inv(h) && x in h.blocks && u in h.blocks && x != u
    ensures End(h, x) <= u || End(h, u) <= x
  {
    hide Shaped, Coalesced, ListExact, CursorOk;
  }

  lemma TidyBut(h: Heap, r: Heap, m0: seq<int>, m1: seq<int>, m2: seq<int>, q: nat)
    requires Tidy(h, r, m0, m1) && q < |m1| == |m2| && m2 == m1[q := m2[q]]
    ensures Tidy(h, r, m0, m2[q := m0[q]])
  {
  }

  lemma FreeKeeps(h: Heap, x: nat, m0: seq<int>, m1: seq<int>)
    requires Inv(h) && IsUsed(h, x) && Tidy(h, Free(h, x), m0, m1)
    ensures forall u :: IsUsed(h, u) && u != x ==> SamePayload(h, u, m0, m1)
  {
    hide Inv, Free, Tidy, UsedMap, SamePayload;
    var r := Free(h, x);
    FreeUsed(h, x);
    forall u | IsUsed(h, u) && u != x ensures SamePayload(h, u, m0, m1) {
      OtherUsed(h, r, x, u);
      PayloadKept(h, r, m0, m1, u);
    }
  }

  lemma OtherUsed(h: Heap, r: Heap, x: nat, u: nat)
    requires UsedMap(r) == UsedMap(h) - {x} && IsUsed(h, u) && u != x
    ensures IsUsed(r, u) && r.blocks[u].size == h.blocks[u].size
  {
    assert u in UsedMap(h) && u in UsedMap(r) && UsedMap(r)[u] == UsedMap(h)[u];
  }

  // ----- Accounting -----

  lemma AllocFacts(h: Heap, policy: Policy, need: nat)
    requires Inv(h) && MIN_BLOCK <= need && need % 16 == 0 && (forall x :: x in h.list ==> x in h.blocks)
    requires h.list != [] ==> h.cursor in h.list
    ensures var (r, x) := Alloc(h, policy, need);
            && x == Fit(h, policy, need)
            && (x.None? ==> r == h)
            && (x.Some? ==>
                  && IsUsed(r, x.value) && need <= r.blocks[x.value].size
                  && UsedBytes(r) == UsedBytes(h) + r.blocks[x.value].size
                  && (var a := Aim(h, policy, x.value);
                      && Inv(a) && IsFree(a, x.value) && need <= a.blocks[x.value].size
                      && r == (if a.blocks[x.value].size - need >= MIN_BLOCK
                               then SplitOff(Take(a, x.value), x.value, need)
                               else Take(a, x.value))))
  {
    AllocUsed(h, policy, need);
    FitFits(h, policy, need);
    var (r, x) := Alloc(h, policy, need);
    if x.Some? {
      AimInv(h, policy, x.value);
      InHeap(h, x.value);
      GrantFacts(r, UsedMap(h), x.value, Granted(h, x.value, need));
      hide Inv, UsedMap, SizeBelow, Fit;
      SizeBelowAdd(UsedMap(h), x.value, Granted(h, x.value, need), h.cap);
    }
  }

  lemma GrantFacts(r: Heap, u: map<nat, nat>, x: nat, v: nat)
    requires UsedMap(r) == u[x := v]
    ensures IsUsed(r, x) && r.blocks[x].size == v
  {
    assert x in UsedMap(r) && UsedMap(r)[x] == v;
  }

  lemma StartAligned(h: Heap, x: nat)
    requires Inv(h) && x in h.blocks
    ensures x % 16 == 0
  {
    assert BlockOk(h, x);
    hide Disjoint, Coalesced, ListExact, CursorOk;
  }

  lemma InHeap(h: Heap, x: nat)
    requires Inv(h) && x in h.blocks
    ensures x < h.cap
  {
    BlockFacts(h, x);
    hide Inv;
  }

  lemma FreeBytes(h: Heap, x: nat)
    requires Inv(h) && IsUsed(h, x)
    ensures UsedBytes(h) == UsedBytes(Free(h, x)) + h.blocks[x].size
  {
    assert x in UsedMap(h) && UsedMap(h)[x] == h.blocks[x].size;
    hide Inv, UsedMap, SizeBelow;
    FreeUsed(h, x);
    FreeCap(h, x);
    InHeap(h, x);
    SizeBelowAdd(UsedMap(h) - {x}, x, h.blocks[x].size, h.cap);
    PutSame(UsedMap(h), x);
  }

  lemma HoldFacts(h: Heap, mem: seq<int>, x: nat)
    requires Inv(h) && IsUsed(h, x) && Headers(h, mem, {}) && Circ(h.list, mem) && x < |mem|
    ensures Headers(h, mem[x := h.blocks[x].size], {x}) && Circ(h.list, mem[x := h.blocks[x].size])
  {
    BlocksSpaced(h);
    hide Inv;
    var m := mem[x := h.blocks[x].size];
    assert x in h.blocks.Keys;
    forall u ensures HeaderOk(h, m, {x}, u) {
      assert HeaderOk(h, mem, {}, u);
    }
    CircKept(h.list, mem, m, h.blocks.Keys);
  }

  lemma PrevUnique(h: Heap, x: nat, p: int, q: int)
    requires Inv(h) && x in h.blocks && IsPrev(h, x, p) && IsPrev(h, x, q)
    ensures p == q
  {
    if x > 0 {
      OneBefore(h, p, q);
    }
  }

  // ----- Walk -----

  ghost predicate Reports(h: Heap, i: BlockInfo) {
    i.offset in h.blocks && i.size == h.blocks[i.offset].size && i.isFree == !h.blocks[i.offset].used
  }

  ghost predicate AllReported(h: Heap, w: seq<BlockInfo>, end: nat) {
    forall x :: x in h.blocks && x < end ==> BlockInfo(x, h.blocks[x].size, !h.blocks[x].used) in w
  }

  ghost predicate WalkedTo(h: Heap, w: seq<BlockInfo>, c: nat) {
    && (c < h.cap ==> c in h.blocks)
    && Tiling(w, c) && AllReported(h, w, c)
    && (forall i :: 0 <= i < |w| ==> Reports(h, w[i]))
    && UsedSum(w) == SizeBelow(UsedMap(h), c)
  }

  lemma WalkStart(h: Heap)
    requires Inv(h)
    ensures WalkedTo(h, [], 0)
  {
    hide Disjoint, Coalesced, ListExact;
  }

  lemma WalkEnd(h: Heap, w: seq<BlockInfo>)
    requires WalkedTo(h, w, h.cap)
    ensures Tiling(w, h.cap) && AllReported(h, w, h.cap)
    ensures forall i :: 0 <= i < |w| ==> Reports(h, w[i])
    ensures UsedSum(w) == UsedBytes(h)
  {
  }

  lemma {:induction false} NoStartInside(h: Heap, x: nat, n: nat)
    requires Disjoint(h) && x in h.blocks && x < n <= End(h, x)
    ensures SizeBelow(UsedMap(h), n) == SizeBelow(UsedMap(h), x) + if h.blocks[x].used then h.blocks[x].size else 0
  {
    if n > x + 1 {
      NoStartInside(h, x, n - 1);
      assert n - 1 !in h.blocks;
    }
  }

  lemma WalkBlock(h: Heap, w: seq<BlockInfo>, c: nat)
    requires Inv(h) && c < h.cap && WalkedTo(h, w, c)
    ensures c in h.blocks && h.blocks[c].size > 0 && End(h, c) <= h.cap
    ensures WalkedTo(h, w + [BlockInfo(c, h.blocks[c].size, !h.blocks[c].used)], End(h, c))
  {
    var i := BlockInfo(c, h.blocks[c].size, !h.blocks[c].used);
    BlockFacts(h, c);
    NoStartInside(h, c, End(h, c));
    MoreReported(h, w, c);
    hide Inv, AllReported, Tiling, UsedSum, UsedMap, SizeBelow;
    UsedSumAppend(w, i);
  }

  lemma MoreReported(h: Heap, w: seq<BlockInfo>, c: nat)
    requires Disjoint(h) && c in h.blocks && AllReported(h, w, c)
    ensures AllReported(h, w + [BlockInfo(c, h.blocks[c].size, !h.blocks[c].used)], End(h, c))
  {
    var i := BlockInfo(c, h.blocks[c].size, !h.blocks[c].used);
    forall y | y in h.blocks && y < End(h, c) ensures BlockInfo(y, h.blocks[y].size, !h.blocks[y].used) in w + [i] {
      assert y <= c;
    }
  }

  lemma ReleaseReady(h: Heap, x: nat, p: int)
    requires Inv(h) && IsUsed(h, x) && !IsFree(h, End(h, x)) && IsPrev(h, x, p) && (p == NIL || !IsFree(h, p))
    ensures Inv(Release(h, x))
  {
    PrevNotFree(h, x, p);
    hide Inv;
    ReleaseInv(h, x);
  }

  lemma DetachFacts(h: Heap, x: nat)
    requires Inv(h) && IsFree(h, x)
    ensures x in h.list && NoDup(h.list)
    ensures var s, i := h.list, IndexOf(h.list, x);
            && Take(h, x).list == Without(s, i)
            && Take(h, x).cursor == if |s| == 1 then NIL else if h.cursor == x then NextC(s, i) else h.cursor
  {
    ListFacts(h);
    assert x in h.list;
    hide Inv, Remove, After;
    AfterIs(h.list, IndexOf(h.list, x));
  }

  lemma HeaderFacts(h: Heap, mem: seq<int>, held: set<nat>, x: nat)
    requires Inv(h) && Headers(h, mem, held) && x in h.blocks
    ensures x + 24 < |mem| && mem[x] - mem[x] % 2 == h.blocks[x].size && IsPrev(h, x, mem[x + 8])
    ensures x !in held ==> (mem[x] % 2 == 1 <==> h.blocks[x].used)
  {
    hide Disjoint, Coalesced, ListExact, CursorOk;
    assert HeaderOk(h, mem, held, x) && BlockOk(h, x);
  }

  lemma NeighbourFacts(h: Heap, mem: seq<int>, x: nat)
    requires Inv(h) && Headers(h, mem, {x}) && x in h.blocks && |mem| == h.cap
    ensures var y := End(h, x);
            y < h.cap ==> y in h.blocks && y + 24 < |mem| && mem[y] - mem[y] % 2 == h.blocks[y].size
                          && (mem[y] % 2 == 1 <==> h.blocks[y].used)
    ensures IsFree(h, End(h, x)) ==> End(h, x) < h.cap
  {
    hide Inv, Headers;
    BlockFacts(h, x);
    if End(h, x) in h.blocks {
      BlockFacts(h, End(h, x));
      HeaderFacts(h, mem, {x}, End(h, x));
    }
  }

  lemma UnlistedFacts(h: Heap, y: nat)
    requires Inv(h) && IsUsed(h, y)
    ensures y !in h.list && (h.list == [] <==> h.cursor == NIL) && y + 24 < h.cap
  {
    BlocksSpaced(h);
    hide Shaped, Disjoint, Coalesced;
  }

  lemma FlagFacts(h: Heap, mem: seq<int>, x: nat)
    requires Inv(h) && IsUsed(h, x) && Headers(h, mem, {x}) && Circ(h.list, mem) && x < |mem|
    ensures Headers(h, mem[x := h.blocks[x].size + 1], {}) && Circ(h.list, mem[x := h.blocks[x].size + 1])
  {
    BlocksSpaced(h);
    hide Inv;
    var m := mem[x := h.blocks[x].size + 1];
    assert x in h.blocks.Keys;
    forall u ensures HeaderOk(h, m, {}, u) {
      assert HeaderOk(h, mem, {x}, u);
    }
    CircKept(h.list, mem, m, h.blocks.Keys);
  }

  lemma CutFacts(h: Heap, mem: seq<int>, x: nat, need: nat)
    requires Inv(h) && IsUsed(h, x) && !IsFree(h, End(h, x))
    requires |mem| == h.cap && Headers(h, mem, {x}) && Circ(h.list, mem)
    requires MIN_BLOCK <= need && need % 16 == 0 && need + MIN_BLOCK <= h.blocks[x].size
    ensures x + need + 24 < |mem| && (End(h, x) < h.cap ==> End(h, x) + 8 < |mem|)
    ensures var r, y, m := SplitOff(h, x, need), x + need, SplitMem(h, mem, x, need);
            && Inv(r) && Headers(r, m, {}) && Circ(h.list, m)
            && NoDup(h.list) && Within(h.list, r.blocks.Keys) && Spaced(r.blocks.Keys)
            && y in r.blocks.Keys && y !in h.list
  {
    hide Inv, Circ, Headers, SplitMem, Within, Spaced;
    BlockFacts(h, x);
    SplitWords(h, mem, x, need, x);
    var r, y, m := SplitOff(h, x, need), x + need, SplitMem(h, mem, x, need);
    SplitInv(h, x, need);
    SplitHeaders(h, mem, x, need);
    BlocksSpaced(h);
    BlocksSpaced(r);
    CutLinks(h, mem, x, need);
    CircKept(h.list, mem, m, h.blocks.Keys);
    CutList(h, r, x, y);
  }

  lemma CutLinks(h: Heap, mem: seq<int>, x: nat, need: nat)
    requires Inv(h) && x in h.blocks && |mem| == h.cap
    requires MIN_BLOCK <= need && need % 16 == 0 && need + MIN_BLOCK <= h.blocks[x].size
    requires x + need + 8 < |mem| && (End(h, x) < h.cap ==> End(h, x) + 8 < |mem|)
    ensures SameLinkWords(h.blocks.Keys, mem, SplitMem(h, mem, x, need))
  {
    hide Inv, SplitMem;
    forall u | u in h.blocks.Keys && u + 24 < |mem|
      ensures SplitMem(h, mem, x, need)[u + 16] == mem[u + 16] && SplitMem(h, mem, x, need)[u + 24] == mem[u + 24]
    {
      SplitWords(h, mem, x, need, u);
    }
  }

  lemma CutList(h: Heap, r: Heap, x: nat, y: nat)
    requires Inv(h) && x in h.blocks && x < y < End(h, x) && h.blocks.Keys <= r.blocks.Keys && y in r.blocks
    ensures NoDup(h.list) && Within(h.list, r.blocks.Keys) && y !in h.list
  {
    BlocksSpaced(h);
    hide Shaped, Coalesced, CursorOk;
  }

  lemma JoinFacts(h: Heap, mem: seq<int>, x: nat)
    requires Inv(h) && IsUsed(h, x) && IsUsed(h, End(h, x)) && |mem| == h.cap
    requires Headers(h, mem, {x, End(h, x)}) && Circ(h.list, mem)
    ensures var y := End(h, x);
            && x + 24 < |mem| && y + 24 < |mem| && (End(h, y) < h.cap ==> End(h, y) + 24 < |mem|)
            && mem[x] - mem[x] % 2 == h.blocks[x].size && mem[y] - mem[y] % 2 == h.blocks[y].size
            && Inv(Join(h, x)) && Headers(Join(h, x), JoinMem(h, mem, x), {x}) && Circ(h.list, JoinMem(h, mem, x))
            && h.blocks[x].size % 2 == 0 && h.blocks[y].size % 2 == 0
  {
    hide Inv, Circ, Headers, JoinMem, Within, Spaced;
    var y := End(h, x);
    HeaderFacts(h, mem, {x, y}, x);
    HeaderFacts(h, mem, {x, y}, y);
    BlockFacts(h, y);
    BlocksSpaced(h);
    JoinWords(h, mem, x, x);
    JoinInv(h, x);
    JoinHeaders(h, mem, x);
    forall u | u in h.blocks.Keys && u + 24 < |mem|
      ensures JoinMem(h, mem, x)[u + 16] == mem[u + 16] && JoinMem(h, mem, x)[u + 24] == mem[u + 24]
    {
      JoinWords(h, mem, x, u);
    }
    CircKept(h.list, mem, JoinMem(h, mem, x), h.blocks.Keys);
  }

  lemma NodeFacts(h: Heap, mem: seq<int>, s: seq<nat>, i: nat)
    requires Inv(h) && Headers(h, mem, {}) && Circ(s, mem) && i < |s| && s[i] in h.blocks
    ensures s[i] + 24 < |mem| && mem[s[i] + 16] == NextC(s, i)
    ensures mem[s[i]] - mem[s[i]] % 2 == h.blocks[s[i]].size && NextC(s, i) in s
  {
    hide Disjoint, Coalesced, ListExact, CursorOk;
    assert HeaderOk(h, mem, {}, s[i]) && NodeOk(s, i, mem) && BlockOk(h, s[i]);
  }

  lemma LapDone(s: seq<nat>, i: nat)
    requires NoDup(s) && i < |s| && NextC(s, i) == s[0]
    ensures i + 1 == |s|
  {
  }

  /** After a block leaves the list the cursor is elsewhere. */
  lemma CursorMoved(h: Heap, x: nat)
    requires Inv(h) && IsFree(h, x)
    ensures Take(h, x).cursor != x
  {
    TakeLists(h, x);
    hide Shaped, Disjoint, Coalesced, CursorAfterUnlink, Remove;
  }

  lemma ListFacts(h: Heap)
    requires Inv(h)
    ensures NoDup(h.list) && (forall x :: x in h.list ==> x in h.blocks) && (h.list != [] ==> h.cursor in h.list)
  {
    hide Shaped, Disjoint, Coalesced;
  }

  lemma BestNone(h: Heap, s: seq<nat>, need: nat)
    requires forall x :: x in s ==> x in h.blocks
    ensures BestIn(h, s[..0], need) == None
  {
  }

  lemma BestStep(h: Heap, s: seq<nat>, need: nat, i: nat)
    requires i < |s| && forall x :: x in s ==> x in h.blocks
    ensures var best := BestIn(h, s[..i], need);
            BestIn(h, s[..i + 1], need) ==
            if h.blocks[s[i]].size >= need && (best.None? || h.blocks[s[i]].size < h.blocks[best.value].size)
            then Some(s[i]) else best
  {
    assert s[..i + 1][..i] == s[..i];
  }

  lemma LapFacts(h: Heap, mem: seq<int>)
    requires Inv(h) && Circ(h.list, mem) && h.list != []
    ensures h.cursor in h.list
    ensures var lap := LapFrom(h.list, h.cursor);
            && lap != [] && lap[0] == h.cursor && NoDup(lap) && Circ(lap, mem)
            && forall x :: x in lap ==> x in h.blocks
  {
    ListFacts(h);
    hide Inv, LapFrom, Circ;
    LapSame(h.list, h.cursor);
    LapNoDup(h.list, h.cursor);
    LapCirc(h.list, h.cursor, mem);
  }

  lemma LapAt(s: seq<nat>, x: nat, k: nat)
    requires x in s && k < |s|
    ensures var i := IndexOf(s, x);
            LapFrom(s, x)[k] == if i + k < |s| then s[i + k] else s[i + k - |s|]
  {
  }

  lemma LapNoDup(s: seq<nat>, x: nat)
    requires NoDup(s) && x in s
    ensures NoDup(LapFrom(s, x)) && LapFrom(s, x)[0] == x
  {
    hide LapFrom;
    var lap, i := LapFrom(s, x), IndexOf(s, x);
    LapAt(s, x, 0);
    forall j, k | 0 <= j < k < |lap| ensures lap[j] != lap[k] {
      LapAt(s, x, j);
      LapAt(s, x, k);
    }
  }

  lemma LapCirc(s: seq<nat>, x: nat, mem: seq<int>)
    requires x in s && Circ(s, mem)
    ensures Circ(LapFrom(s, x), mem)
  {
    hide LapFrom;
    var lap, i := LapFrom(s, x), IndexOf(s, x);
    forall k | 0 <= k < |lap| ensures NodeOk(lap, k, mem) {
      assert NodeOk(s, if i + k < |s| then i + k else i + k - |s|, mem);
      LapAt(s, x, k);
      LapAt(s, x, if k + 1 < |s| then k + 1 else 0);
      LapAt(s, x, if k > 0 then k - 1 else |s| - 1);
    }
  }

  lemma AimFacts(h: Heap, mem: seq<int>, need: nat, x: nat)
    requires Inv(h) && Headers(h, mem, {}) && Circ(h.list, mem) && (h.list != [] ==> h.cursor in h.list)
    requires (forall y :: y in h.list ==> y in h.blocks) && Fit(h, NextFit, need) == Some(x)
    ensures x + 24 < |mem| && mem[x + 16] == After(h.list, x)
    ensures Inv(Aim(h, NextFit, x)) && Headers(Aim(h, NextFit, x), mem, {})
  {
    hide Inv, Fit, After;
    FitFits(h, NextFit, need);
    AimInv(h, NextFit, x);
    ListFacts(h);
    var i := IndexOf(h.list, x);
    AfterIs(h.list, i);
    assert NodeOk(h.list, i, mem);
    var a := Aim(h, NextFit, x);
    forall y ensures HeaderOk(a, mem, {}, y) {
      assert HeaderOk(h, mem, {}, y);
    }
  }

  lemma InsertedHead(s: seq<nat>, x: nat)
    ensures HeadOf(Inserted(s, x)) == if s == [] then x else s[0]
  {
  }

  lemma WithoutHead(s: seq<nat>, i: nat)
    requires NoDup(s) && i < |s|
    ensures HeadOf(Without(s, i)) == if |s| == 1 then NIL else if s[0] == s[i] then NextC(s, i) else s[0]
  {
  }

  lemma SoleUnlink(s: seq<nat>, mem: seq<int>, i: nat, nodes: set<nat>)
    requires i < |s|
    ensures |s| == 1 ==> Circ(Without(s, i), mem)
    ensures SameHeaderWords(nodes, mem, mem)
  {
  }
}
