/** A run of the free-list allocator in which an over-aligned pointer no longer leads back to its block: an earlier
    owner left a word in the payload that looks like a header. */
module FreeStale {
  import opened Powers
  import opened Platform
  import opened Seqs
  import opened FreeSpec
  import opened FreeTheorems
  import opened FreeHeaders
  import opened FreeList

  /** The heap after one block was cut off a new one. */
  function OneBlock(need: nat): (h: Heap)
    requires need <= 4096
  {
    Heap(4096, map[0 := Block(need, true), need := Block(4096 - need, false)], [need], need)
  }

  lemma FirstAlloc(need: nat)
    requires MIN_BLOCK <= need && need % 16 == 0 && need + MIN_BLOCK <= 4096
    ensures Inv(Initial(4096)) && Alloc(Initial(4096), FirstFit, need) == (OneBlock(need), Some(0))
  {
    var h := Initial(4096);
    InitialInv(4096);
    assert h.list[0] == 0;
    hide Inv;
    var t := Take(h, 0);
    assert t == Heap(4096, map[0 := Block(4096, true)], [], NIL);
    assert SplitOff(t, 0, need) == OneBlock(need);
  }

  lemma BackToInitial(need: nat)
    requires MIN_BLOCK <= need && need + MIN_BLOCK <= 4096 && Inv(OneBlock(need))
    ensures IsUsed(OneBlock(need), 0) && Free(OneBlock(need), 0) == Initial(4096)
  {
    var h := OneBlock(need);
    FreeUsed(h, 0);
    FreeCap(h, 0);
    assert UsedMap(h) - {0} == map[];
    AllFreeIsInitial(Free(h, 0));
  }

  lemma Numbers(base: nat)
    requires Aligned(base, 12) && base + 4096 < WORD
    ensures base % 16 == 0 && NeedOf(64, 16) == 80 && NeedOf(16, 64) == 96 && Pow2(6) == 64
    ensures PointerIn(base, 0, 16) == 16 && PointerIn(base, 0, 64) == 64
  {
    hide Pow2, Aligned, AlignUp;
    Pow2Small();
    Pow2Step(5);
    AlignedWeaken(base, 4, 12);
    SixteenAligned(base);
    RoundedTo(80);
    RoundedTo(96);
    SixtyFour(base);
  }

  lemma RoundedTo(n: nat)
    requires n % 16 == 0 && n < 4096
    ensures AlignUp(n, 16) == n
  {
    hide Pow2, And, Aligned, AlignUp;
    Pow2Small();
    AlignUpLeast(n, 4);
    SixteenAligned(AlignUp(n, 16));
  }

  lemma SixtyFour(base: nat)
    requires Aligned(base, 12) && base + 4096 < WORD && Pow2(6) == 64
    ensures AlignUp(base + 24, 64) == base + 64
  {
    hide Pow2, And, Aligned, AlignUp;
    AlignUpLeast(base + 24, 6);
    AlignedWeaken(base, 6, 12);
    Pow2Aligned(6, 6);
    AlignedAdd(base, 64, 6);
    var r := AlignUp(base + 24, 64);
    if base < r < base + 64 {
      AlignedApart(base, r, 6);
    }
  }

  /** A word that looks like a header when it stands at offset 48 of a heap of 4096 bytes mapped at `base`. */
  predicate Misleading(v: int, base: nat) {
    var size := v % WORD - 1;
    size % 16 == 0 && size >= 32 && (48 + size <= 4096 || base + 48 + size >= WORD)
  }

  /** For example 33, and -31 wherever the heap is mapped. */
  lemma MisleadingWords(base: nat)
    ensures Misleading(33, base) && (base >= 4096 ==> Misleading(-31, base))
  {
  }

  /** 64 bytes are allocated, their owner writes a misleading word at offset 48 and frees them; then 16 bytes aligned to
      64 are allocated from the same place. The pointer is 64, the word before its back word is still the old one, and
      a free would take offset 48 for the header of a block. No block starts there. */
  method StaleWordTakenForHeader(base: nat, v: int) returns (a: Allocator, p: nat)
    requires Aligned(base, 12) && base + 4096 < WORD && Misleading(v, base)
    ensures a.Valid() && a.base == base && p == 64 && PointerIn(base, 0, 64) == p && IsUsed(a.model, 0)
    ensures HEADER <= p < |a.mem[..]| && HeaderFor(a.mem[..], base, p) == 48 && 48 !in a.model.blocks
  {
    hide Inv, UsedMap, NeedOf, PointerIn, Pow2, Tidy, SamePayload, Alloc, Free, Headers, UsedBytes;
    hide HeaderFor, Plausible, Misleading, Aligned;
    Numbers(base);
    Pow2Small();
    FirstAlloc(80);
    FirstAlloc(96);
    BackToInitial(80);
    a := new Allocator(4096, base, FirstFit);
    var first := a.Allocate(64, 16, 4);
    a.Store(0, 48, v);
    PlainHeader(a.model, a.mem[..], base, 0);
    ghost var m0 := a.mem[..];
    a.Deallocate(Some(first.value));
    ghost var m1 := a.mem[..];
    WordStays(OneBlock(80), Initial(4096), m0, m1);
    var second := a.Allocate(16, 64, 6);
    WordStays(Initial(4096), OneBlock(96), m1, a.mem[..][56 := m1[56]]);
    p := second.value;
    LooksLikeHeader(a.mem[..], base, v);
  }

  lemma LooksLikeHeader(m: seq<int>, base: nat, v: int)
    requires |m| == 4096 && base + 4096 < WORD && m[48] == v && Misleading(v, base)
    ensures HeaderFor(m, base, 64) == 48
  {
    PlausibleIff(m, base, 48);
  }

  lemma WordStays(h: Heap, r: Heap, m0: seq<int>, m1: seq<int>)
    requires Tidy(h, r, m0, m1) && |m0| == 4096
    requires h.blocks.Keys <= {0, 80, 96} && r.blocks.Keys <= {0, 80, 96}
    ensures m1[48] == m0[48]
  {
  }
}
