/** The fixed-size block pool: a bitmap of 64-bit words scanned from a hint, and a run-length walk. */
module BlockPool {
  import opened Powers
  import opened Platform
  import opened Seqs
  import opened HeapWalk
  import opened BlockScan

  // ----- The bitmap -----

  predicate InUse(b: seq<nat>, i: nat) {
    i / 64 < |b| && Bit(b[i / 64], i % 64)
  }

  /** Which blocks are in use. */
  ghost function Used(b: seq<nat>, count: nat): (u: seq<bool>)
    ensures |u| == count && forall i :: 0 <= i < count ==> u[i] == InUse(b, i)
  {
    seq(count, i requires 0 <= i < count => InUse(b, i))
  }

  /** One bit per block; the bits past the last block are clear. */
  ghost predicate Bitmap(b: seq<nat>, count: nat) {
    && |b| == (count + 63) / 64
    && (forall w :: 0 <= w < |b| ==> b[w] < WORD)
    && (forall i :: count <= i < 64 * |b| ==> !InUse(b, i))
  }

  lemma {:induction false} SetBitBound(x: nat, k: nat, w: nat)
    requires x < Pow2(w) && k < w && !Bit(x, k)
    ensures x + Pow2(k) < Pow2(w)
  {
    if k > 0 {
      SetBitBound(x / 2, k - 1, w - 1);
    }
  }

  lemma BitWord(wi: nat, bit: nat, i: nat)
    requires bit < 64
    ensures (wi * 64 + bit) / 64 == wi && (wi * 64 + bit) % 64 == bit
    ensures i / 64 == wi && i % 64 == bit <==> i == wi * 64 + bit
  {
  }

  lemma SetBlock(b: seq<nat>, count: nat, wi: nat, bit: nat)
    requires Bitmap(b, count) && wi < |b| && bit < 64 && wi * 64 + bit < count && !InUse(b, wi * 64 + bit)
    ensures var r := b[wi := SetBit(b[wi], bit)];
            Bitmap(r, count) && Used(r, count) == Used(b, count)[wi * 64 + bit := true]
  {
    hide Bit, SetBit, Pow2;
    var r := b[wi := SetBit(b[wi], bit)];
    BitWord(wi, bit, 0);
    WordIsPow2();
    SetBitBound(b[wi], bit, 64);
    AddedBit(b[wi], bit);
    forall i: nat ensures InUse(r, i) == (i == wi * 64 + bit || InUse(b, i)) {
      BitWord(wi, bit, i);
      SetBitBits(b[wi], bit, i % 64);
    }
  }

  lemma AddedBit(x: nat, k: nat)
    requires !Bit(x, k)
    ensures SetBit(x, k) == x + Pow2(k)
  {
  }

  lemma ClearBlock(b: seq<nat>, count: nat, i: nat)
    requires Bitmap(b, count) && i < count && InUse(b, i)
    ensures var r := b[i / 64 := ClearBit(b[i / 64], i % 64)];
            Bitmap(r, count) && Used(b, count) == Used(r, count)[i := true] && !InUse(r, i)
  {
    hide Bit, ClearBit;
    var r := b[i / 64 := ClearBit(b[i / 64], i % 64)];
    ClearedLess(b[i / 64], i % 64);
    forall j: nat ensures InUse(r, j) == (j != i && InUse(b, j)) {
      BitWord(i / 64, i % 64, j);
      ClearBitBits(b[i / 64], i % 64, j % 64);
    }
  }

  lemma ClearedLess(x: nat, k: nat)
    ensures ClearBit(x, k) <= x
  {
  }

  // ----- The word scan -----

  /** Word v is among the first w words from the hint, cyclically. */
  predicate Seen(v: nat, hint: nat, w: nat, words: nat) {
    hint <= v < hint + w || v + words < hint + w
  }

  ghost predicate AllSeenUsed(b: seq<nat>, count: nat, hint: nat, w: nat) {
    forall i: nat :: i < count && Seen(i / 64, hint, w, |b|) ==> InUse(b, i)
  }

  lemma WrapOnce(hint: nat, w: nat, words: nat)
    requires hint < words && w < words
    ensures (hint + w) % words == if hint + w < words then hint + w else hint + w - words
  {
    if hint + w >= words {
      assert (hint + w) % words == (hint + w - words) % words;
    }
  }

  /** A word whose lowest clear bit, if any, lies past the last block holds no free block. */
  lemma WordFull(b: seq<nat>, count: nat, hint: nat, w: nat, bit: nat)
    requires Bitmap(b, count) && hint < |b| && w < |b| && AllSeenUsed(b, count, hint, w)
    requires var wi := (hint + w) % |b|;
             && (forall k: nat :: k < bit ==> Bit(b[wi], k)) && bit <= 64
             && (bit == 64 || wi * 64 + bit >= count)
    ensures AllSeenUsed(b, count, hint, w + 1)
  {
    hide Bit;
    WrapOnce(hint, w, |b|);
    var wi := (hint + w) % |b|;
    forall i: nat | i < count && Seen(i / 64, hint, w + 1, |b|) ensures InUse(b, i) {
      if i / 64 == wi {
        assert i == wi * 64 + i % 64;
        assert Bit(b[wi], i % 64);
      } else {
        assert Seen(i / 64, hint, w, |b|);
      }
    }
  }

  lemma {:induction false} OnesBits(w: nat, k: nat)
    requires k < w
    ensures Bit(Pow2(w) - 1, k)
  {
    assert (Pow2(w) - 1) / 2 == Pow2(w - 1) - 1;
    if k > 0 {
      OnesBits(w - 1, k - 1);
    }
  }

  /** The first clear bit the word scan meets is the block the linear scan finds. */
  lemma FoundFirst(b: seq<nat>, count: nat, hint: nat, w: nat, bit: nat)
    requires Bitmap(b, count) && hint < |b| && w < |b| && AllSeenUsed(b, count, hint, w) && bit < 64
    requires var wi := (hint + w) % |b|;
             wi * 64 + bit < count && !Bit(b[wi], bit) && forall k: nat :: k < bit ==> Bit(b[wi], k)
    ensures hint * 64 <= count && Linear(Used(b, count), hint * 64) == Some((hint + w) % |b| * 64 + bit)
  {
    hide Bit;
    WrapOnce(hint, w, |b|);
    var wi := (hint + w) % |b|;
    var u, idx, start := Used(b, count), wi * 64 + bit, hint * 64;
    BitWord(wi, bit, 0);
    forall k: nat | wi * 64 <= k < idx ensures u[k] {
      assert k / 64 == wi && k % 64 == k - wi * 64;
    }
    if hint + w < |b| {
      forall k: nat | start <= k < idx ensures u[k] {
        assert k >= wi * 64 || Seen(k / 64, hint, w, |b|);
      }
      FirstFreeIs(u, start, count, idx);
    } else {
      forall k: nat | start <= k < count ensures u[k] {
        assert Seen(k / 64, hint, w, |b|);
      }
      NoneFree(u, start, count);
      forall k: nat | 0 <= k < idx ensures u[k] {
        assert k >= wi * 64 || Seen(k / 64, hint, w, |b|);
      }
      FirstFreeIs(u, 0, start, idx);
    }
  }

  lemma FoundNone(b: seq<nat>, count: nat, hint: nat)
    requires Bitmap(b, count) && AllSeenUsed(b, count, hint, |b|) && (hint < |b| || hint == 0)
    ensures hint * 64 <= count && Linear(Used(b, count), hint * 64) == None
  {
    var u := Used(b, count);
    forall i: nat | i < count ensures u[i] {
      assert Seen(i / 64, hint, |b|, |b|);
    }
    LinearComplete(u, hint * 64);
  }

  // ----- Run-length walk -----

  function Repeat(v: bool, n: nat): (s: seq<bool>)
    ensures |s| == n && forall i :: 0 <= i < n ==> s[i] == v
  {
    seq(n, i requires 0 <= i < n => v)
  }

  /** The blocks a walk describes. */
  ghost function Decode(w: seq<BlockInfo>, size: nat): (u: seq<bool>)
    requires size > 0
  {
    if w == [] then []
    else Decode(w[..|w| - 1], size) + Repeat(!w[|w| - 1].isFree, w[|w| - 1].size / size)
  }

  /** No two neighbouring reports could be one. */
  ghost predicate Alternating(w: seq<BlockInfo>) {
    forall i :: 0 <= i < |w| - 1 ==> w[i].isFree != w[i + 1].isFree
  }

  /** The reports so far describe the first n blocks, and the next run differs from the last report. */
  ghost predicate WalkedTo(w: seq<BlockInfo>, u: seq<bool>, size: nat, n: nat, next: bool)
    requires size > 0 && n <= |u|
  {
    && Tiling(w, n * size) && Decode(w, size) == u[..n] && Alternating(w) && WholeBlocks(w, size)
    && UsedSum(w) == Count(u[..n]) * size
    && (w != [] ==> w[|w| - 1].isFree == next)
  }

  lemma {:induction false} CountRun(u: seq<bool>, n: nat, m: nat)
    requires n <= m <= |u| && forall k :: n <= k < m ==> u[k] == u[n]
    ensures Count(u[..m]) == Count(u[..n]) + if n < m && u[n] then m - n else 0
  {
    if n < m {
      CountRun(u, n, m - 1);
      assert u[..m][..m - 1] == u[..m - 1];
    }
  }

  /** The report of `len` blocks from block n. */
  function RunOf(n: nat, len: nat, size: nat, isFree: bool): (i: BlockInfo) {
    BlockInfo(n * size, len * size, isFree)
  }

  lemma EmitRun(w: seq<BlockInfo>, u: seq<bool>, size: nat, n: nat, m: nat)
    requires size > 0 && n < m <= |u| && WalkedTo(w, u, size, n, u[n]) && forall k :: n <= k < m ==> u[k] == u[n]
    ensures WalkedTo(w + [RunOf(n, m - n, size, !u[n])], u, size, m, !u[n])
  {
    hide Tiling, UsedSum, Count, Decode, Alternating, WholeBlocks;
    var i := RunOf(n, m - n, size, !u[n]);
    MulAdd(n, m - n, size);
    EmitShape(w, i, size, m - n);
    EmitBlocks(w, u, size, n, m);
    UsedSumAppend(w, i);
    CountRun(u, n, m);
    MulAdd(Count(u[..n]), m - n, size);
  }

  lemma EmitShape(w: seq<BlockInfo>, i: BlockInfo, size: nat, k: nat)
    requires size > 0 && k > 0 && i.size == k * size && Alternating(w) && WholeBlocks(w, size)
    requires w != [] ==> w[|w| - 1].isFree != i.isFree
    ensures Alternating(w + [i]) && WholeBlocks(w + [i], size)
  {
    DivExact(k, size);
    MulAtLeast(k, size);
  }

  lemma EmitBlocks(w: seq<BlockInfo>, u: seq<bool>, size: nat, n: nat, m: nat)
    requires size > 0 && n < m <= |u| && Decode(w, size) == u[..n] && forall k :: n <= k < m ==> u[k] == u[n]
    ensures Decode(w + [RunOf(n, m - n, size, !u[n])], size) == u[..m]
  {
    hide Decode;
    DecodeAppend(w, RunOf(n, m - n, size, !u[n]), size);
    DivExact(m - n, size);
    assert u[..n] + Repeat(u[n], m - n) == u[..m];
  }

  lemma MulAdd(a: nat, b: nat, size: nat)
    ensures (a + b) * size == a * size + b * size && (b > 0 && size > 0 ==> b * size > 0)
  {
  }

  lemma DecodeAppend(w: seq<BlockInfo>, i: BlockInfo, size: nat)
    requires size > 0
    ensures Decode(w + [i], size) == Decode(w, size) + Repeat(!i.isFree, i.size / size)
  {
    assert (w + [i])[..|w|] == w;
  }

  ghost predicate WholeBlocks(w: seq<BlockInfo>, size: nat)
    requires size > 0
  {
    forall i :: 0 <= i < |w| ==> w[i].size > 0 && w[i].size % size == 0
  }

  lemma Blocks(s: nat, size: nat)
    requires size > 0 && s > 0 && s % size == 0
    ensures s / size > 0 && s / size * size == s
  {
    assert s == s / size * size + s % size;
    MulAtLeast(s / size, size);
  }

  /** The blocks alone say how long the last report is. */
  lemma LastRun(w: seq<BlockInfo>, size: nat)
    requires size > 0 && w != [] && Alternating(w) && WholeBlocks(w, size)
    ensures var u, last := Decode(w, size), w[|w| - 1];
            var k := last.size / size;
            && 0 < k <= |u|
            && (forall i :: |u| - k <= i < |u| ==> u[i] == !last.isFree)
            && (k < |u| ==> u[|u| - k - 1] == last.isFree)
            && u[..|u| - k] == Decode(w[..|w| - 1], size)
  {
    var front, last := w[..|w| - 1], w[|w| - 1];
    Blocks(last.size, size);
    if front != [] {
      var second := front[|front| - 1];
      assert front[..|front| - 1] == w[..|w| - 2];
      assert second.isFree != last.isFree;
      Blocks(second.size, size);
    }
  }

  /** The walk is the only report of its blocks in which no two neighbours could be one. */
  lemma {:induction false} WalkUnique(w: seq<BlockInfo>, v: seq<BlockInfo>, size: nat, end: nat)
    requires size > 0 && Tiling(w, end) && Tiling(v, end) && Alternating(w) && Alternating(v)
    requires WholeBlocks(w, size) && WholeBlocks(v, size) && Decode(w, size) == Decode(v, size)
    ensures w == v
  {
    if w != [] && v != [] {
      hide Decode, Alternating, WholeBlocks;
      var a, b := w[|w| - 1], v[|v| - 1];
      LastSame(w, v, size, end);
      FrontFacts(w, size);
      FrontFacts(v, size);
      WalkUnique(w[..|w| - 1], v[..|v| - 1], size, a.offset);
      assert w == w[..|w| - 1] + [a] && v == v[..|v| - 1] + [b];
    }
  }

  lemma LastSame(w: seq<BlockInfo>, v: seq<BlockInfo>, size: nat, end: nat)
    requires size > 0 && w != [] && v != [] && Tiling(w, end) && Tiling(v, end) && Alternating(w) && Alternating(v)
    requires WholeBlocks(w, size) && WholeBlocks(v, size) && Decode(w, size) == Decode(v, size)
    ensures w[|w| - 1] == v[|v| - 1] && Decode(w[..|w| - 1], size) == Decode(v[..|v| - 1], size)
  {
    var a, b := w[|w| - 1], v[|v| - 1];
    Blocks(a.size, size);
    Blocks(b.size, size);
    hide Decode, Alternating, WholeBlocks;
    LastRun(w, size);
    LastRun(v, size);
    LastEqual(Decode(w, size), a.size / size, !a.isFree, b.size / size, !b.isFree);
  }

  lemma FrontFacts(w: seq<BlockInfo>, size: nat)
    requires size > 0 && w != [] && Alternating(w) && WholeBlocks(w, size)
    ensures Alternating(w[..|w| - 1]) && WholeBlocks(w[..|w| - 1], size)
  {
  }

  lemma LastEqual(u: seq<bool>, j: nat, x: bool, k: nat, y: bool)
    requires 0 < j <= |u| && 0 < k <= |u|
    requires (forall i :: |u| - j <= i < |u| ==> u[i] == x) && (j < |u| ==> u[|u| - j - 1] != x)
    requires (forall i :: |u| - k <= i < |u| ==> u[i] == y) && (k < |u| ==> u[|u| - k - 1] != y)
    ensures j == k && x == y
  {
    assert u[|u| - 1] == x;
  }

  lemma WalkNone(u: seq<bool>, size: nat, next: bool)
    requires size > 0
    ensures WalkedTo([], u, size, 0, next)
  {
  }

  lemma WalkAll(w: seq<BlockInfo>, u: seq<bool>, size: nat, next: bool)
    requires size > 0 && WalkedTo(w, u, size, |u|, next)
    ensures Tiling(w, |u| * size) && Decode(w, size) == u && Alternating(w) && WholeBlocks(w, size)
    ensures UsedSum(w) == Count(u) * size
  {
    assert u[..|u|] == u;
  }

  // ----- The pool -----

  lemma AllClear(b: seq<nat>, count: nat)
    requires |b| == (count + 63) / 64 && forall w :: 0 <= w < |b| ==> b[w] == 0
    ensures Bitmap(b, count) && Count(Used(b, count)) == 0 && forall i :: 0 <= i < count ==> !InUse(b, i)
  {
    forall i: nat ensures !InUse(b, i) {
      ZeroBits(i % 64);
    }
    CountNone(Used(b, count));
  }

  lemma {:induction false} CountNone(u: seq<bool>)
    requires forall i :: 0 <= i < |u| ==> !u[i]
    ensures Count(u) == 0
  {
    if u != [] {
      CountNone(u[..|u| - 1]);
    }
  }

  lemma MapFacts(b: seq<nat>, count: nat, w: nat)
    requires Bitmap(b, count)
    ensures |b| == (count + 63) / 64 && (w < |b| ==> b[w] < WORD && w * 64 < count)
  {
  }

  lemma NothingSeen(b: seq<nat>, count: nat, hint: nat)
    requires hint < |b| || hint == 0
    ensures AllSeenUsed(b, count, hint, 0)
  {
  }

  lemma OnesWord(x: nat)
    requires x == WORD - 1
    ensures forall k: nat :: k < 64 ==> Bit(x, k)
  {
    WordIsPow2();
    forall k: nat | k < 64 ensures Bit(x, k) {
      OnesBits(64, k);
    }
  }

  // ----- Creation -----

  /** Bytes reserved for the blocks, on 64-bit words: the product wraps, and so does rounding it up to whole pages. */
  function Reserved(blockSize: nat, blockCount: nat, page: nat): (bytes: nat)
    requires 1 <= page <= WORD
  {
    AlignUp(AlignUp(blockSize, 16) * blockCount % WORD, page)
  }

  /** The memory reserved holds all blocks if and only if their bytes and one page together are at most 2^64; it is then
      the least whole number of pages. */
  lemma ReservedHoldsIff(blockSize: nat, blockCount: nat, k: nat)
    requires k <= 63 && Pow2(k) <= WORD
    ensures var bytes := AlignUp(blockSize, 16) * blockCount;
            && (Reserved(blockSize, blockCount, Pow2(k)) >= bytes <==> bytes + Pow2(k) <= WORD)
            && (bytes + Pow2(k) <= WORD ==>
                  var r := Reserved(blockSize, blockCount, Pow2(k)); Aligned(r, k) && r < bytes + Pow2(k))
  {
    hide Pow2, And, Aligned, AlignUp;
    var bytes := AlignUp(blockSize, 16) * blockCount;
    var n := bytes % WORD;
    if n + Pow2(k) <= WORD {
      AlignUpLeast(n, k);
    } else {
      AlignUpWraps(n, k);
    }
  }

  /** For example: 17 blocks of 2^60 bytes get the memory of one. */
  lemma ReservedForOne()
    ensures Reserved(0x1000_0000_0000_0000, 17, 4096) == 0x1000_0000_0000_0000
  {
    hide Pow2, And, Aligned, AlignUp;
    Pow2Small();
    Pow2Add(4, 4);
    Pow2Add(8, 4);
    WordIsPow2();
    Pow2Add(60, 4);
    AlreadyAligned(60, 4);
    AlreadyAligned(60, 12);
  }

  lemma AlreadyAligned(j: nat, k: nat)
    requires k <= j <= 63 && Pow2(j) + Pow2(k) <= WORD
    ensures AlignUp(Pow2(j), Pow2(k)) == Pow2(j)
  {
    hide Pow2, And, Aligned, AlignUp;
    Pow2Aligned(k, j);
    AlignUpLeast(Pow2(j), k);
  }

  /** hf_block_pool_create. No memory can be mapped for zero bytes, so there is no pool then. */
  method Create(blockSize: nat, blockCount: nat, page: nat) returns (pool: Pool?)
    requires blockSize < WORD && blockCount <= WORD - 64 && 1 <= page <= WORD
    ensures pool == null <==> Reserved(blockSize, blockCount, page) == 0
    ensures pool != null ==>
              && fresh(pool) && fresh(pool.bitmap) && pool.Valid()
              && pool.blockCount == blockCount && pool.blockSize == AlignUp(blockSize, 16)
              && pool.capacity == Reserved(blockSize, blockCount, page)
              && forall i :: 0 <= i < blockCount ==> !pool.InUseNow()[i]
  {
    hide AlignUp;
    var bytes := Reserved(blockSize, blockCount, page);
    if bytes == 0 {
      return null;
    }
    pool := new Pool(blockSize, blockCount, page);
  }

  class Pool {
    const blockSize: nat
    const blockCount: nat
    const capacity: nat
    const bitmap: array<nat>
    var hint: nat
    var used: nat
    var peak: nat
    var allocCalls: nat
    var freeCalls: nat
    var failed: nat

    /** The bytes in use are the set bits times the block size. */
    ghost predicate Valid()
      reads this, bitmap
    {
      && blockSize > 0 && blockCount > 0 && Bitmap(bitmap[..], blockCount) && (hint < bitmap.Length || hint == 0)
      && used == Count(InUseNow()) * blockSize && used <= peak
    }

    ghost function InUseNow(): (u: seq<bool>)
      reads bitmap
      ensures |u| == blockCount
    {
      Used(bitmap[..], blockCount)
    }

    constructor (blockSize: nat, blockCount: nat, page: nat)
      requires blockSize < WORD && 1 <= page <= WORD && Reserved(blockSize, blockCount, page) > 0
      ensures Valid() && fresh(bitmap) && this.blockCount == blockCount && this.blockSize == AlignUp(blockSize, 16)
      ensures capacity == Reserved(blockSize, blockCount, page)
      ensures forall i :: 0 <= i < blockCount ==> !InUseNow()[i]
    {
      hide Bit, And, Pow2, Aligned, Bitmap, Used, Count;
      this.blockSize, this.blockCount := AlignUp(blockSize, 16), blockCount;
      capacity := Reserved(blockSize, blockCount, page);
      bitmap := new nat[(blockCount + 63) / 64](_ => 0);
      hint, used, peak, allocCalls, freeCalls, failed := 0, 0, 0, 0, 0, 0;
      new;
      AlignUpZero(page);
      AllClear(bitmap[..], blockCount);
    }

    /** The scan of bp_allocate: from any hint it finds what the linear scan finds, a partly valid last word
        included. */
    method Scan() returns (found: bool, wi: nat, bit: nat)
      requires Valid()
      ensures hint * 64 <= blockCount
      ensures var r := Linear(InUseNow(), hint * 64);
              if found then r == Some(wi * 64 + bit) && bit < 64 && wi < bitmap.Length else r == None
    {
      hide Bit, Bitmap, AllSeenUsed, Linear;
      ghost var b := bitmap[..];
      MapFacts(b, blockCount, hint);
      NothingSeen(b, blockCount, hint);
      var w := 0;
      while w < bitmap.Length
        invariant 0 <= w <= bitmap.Length && AllSeenUsed(b, blockCount, hint, w)
      {
        wi := (hint + w) % bitmap.Length;
        MapFacts(b, blockCount, wi);
        var bits := bitmap[wi];
        if bits == WORD - 1 {
          OnesWord(b[wi]);
          WordFull(b, blockCount, hint, w, 64);
        } else {
          bit := LowestZero(bits);
          if wi * 64 + bit >= blockCount {
            WordFull(b, blockCount, hint, w, bit);
          } else {
            FoundFirst(b, blockCount, hint, w, bit);
            return true, wi, bit;
          }
        }
        w := w + 1;
      }
      FoundNone(b, blockCount, hint);
      return false, 0, 0;
    }

    /** bp_allocate: the offset of a block that was free, or none exactly when the request is larger than a
        block or every block is in use. */
    method Allocate(size: nat) returns (p: Option<nat>)
      requires Valid()
      modifies this, bitmap
      ensures Valid() && allocCalls == old(allocCalls) + 1 && freeCalls == old(freeCalls)
      ensures failed == old(failed) + (if p.None? then 1 else 0)
      ensures old(hint) * 64 <= blockCount
      ensures var r := Linear(old(InUseNow()), old(hint) * 64);
              if size > blockSize || r.None? then
                p.None? && InUseNow() == old(InUseNow()) && hint == old(hint)
              else
                && r.value < blockCount && !old(InUseNow())[r.value]
                && p == Some(r.value * blockSize) && hint == r.value / 64
                && InUseNow() == old(InUseNow())[r.value := true]
      ensures peak == if used > old(peak) then used else old(peak)
    {
      hide Bit, Bitmap, Linear, Count, Used, SetBit;
      MapFacts(bitmap[..], blockCount, hint);
      allocCalls := allocCalls + 1;
      if size > blockSize {
        failed := failed + 1;
        return None;
      }
      var found, wi, bit := Scan();
      ghost var b, u := bitmap[..], InUseNow();
      LinearComplete(u, hint * 64);
      if !found {
        failed := failed + 1;
        return None;
      }
      var idx := wi * 64 + bit;
      SetBlock(b, blockCount, wi, bit);
      CountFlip(u, idx);
      BitWord(wi, bit, 0);
      MulAdd(Count(u), 1, blockSize);
      bitmap[wi] := SetBit(bitmap[wi], bit);
      assert bitmap[..] == b[wi := SetBit(b[wi], bit)];
      hint := wi;
      used := used + blockSize;
      if used > peak {
        peak := used;
      }
      return Some(idx * blockSize);
    }

    /** bp_deallocate: exactly the freed block becomes free. */
    method Deallocate(p: Option<nat>)
      requires Valid()
      requires p.Some? ==>
                 && p.value % blockSize == 0
                 && p.value / blockSize < blockCount && InUseNow()[p.value / blockSize]
      modifies this, bitmap
      ensures Valid() && allocCalls == old(allocCalls) && failed == old(failed)
      ensures freeCalls == old(freeCalls) + (if p.None? then 0 else 1)
      ensures p.None? ==> InUseNow() == old(InUseNow()) && hint == old(hint)
      ensures p.Some? ==>
                InUseNow() == old(InUseNow())[p.value / blockSize := false] && hint == p.value / blockSize / 64
      ensures peak == old(peak)
    {
      hide Bit, Bitmap, Count, Used, ClearBit;
      if p.None? {
        return;
      }
      freeCalls := freeCalls + 1;
      var idx := p.value / blockSize;
      ghost var b, u := bitmap[..], InUseNow();
      MapFacts(b, blockCount, idx / 64);
      ClearBlock(b, blockCount, idx);
      bitmap[idx / 64] := ClearBit(bitmap[idx / 64], idx % 64);
      assert bitmap[..] == b[idx / 64 := ClearBit(b[idx / 64], idx % 64)];
      ghost var v := InUseNow();
      CountFlip(v, idx);
      MulAdd(Count(v), 1, blockSize);
      assert v == u[idx := false];
      hint := idx / 64;
      used := used - blockSize;
    }

    /** bp_walk: the runs of equal blocks, each as long as it gets, in address order. */
    method Walk() returns (w: seq<BlockInfo>)
      requires Valid()
      ensures Tiling(w, blockCount * blockSize) && Decode(w, blockSize) == InUseNow()
      ensures Alternating(w) && WholeBlocks(w, blockSize)
      ensures UsedSum(w) == used
    {
      hide Bitmap, Used, WalkedTo, InUse, Tiling, Decode, UsedSum, Count, Alternating, WholeBlocks;
      ghost var u := InUseNow();
      w := [];
      var runStart := 0;
      var runUsed := InUse(bitmap[..], 0);
      WalkNone(u, blockSize, u[0]);
      var i := 1;
      while i <= blockCount
        invariant 1 <= i <= blockCount + 1 && 0 <= runStart <= blockCount
        invariant i <= blockCount ==>
                    runStart < i && runUsed == u[runStart] && forall k :: runStart <= k < i ==> u[k] == runUsed
        invariant i > blockCount ==> runStart == blockCount
        invariant WalkedTo(w, u, blockSize, runStart, runUsed)
      {
        var isUsed := if i < blockCount then InUse(bitmap[..], i) else !runUsed;
        if isUsed != runUsed {
          EmitRun(w, u, blockSize, runStart, i);
          w := w + [RunOf(runStart, i - runStart, blockSize, !runUsed)];
          runStart, runUsed := i, isUsed;
        }
        i := i + 1;
      }
      WalkAll(w, u, blockSize, runUsed);
    }
  }
}
