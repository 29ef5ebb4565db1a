/** What a heap walk reports, common to all allocators. */
module HeapWalk {

  datatype BlockInfo = BlockInfo(offset: nat, size: nat, isFree: bool)

  /** The reports tile [0, end) in address order. */
  ghost predicate Tiling(w: seq<BlockInfo>, end: nat) {
    if w == [] then end == 0
    else
      var last := w[|w| - 1];
      last.size > 0 && last.offset + last.size == end && Tiling(w[..|w| - 1], last.offset)
  }

  ghost function SizeSum(w: seq<BlockInfo>): (s: nat) {
    if w == [] then 0 else SizeSum(w[..|w| - 1]) + w[|w| - 1].size
  }

  /** The sizes reported sum to the bytes covered. */
  lemma {:induction false} TilingSum(w: seq<BlockInfo>, end: nat)
    requires Tiling(w, end)
    ensures SizeSum(w) == end
  {
    if w != [] {
      TilingSum(w[..|w| - 1], w[|w| - 1].offset);
    }
  }

  /** Total size of the used blocks reported. */
  ghost function UsedSum(w: seq<BlockInfo>): (s: nat) {
    if w == [] then 0
    else UsedSum(w[..|w| - 1]) + if w[|w| - 1].isFree then 0 else w[|w| - 1].size
  }

  lemma UsedSumAppend(w: seq<BlockInfo>, i: BlockInfo)
    ensures UsedSum(w + [i]) == UsedSum(w) + if i.isFree then 0 else i.size
    ensures i.size > 0 && Tiling(w, i.offset) ==> Tiling(w + [i], i.offset + i.size)
  {
    assert (w + [i])[..|w|] == w;
  }

  // ----- Bytes in use -----

  /** Bytes of the blocks that start below n, given the size of each. */
  ghost function SizeBelow(sizes: map<nat, nat>, n: nat): (s: nat) {
    if n == 0 then 0 else SizeBelow(sizes, n - 1) + if n - 1 in sizes then sizes[n - 1] else 0
  }

  lemma {:induction false} SizeBelowAdd(sizes: map<nat, nat>, x: nat, v: nat, n: nat)
    requires x !in sizes
    ensures SizeBelow(sizes[x := v], n) == SizeBelow(sizes, n) + if x < n then v else 0
  {
    if n > 0 {
      SizeBelowAdd(sizes, x, v, n - 1);
    }
  }

  lemma {:induction false} EmptyBytes(n: nat)
    ensures SizeBelow(map[], n) == 0
  {
    if n > 0 {
      EmptyBytes(n - 1);
    }
  }
}
