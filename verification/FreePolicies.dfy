/** Which block each placement policy picks, said without the search: the first on the list, the smallest, or the first
    from the cursor on. */
module FreePolicies {
  import opened Seqs
  import opened FreeSpec

  predicate Holds(h: Heap, x: nat, need: nat) {
    x in h.blocks && h.blocks[x].size >= need
  }

  /** The element d places after position c, cyclically. */
  function Around(s: seq<nat>, c: nat, d: nat): (x: nat)
    requires c < |s| && d <= |s|
  {
    if c + d < |s| then s[c + d] else s[c + d - |s|]
  }

  /** Everything on the list before position i is too small. */
  ghost predicate FirstAt(h: Heap, need: nat, i: nat)
    requires i < |h.list|
  {
    forall j :: 0 <= j < i ==> !Holds(h, h.list[j], need)
  }

  /** Nothing on the list that is large enough is smaller than the block at position i, and nothing before it is
      as small. */
  ghost predicate BestAt(h: Heap, need: nat, i: nat)
    requires i < |h.list|
  {
    forall j :: 0 <= j < |h.list| && Holds(h, h.list[j], need) && h.list[i] in h.blocks ==>
      && h.blocks[h.list[i]].size <= h.blocks[h.list[j]].size
      && (j < i ==> h.blocks[h.list[i]].size < h.blocks[h.list[j]].size)
  }

  /** The cursor is at position c, and everything from there on for d places is too small. */
  ghost predicate NextAt(h: Heap, need: nat, c: nat, d: nat)
    requires c < |h.list| && d < |h.list|
  {
    h.list[c] == h.cursor && forall e :: 0 <= e < d ==> !Holds(h, Around(h.list, c, e), need)
  }

  /** Block x is on the list, large enough, and the one the policy prefers. */
  ghost predicate Picks(h: Heap, policy: Policy, need: nat, x: nat) {
    && x in h.list && Holds(h, x, need)
    && match policy
       case FirstFit => exists i :: 0 <= i < |h.list| && h.list[i] == x && FirstAt(h, need, i)
       case BestFit => exists i :: 0 <= i < |h.list| && h.list[i] == x && BestAt(h, need, i)
       case NextFit =>
         exists c, d :: 0 <= c < |h.list| && 0 <= d < |h.list| && Around(h.list, c, d) == x && NextAt(h, need, c, d)
  }

  // ----- The searches -----

  lemma FirstFitPicks(h: Heap, need: nat)
    requires (forall x :: x in h.list ==> x in h.blocks) && FirstIn(h, h.list, need).Some?
    ensures Picks(h, FirstFit, need, FirstIn(h, h.list, need).value)
  {
    FirstInFits(h, h.list, need);
    var x := FirstIn(h, h.list, need).value;
    var i :| 0 <= i < |h.list| && h.list[i] == x && forall j :: 0 <= j < i ==> h.blocks[h.list[j]].size < need;
    assert FirstAt(h, need, i);
  }

  /** The best of the first n is at position i. */
  ghost predicate BestAmong(h: Heap, need: nat, n: nat, i: nat)
    requires n <= |h.list|
  {
    && i < n && Holds(h, h.list[i], need)
    && forall j :: 0 <= j < n && Holds(h, h.list[j], need) ==>
         && h.blocks[h.list[i]].size <= h.blocks[h.list[j]].size
         && (j < i ==> h.blocks[h.list[i]].size < h.blocks[h.list[j]].size)
  }

  lemma BestGrows(h: Heap, need: nat, n: nat, i: nat)
    requires n < |h.list| && BestAmong(h, need, n, i)
    ensures var better := Holds(h, h.list[n], need) && h.blocks[h.list[n]].size < h.blocks[h.list[i]].size;
            BestAmong(h, need, n + 1, if better then n else i)
  {
  }

  lemma {:induction false} BestSoFar(h: Heap, need: nat, n: nat) returns (i: nat)
    requires (forall x :: x in h.list ==> x in h.blocks) && n <= |h.list|
    ensures var r := BestIn(h, h.list[..n], need);
            && (r.None? ==> forall j :: 0 <= j < n ==> !Holds(h, h.list[j], need))
            && (r.Some? ==> BestAmong(h, need, n, i) && h.list[i] == r.value)
  {
    i := 0;
    if n > 0 {
      i := BestSoFar(h, need, n - 1);
      var t, last := h.list[..n], h.list[n - 1];
      assert t[..n - 1] == h.list[..n - 1];
      assert last in h.list;
      var b, r := BestIn(h, h.list[..n - 1], need), BestIn(h, t, need);
      assert r == if Holds(h, last, need) && (b.None? || h.blocks[last].size < h.blocks[b.value].size) then Some(last)
                  else b;
      hide BestIn;
      if b.Some? {
        BestGrows(h, need, n - 1, i);
      }
      if r != b || b.None? {
        i := n - 1;
      }
    }
  }

  lemma BestFitPicks(h: Heap, need: nat)
    requires (forall x :: x in h.list ==> x in h.blocks) && BestIn(h, h.list, need).Some?
    ensures Picks(h, BestFit, need, BestIn(h, h.list, need).value)
  {
    var i := BestSoFar(h, need, |h.list|);
    assert h.list[..|h.list|] == h.list;
    assert BestAt(h, need, i);
  }

  lemma LapAround(s: seq<nat>, x: nat, e: nat)
    requires x in s && e < |s|
    ensures LapFrom(s, x)[e] == Around(s, IndexOf(s, x), e)
  {
  }

  lemma NextFitPicks(h: Heap, need: nat)
    requires (forall x :: x in h.list ==> x in h.blocks) && h.cursor in h.list
    requires (forall x :: x in LapFrom(h.list, h.cursor) ==> x in h.blocks)
    requires FirstIn(h, LapFrom(h.list, h.cursor), need).Some?
    ensures Picks(h, NextFit, need, FirstIn(h, LapFrom(h.list, h.cursor), need).value)
  {
    var lap, c := LapFrom(h.list, h.cursor), IndexOf(h.list, h.cursor);
    LapSame(h.list, h.cursor);
    FirstInFits(h, lap, need);
    var x := FirstIn(h, lap, need).value;
    var d :| 0 <= d < |lap| && lap[d] == x && forall j :: 0 <= j < d ==> h.blocks[lap[j]].size < need;
    hide LapFrom, IndexOf, FirstIn;
    forall e | 0 <= e <= d ensures lap[e] == Around(h.list, c, e) {
      LapAround(h.list, h.cursor, e);
    }
    assert NextAt(h, need, c, d);
    assert Around(h.list, c, d) == x;
  }

  /** What is found is what the policy prefers. */
  lemma FitPicks(h: Heap, policy: Policy, need: nat)
    requires (forall x :: x in h.list ==> x in h.blocks) && (h.list != [] ==> h.cursor in h.list)
    requires Fit(h, policy, need).Some?
    ensures Picks(h, policy, need, Fit(h, policy, need).value)
  {
    hide FirstIn, BestIn, LapFrom, Picks;
    match policy {
      case FirstFit => FirstFitPicks(h, need);
      case BestFit => BestFitPicks(h, need);
      case NextFit =>
        LapSame(h.list, h.cursor);
        NextFitPicks(h, need);
    }
  }

  /** Next-Fit leaves the cursor at the block after the one it chose; the other policies leave it alone. */
  lemma AimCursor(h: Heap, policy: Policy, i: nat)
    requires NoDup(h.list) && i < |h.list|
    ensures var r := Aim(h, policy, h.list[i]);
            r == h.(cursor := if policy.NextFit? then Around(h.list, i, 1) else h.cursor)
  {
    IndexAt(h.list, i);
  }

  lemma BestOne(h: Heap, need: nat, i: nat, j: nat)
    requires i < |h.list| && j < |h.list| && Holds(h, h.list[i], need) && Holds(h, h.list[j], need)
    requires BestAt(h, need, i) && BestAt(h, need, j)
    ensures i == j
  {
    assert h.blocks[h.list[i]].size == h.blocks[h.list[j]].size;
  }

  lemma NextOne(h: Heap, need: nat, c: nat, d: nat, k: nat, e: nat)
    requires NoDup(h.list) && c < |h.list| && d < |h.list| && k < |h.list| && e < |h.list|
    requires NextAt(h, need, c, d) && NextAt(h, need, k, e)
    requires Holds(h, Around(h.list, c, d), need) && Holds(h, Around(h.list, k, e), need)
    ensures c == k && d == e
  {
    assert h.list[c] == h.list[k];
    hide Holds, Around;
  }

  /** At most one block is what a policy prefers. */
  lemma PicksOne(h: Heap, policy: Policy, need: nat, x: nat, y: nat)
    requires NoDup(h.list) && Picks(h, policy, need, x) && Picks(h, policy, need, y)
    ensures x == y
  {
    hide NoDup, Holds, BestAt, NextAt, Around;
    match policy {
      case FirstFit =>
        var i :| 0 <= i < |h.list| && h.list[i] == x && FirstAt(h, need, i);
        var j :| 0 <= j < |h.list| && h.list[j] == y && FirstAt(h, need, j);
      case BestFit =>
        var i :| 0 <= i < |h.list| && h.list[i] == x && BestAt(h, need, i);
        var j :| 0 <= j < |h.list| && h.list[j] == y && BestAt(h, need, j);
        BestOne(h, need, i, j);
      case NextFit =>
        var c, d :| 0 <= c < |h.list| && 0 <= d < |h.list| && Around(h.list, c, d) == x && NextAt(h, need, c, d);
        var k, e :| 0 <= k < |h.list| && 0 <= e < |h.list| && Around(h.list, k, e) == y && NextAt(h, need, k, e);
        NextOne(h, need, c, d, k, e);
    }
  }

  // ----- Allocation -----

  /** An allocation hands out the block its policy prefers, and only that one would do. */
  lemma AllocPicks(h: Heap, policy: Policy, need: nat)
    requires Inv(h) && MIN_BLOCK <= need && need % 16 == 0 && Alloc(h, policy, need).1.Some?
    ensures Picks(h, policy, need, Alloc(h, policy, need).1.value)
    ensures forall x :: Picks(h, policy, need, x) ==> x == Alloc(h, policy, need).1.value
  {
    ListOk(h);
    hide Inv, Picks, Fit;
    FitPicks(h, policy, need);
    var r := Alloc(h, policy, need).1.value;
    forall x | Picks(h, policy, need, x) ensures x == r {
      PicksOne(h, policy, need, x, r);
    }
  }

  lemma ListOk(h: Heap)
    requires Inv(h)
    ensures (forall x :: x in h.list ==> x in h.blocks) && NoDup(h.list) && (h.list != [] ==> h.cursor in h.list)
  {
    hide Shaped, Disjoint, Coalesced;
  }

  /** Where the cursor stands after an allocation at position i of the list: Next-Fit moves it to the block after the
      one handed out; the other policies move it only if it stood there. When the list had no other block it stands at
      the rest that was split off, if any. */
  lemma AllocCursor(h: Heap, policy: Policy, need: nat, i: nat)
    requires Inv(h) && MIN_BLOCK <= need && need % 16 == 0 && i < |h.list|
    requires Alloc(h, policy, need).1 == Some(h.list[i])
    ensures var (r, x) := Alloc(h, policy, need);
            r.cursor == if |h.list| > 1 then
                          if policy.NextFit? || h.cursor == x.value then Around(h.list, i, 1) else h.cursor
                        else if h.blocks[x.value].size - need >= MIN_BLOCK then x.value + need
                        else NIL
  {
    ListOk(h);
    hide Inv, Fit;
    IndexAt(h.list, i);
  }

  lemma IndexAt(s: seq<nat>, i: nat)
    requires NoDup(s) && i < |s|
    ensures IndexOf(s, s[i]) == i && (|s| > 1 ==> Around(s, i, 1) != s[i])
  {
  }
}
