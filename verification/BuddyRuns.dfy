/** Whole runs of the buddy heap: any interleaving of requests and frees. */
module BuddyRuns {
  import opened Powers
  import opened Seqs
  import opened BuddySpec
  import opened BuddyTheorems

  datatype Request = Want(order: nat) | Give(offset: nat)

  /** What callers owe: an order the allocator can compute, or a block they hold. */
  predicate Legal(b: Buddy, q: Request) {
    match q
    case Want(k) => b.lo <= k
    case Give(x) => IsUsed(b, x)
  }

  ghost function Step(b: Buddy, q: Request): (r: Buddy)
    requires Inv(b) && Legal(b, q)
    ensures Inv(r)
  {
    match q
    case Want(k) => Alloc(b, k).0
    case Give(x) => MergeUp(b, x)
  }

  ghost predicate LegalRun(b: Buddy, qs: seq<Request>)
    requires Inv(b)
    decreases |qs|
  {
    qs == [] || (Legal(b, qs[0]) && LegalRun(Step(b, qs[0]), qs[1..]))
  }

  ghost function Run(b: Buddy, qs: seq<Request>): (r: Buddy)
    requires Inv(b) && LegalRun(b, qs)
    ensures Inv(r)
    decreases |qs|
  {
    if qs == [] then b else Run(Step(b, qs[0]), qs[1..])
  }

  /** The live allocations as the callers see them, without looking inside the heap:
      each answered request adds a block, each free removes it. */
  ghost function Ledger(b: Buddy, live: map<nat, nat>, qs: seq<Request>): (m: map<nat, nat>)
    requires Inv(b) && LegalRun(b, qs)
    decreases |qs|
  {
    if qs == [] then live
    else
      var next := match qs[0]
                  case Want(k) =>
                    var x := Alloc(b, k).1;
                    if x.Some? then live[x.value := k] else live
                  case Give(x) => live - {x};
      Ledger(Step(b, qs[0]), next, qs[1..])
  }

  /** In every reachable state the blocks tile the heap, the lists are exact, no two free
      buddies coexist, and the used blocks are exactly the callers' live allocations. */
  lemma {:induction false} RunSafe(b: Buddy, qs: seq<Request>)
    requires Inv(b) && Canonical(b) && LegalRun(b, qs)
    ensures Inv(Run(b, qs)) && Canonical(Run(b, qs))
    ensures Run(b, qs).lo == b.lo && Run(b, qs).hi == b.hi
    ensures UsedMap(Run(b, qs)) == Ledger(b, UsedMap(b), qs)
    decreases |qs|
  {
    if qs != [] {
      match qs[0] {
        case Want(k) => AllocUsed(b, k);
        case Give(x) => MergeUpUsed(b, x);
      }
      RunSafe(Step(b, qs[0]), qs[1..]);
    }
  }

  /** Live allocations never overlap. */
  lemma LiveDisjoint(b: Buddy, qs: seq<Request>, x: nat, y: nat)
    requires Inv(b) && Canonical(b) && LegalRun(b, qs)
    requires var live := Ledger(b, UsedMap(b), qs); x in live && y in live && x < y
    ensures x + Pow2(Ledger(b, UsedMap(b), qs)[x]) <= y
    ensures y + Pow2(Ledger(b, UsedMap(b), qs)[y]) <= Pow2(b.hi)
  {
    RunSafe(b, qs);
    var r := Run(b, qs);
    assert x in UsedMap(r) && y in UsedMap(r);
  }

  ghost function Gives(xs: seq<nat>): (qs: seq<Request>)
    ensures |qs| == |xs| && forall i :: 0 <= i < |xs| ==> qs[i] == Give(xs[i])
  {
    seq(|xs|, i requires 0 <= i < |xs| => Give(xs[i]))
  }

  /** Freeing every live block, in any order, restores the single top-order block. */
  lemma {:induction false} FreeEverything(b: Buddy, xs: seq<nat>)
    requires Inv(b) && Canonical(b)
    requires NoDup(xs) && forall x: nat :: x in xs <==> x in UsedMap(b)
    ensures LegalRun(b, Gives(xs))
    ensures Run(b, Gives(xs)) == Initial(b.lo, b.hi)
    decreases |xs|
  {
    if xs == [] {
      assert UsedMap(b) == map[];
      AllFreeIsInitial(b);
    } else {
      assert xs[0] in UsedMap(b);
      assert IsUsed(b, xs[0]);
      hide Inv, Canonical, UsedMap, IsUsed;
      MergeUpUsed(b, xs[0]);
      TailSet(xs);
      FreeEverything(MergeUp(b, xs[0]), xs[1..]);
      assert Gives(xs)[1..] == Gives(xs[1..]);
    }
  }
}
