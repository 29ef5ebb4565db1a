/** The guard heap's slot table and quarantine: freed regions stay mapped and inaccessible in a FIFO of bounded
    length before they go back to the system. */
module Quarantine {
  import opened Seqs

  const MAX_REGIONS: nat := 4096

  const EMPTY: int := 0
  const LIVE: int := 1
  const QUARANTINED: int := 2

  datatype Owner = Nobody | Mine | Other

  datatype Slot = Slot(state: int, owner: Owner, base: nat, user: nat, size: nat)

  /** One heap on the shared table. `freed` and `released` are the regions, by base address, in the order of the
      successful frees and of the evictions. */
  datatype Guard = Guard(cap: nat, slots: seq<Slot>, deque: seq<nat>, freed: seq<nat>, released: seq<nat>)

  datatype Event = Allocate(base: nat, user: nat, size: nat) | Free(ptr: nat)

  // ----- Searching the table -----

  predicate IsEmpty(s: Slot) {
    s.state == EMPTY && s.owner.Nobody?
  }

  predicate IsLive(s: Slot, ptr: nat) {
    s.owner.Mine? && s.user == ptr && s.state == LIVE
  }

  function EmptyFrom(slots: seq<Slot>, i: nat): (r: Option<nat>)
    requires i <= |slots|
    ensures r.Some? ==> i <= r.value < |slots| && IsEmpty(slots[r.value])
    ensures r.Some? ==> forall j :: i <= j < r.value ==> !IsEmpty(slots[j])
    ensures r.None? ==> forall j :: i <= j < |slots| ==> !IsEmpty(slots[j])
    decreases |slots| - i
  {
    if i == |slots| then None else if IsEmpty(slots[i]) then Some(i) else EmptyFrom(slots, i + 1)
  }

  function LiveFrom(slots: seq<Slot>, ptr: nat, i: nat): (r: Option<nat>)
    requires i <= |slots|
    ensures r.Some? ==> i <= r.value < |slots| && IsLive(slots[r.value], ptr)
    ensures r.Some? ==> forall j :: i <= j < r.value ==> !IsLive(slots[j], ptr)
    ensures r.None? ==> forall j :: i <= j < |slots| ==> !IsLive(slots[j], ptr)
    decreases |slots| - i
  {
    if i == |slots| then None else if IsLive(slots[i], ptr) then Some(i) else LiveFrom(slots, ptr, i + 1)
  }

  // ----- Steps -----

  function Enqueue(g: Guard, i: nat): (r: Guard)
    requires i < |g.slots|
  {
    g.(slots := g.slots[i := g.slots[i].(state := QUARANTINED)],
       deque := g.deque + [i], freed := g.freed + [g.slots[i].base])
  }

  function EvictOne(g: Guard): (r: Guard)
    requires g.deque != [] && g.deque[0] < |g.slots|
  {
    var oldest := g.deque[0];
    g.(slots := g.slots[oldest := g.slots[oldest].(state := EMPTY, owner := Nobody)],
       deque := g.deque[1..], released := g.released + [g.slots[oldest].base])
  }

  ghost predicate InTable(g: Guard) {
    forall k :: 0 <= k < |g.deque| ==> g.deque[k] < |g.slots|
  }

  function Evict(g: Guard): (r: Guard)
    requires InTable(g)
    decreases |g.deque|
  {
    if |g.deque| <= g.cap then g else Evict(EvictOne(g))
  }

  function Step(g: Guard, e: Event): (r: Guard)
    requires InTable(g)
  {
    match e
    case Allocate(base, user, size) =>
      var i := EmptyFrom(g.slots, 0);
      if i.None? then g else g.(slots := g.slots[i.value := Slot(LIVE, Mine, base, user, size)])
    case Free(ptr) =>
      if ptr == 0 then g
      else
        var i := LiveFrom(g.slots, ptr, 0);
        if i.None? then g else Evict(Enqueue(g, i.value))
  }

  // ----- Invariant -----

  ghost predicate SlotsOk(slots: seq<Slot>) {
    && |slots| == MAX_REGIONS
    && (forall i :: 0 <= i < |slots| ==>
          EMPTY <= slots[i].state <= QUARANTINED && (slots[i].owner.Nobody? <==> slots[i].state == EMPTY))
    && (forall i, j :: 0 <= i < j < |slots| && slots[i].state != EMPTY && slots[j].state != EMPTY ==>
          slots[i].user != slots[j].user)
  }

  /** The deque lists exactly this heap's quarantined slots, each once. */
  ghost predicate DequeExact(g: Guard) {
    && NoDup(g.deque)
    && forall s: nat :: s in g.deque <==> s < |g.slots| && g.slots[s].owner.Mine? && g.slots[s].state == QUARANTINED
  }

  /** What was freed is what was released followed by what is queued. */
  ghost predicate Fifo(g: Guard) {
    && |g.freed| == |g.released| + |g.deque|
    && g.released == g.freed[..|g.released|]
    && forall k :: 0 <= k < |g.deque| && g.deque[k] < |g.slots| ==>
         g.slots[g.deque[k]].base == g.freed[|g.released| + k]
  }

  /** The deque is as long as the cap allows. */
  ghost predicate Full(g: Guard) {
    |g.deque| <= g.cap && (g.released != [] ==> |g.deque| == g.cap)
  }

  ghost predicate Inv(g: Guard) {
    SlotsOk(g.slots) && DequeExact(g) && Fifo(g) && Full(g)
  }

  lemma DequeInTable(g: Guard)
    requires DequeExact(g)
    ensures InTable(g)
  {
    forall k | 0 <= k < |g.deque| ensures g.deque[k] < |g.slots| {
      assert g.deque[k] in g.deque;
    }
  }

  /** The mapping the system returns is new. */
  ghost predicate Admitted(g: Guard, e: Event) {
    e.Allocate? ==>
      e.user != 0 && forall i :: 0 <= i < |g.slots| && g.slots[i].state != EMPTY ==> g.slots[i].user != e.user
  }

  lemma AllocateInv(g: Guard, e: Event)
    requires Inv(g) && e.Allocate? && Admitted(g, e) && InTable(g)
    ensures Inv(Step(g, e)) && Step(g, e).cap == g.cap
  {
    var i := EmptyFrom(g.slots, 0);
    if i.Some? {
      assert i.value !in g.deque;
    }
  }

  lemma EnqueueInv(g: Guard, i: nat, ptr: nat)
    requires SlotsOk(g.slots) && DequeExact(g) && Fifo(g) && i < |g.slots| && IsLive(g.slots[i], ptr)
    ensures var r := Enqueue(g, i); SlotsOk(r.slots) && DequeExact(r) && Fifo(r)
  {
    var r := Enqueue(g, i);
    assert i !in g.deque;
    DequeInTable(g);
    forall s: nat ensures s in r.deque <==> s < |r.slots| && r.slots[s].owner.Mine? && r.slots[s].state == QUARANTINED {
      assert s in r.deque <==> s == i || s in g.deque;
    }
    forall k | 0 <= k < |r.deque| ensures r.slots[r.deque[k]].base == r.freed[|r.released| + k] {
      assert k < |g.deque| ==> g.deque[k] in g.deque;
    }
  }

  lemma EvictOneInv(g: Guard)
    requires SlotsOk(g.slots) && DequeExact(g) && Fifo(g) && InTable(g) && g.deque != []
    ensures var r := EvictOne(g); SlotsOk(r.slots) && DequeExact(r) && Fifo(r)
  {
    var r, oldest := EvictOne(g), g.deque[0];
    assert oldest in g.deque;
    forall s: nat ensures s in r.deque <==> s < |r.slots| && r.slots[s].owner.Mine? && r.slots[s].state == QUARANTINED {
      assert s in g.deque <==> s == oldest || s in g.deque[1..];
      HeadApart(g.deque, s);
    }
    forall k | 0 <= k < |r.deque| ensures r.slots[r.deque[k]].base == r.freed[|r.released| + k] {
      assert r.deque[k] == g.deque[k + 1];
    }
  }

  lemma HeadApart(s: seq<nat>, x: nat)
    requires NoDup(s) && s != []
    ensures x in s[1..] ==> x != s[0]
  {
  }

  /** A successful free appends to what was freed and, once the quarantine is full, releases exactly the region
      freed `cap` successful frees earlier. */
  lemma FreeReleases(g: Guard, ptr: nat)
    requires Inv(g) && InTable(g) && ptr != 0 && LiveFrom(g.slots, ptr, 0).Some?
    ensures var r := Step(g, Free(ptr));
            && Inv(r) && r.cap == g.cap && |r.freed| == |g.freed| + 1 && r.freed[..|g.freed|] == g.freed
            && r.freed[|g.freed|] == g.slots[LiveFrom(g.slots, ptr, 0).value].base
            && r.released == if |r.freed| <= g.cap then g.released else g.released + [r.freed[|r.freed| - 1 - g.cap]]
  {
    var i := LiveFrom(g.slots, ptr, 0).value;
    EnqueueInv(g, i, ptr);
    var q := Enqueue(g, i);
    DequeInTable(q);
    if |q.deque| > q.cap {
      EvictOneInv(q);
      var r := EvictOne(q);
      DequeInTable(r);
      assert |r.deque| == r.cap;
      assert r == Evict(q);
    }
  }

  lemma StepInv(g: Guard, e: Event)
    requires Inv(g) && InTable(g) && Admitted(g, e)
    ensures Inv(Step(g, e)) && Step(g, e).cap == g.cap
  {
    if e.Allocate? {
      AllocateInv(g, e);
    } else if e.ptr != 0 && LiveFrom(g.slots, e.ptr, 0).Some? {
      FreeReleases(g, e.ptr);
    }
  }

  // ----- Runs -----

  /** An allocation that finds every slot taken. It never returns, so nothing follows it. */
  predicate Stalls(g: Guard, e: Event) {
    e.Allocate? && EmptyFrom(g.slots, 0).None?
  }

  ghost predicate LegalRun(g: Guard, es: seq<Event>)
    decreases |es|
  {
    es == [] || (InTable(g) && Admitted(g, es[0]) && !Stalls(g, es[0]) && LegalRun(Step(g, es[0]), es[1..]))
  }

  ghost function Run(g: Guard, es: seq<Event>): (r: Guard)
    requires LegalRun(g, es)
    decreases |es|
  {
    if es == [] then g else Run(Step(g, es[0]), es[1..])
  }

  /** In every run the deque lists exactly the owned quarantined slots without duplicates and never exceeds the cap. */
  lemma {:induction false} RunInv(g: Guard, es: seq<Event>)
    requires Inv(g) && LegalRun(g, es)
    ensures var r := Run(g, es); Inv(r) && r.cap == g.cap && DequeExact(r) && |r.deque| <= g.cap
    decreases |es|
  {
    hide Inv, InTable;
    if es != [] {
      StepInv(g, es[0]);
      RunInv(Step(g, es[0]), es[1..]);
    }
    assert Inv(Run(g, es));
    LastFacts(Run(g, es));
  }

  lemma LastFacts(g: Guard)
    requires Inv(g)
    ensures DequeExact(g) && |g.deque| <= g.cap
  {
  }

  /** The n-th region freed has been released if and only if at least n + cap frees have succeeded. */
  lemma ReleasedIff(g: Guard, es: seq<Event>, n: nat)
    requires Inv(g) && LegalRun(g, es) && 1 <= n <= |Run(g, es).freed|
    ensures var r := Run(g, es);
            && (n <= |r.released| <==> n + g.cap <= |r.freed|)
            && (n <= |r.released| ==> r.released[n - 1] == r.freed[n - 1])
  {
    RunInv(g, es);
  }

  // ----- When the table is full -----

  function Taken(slots: seq<Slot>): (n: nat)
    ensures n <= |slots|
  {
    if slots == [] then 0 else Taken(slots[..|slots| - 1]) + if IsEmpty(slots[|slots| - 1]) then 0 else 1
  }

  lemma {:induction false} TakenPut(slots: seq<Slot>, i: nat, s: Slot)
    requires i < |slots|
    ensures Taken(slots[i := s]) ==
            Taken(slots) - (if IsEmpty(slots[i]) then 0 else 1) + (if IsEmpty(s) then 0 else 1)
  {
    var last := |slots| - 1;
    if i == last {
      assert slots[i := s][..last] == slots[..last];
    } else {
      TakenPut(slots[..last], i, s);
      assert slots[i := s][..last] == slots[..last][i := s];
    }
  }

  lemma {:induction false} TakenAllIff(slots: seq<Slot>)
    ensures Taken(slots) == |slots| <==> forall i :: 0 <= i < |slots| ==> !IsEmpty(slots[i])
    ensures Taken(slots) == 0 <==> forall i :: 0 <= i < |slots| ==> IsEmpty(slots[i])
  {
    if slots != [] {
      var last := |slots| - 1;
      assert slots == slots[..last] + [slots[last]];
      TakenAllIff(slots[..last]);
    }
  }

  lemma TakenStep(g: Guard, e: Event)
    requires Inv(g) && InTable(g) && Admitted(g, e) && !Stalls(g, e)
    ensures var r := Step(g, e);
            Taken(r.slots) + |r.released| == Taken(g.slots) + |g.released| + if e.Allocate? then 1 else 0
  {
    hide Taken, Inv;
    if e.Allocate? {
      var i := EmptyFrom(g.slots, 0).value;
      TakenPut(g.slots, i, Slot(LIVE, Mine, e.base, e.user, e.size));
    } else if e.ptr != 0 && LiveFrom(g.slots, e.ptr, 0).Some? {
      var i := LiveFrom(g.slots, e.ptr, 0).value;
      TakenPut(g.slots, i, g.slots[i].(state := QUARANTINED));
      TakenFreed(g, i, e.ptr);
    }
  }

  lemma TakenFreed(g: Guard, i: nat, ptr: nat)
    requires Inv(g) && i < |g.slots| && IsLive(g.slots[i], ptr)
    ensures var q := Enqueue(g, i);
            InTable(q) && Taken(Evict(q).slots) + |Evict(q).released| == Taken(q.slots) + |q.released|
  {
    hide Taken;
    var q := Enqueue(g, i);
    EnqueueInv(g, i, ptr);
    DequeInTable(q);
    if |q.deque| > q.cap {
      var k := q.deque[0];
      assert k in q.deque;
      TakenPut(q.slots, k, q.slots[k].(state := EMPTY, owner := Nobody));
      EvictOneInv(q);
      DequeInTable(EvictOne(q));
      assert Evict(q) == EvictOne(q);
    }
  }

  function Allocations(es: seq<Event>): (n: nat) {
    if es == [] then 0 else (if es[0].Allocate? then 1 else 0) + Allocations(es[1..])
  }

  lemma {:induction false} TakenRun(g: Guard, es: seq<Event>)
    requires Inv(g) && LegalRun(g, es)
    ensures var r := Run(g, es);
            Taken(r.slots) + |r.released| == Taken(g.slots) + |g.released| + Allocations(es)
    decreases |es|
  {
    hide Inv, InTable, Taken, Step;
    if es != [] {
      StepInv(g, es[0]);
      TakenStep(g, es[0]);
      TakenRun(Step(g, es[0]), es[1..]);
    }
  }

  /** Of a heap alone on the table, in every run: the next allocation finds no slot, and never returns, if and only if
      4096 more regions were allocated than released; a region is released `cap` frees after its own. */
  lemma StallsIff(g: Guard, es: seq<Event>, e: Event)
    requires Inv(g) && LegalRun(g, es) && e.Allocate?
    requires g.freed == [] && forall i :: 0 <= i < |g.slots| ==> IsEmpty(g.slots[i])
    ensures var r := Run(g, es);
            var released := if |r.freed| <= g.cap then 0 else |r.freed| - g.cap;
            Stalls(r, e) <==> Allocations(es) == 4096 + released
  {
    var r := Run(g, es);
    RunInv(g, es);
    TakenRun(g, es);
    TakenAllIff(g.slots);
    TakenAllIff(r.slots);
  }

  /** A free changes something if and only if its pointer is that of a live allocation of this heap. */
  lemma FreeChangesIff(g: Guard, ptr: nat)
    requires Inv(g) && InTable(g) && ptr != 0
    ensures Step(g, Free(ptr)) != g <==> exists i :: 0 <= i < |g.slots| && IsLive(g.slots[i], ptr)
  {
    if LiveFrom(g.slots, ptr, 0).Some? {
      FreeReleases(g, ptr);
    }
  }

  /** Freeing a quarantined pointer again is rejected and changes nothing. */
  lemma DoubleFreeRejected(g: Guard, s: nat)
    requires Inv(g) && InTable(g) && s in g.deque
    ensures Step(g, Free(g.slots[s].user)) == g
  {
    var ptr := g.slots[s].user;
    var i := LiveFrom(g.slots, ptr, 0);
    if i.Some? {
      SameUserSameSlot(g.slots, s, i.value);
    }
  }

  lemma SameUserSameSlot(slots: seq<Slot>, i: nat, j: nat)
    requires SlotsOk(slots) && i < |slots| && j < |slots| && slots[i].user == slots[j].user
    requires slots[i].state != EMPTY && slots[j].state != EMPTY
    ensures i == j
  {
  }

  /** Bytes of this heap's live allocations. */
  ghost function LiveBytes(slots: seq<Slot>): (n: nat) {
    if slots == [] then 0 else LiveBytes(slots[..|slots| - 1]) + Weight(slots[|slots| - 1])
  }

  function Weight(s: Slot): (n: nat) {
    if s.owner.Mine? && s.state == LIVE then s.size else 0
  }

  lemma {:induction false} LiveBytesPut(slots: seq<Slot>, i: nat, s: Slot)
    requires i < |slots|
    ensures LiveBytes(slots[i := s]) == LiveBytes(slots) - Weight(slots[i]) + Weight(s)
  {
    var last := |slots| - 1;
    if i == last {
      assert slots[i := s][..last] == slots[..last];
    } else {
      LiveBytesPut(slots[..last], i, s);
      assert slots[i := s][..last] == slots[..last][i := s];
    }
  }
}
