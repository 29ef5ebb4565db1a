/** The guard heap in memory: linear searches of the slot table, the quarantine deque and its eviction loop. */
module GuardHeap {
  import opened Seqs
  import opened Quarantine
  import opened Powers
  import opened Platform
  import opened GuardLayout

  /** What an allocation comes to. */
  datatype Outcome = Refused | Failed | Hung | Placed(user: nat)

  /** The payload's address in a mapping at `base`. */
  function UserAt(base: nat, size: nat, alignment: nat, page: nat, underflow: bool): (user: nat)
    requires page <= WORD && Acceptable(alignment, page)
  {
    (base + Place(size, alignment, page, underflow).user) % WORD
  }

  /** A request that leaves room for three pages below 2^64, in a page-aligned mapping that does not wrap. */
  ghost predicate Regular(base: nat, size: nat, alignment: nat, page: nat, k: nat, p: nat) {
    && page == Pow2(p) && p <= 60 && (if alignment < 16 then 16 else alignment) == Pow2(k) && k <= p
    && size <= WORD - 3 * page && Aligned(base, p) && base + size + 3 * page <= WORD
  }

  /** The payload lies in as many whole pages as it needs, one page into the mapping: at their start, or ending less
      than its alignment before their end. */
  ghost predicate Guarded(user: nat, base: nat, size: nat, alignment: nat, page: nat, underflow: bool) {
    exists data: nat :: DataPages(data, size, page) &&
      var start, end := base + page, base + page + data;
      && start <= user && user + size <= end
      && if underflow then user == start 
         else end < user + (if size == 0 then 1 else size) + (if alignment < 16 then 16 else alignment)
  }

  /** The least whole number of pages for the payload. */
  ghost predicate DataPages(data: nat, size: nat, page: nat) {
    exists p: nat :: page == Pow2(p) && Aligned(data, p) &&
      var bytes := if size == 0 then 1 else size;
      bytes <= data < bytes + page
  }

  lemma AcceptableIff(alignment: nat, page: nat)
    ensures var a := if alignment < 16 then 16 else alignment;
            Acceptable(alignment, page) <==> a <= page && exists j: nat :: a == Pow2(j)
  {
    hide Pow2;
    OneBitIff(Alignment(alignment));
  }

  /** In underflow mode the payload meets the page before it; otherwise it ends less than its alignment before the page
      after it. */
  lemma UserGuarded(base: nat, size: nat, alignment: nat, page: nat, underflow: bool, k: nat, p: nat)
    requires page <= WORD && Acceptable(alignment, page) && Regular(base, size, alignment, page, k, p)
    ensures var user := UserAt(base, size, alignment, page, underflow);
            Aligned(user, k) && Guarded(user, base, size, alignment, page, underflow)
  {
    hide Pow2, Aligned, Place, Acceptable;
    Pow2Mono(k, p);
    BetweenIff(size, alignment, k, page, p, underflow);
    var l := Place(size, alignment, page, underflow);
    AlignedWeaken(base, k, p);
    AlignedAdd(base, l.user, k);
    assert DataPages(l.data, size, page);
  }

  class Heap {
    const cap: nat
    const page: nat
    const underflow: bool     // payloads at the start of their pages instead of the end
    const slots: array<Slot>  // shared by all heaps of the process
    var deque: seq<nat>
    var used: nat
    var peak: nat
    var allocCalls: nat
    var freeCalls: nat
    var failed: nat
    var hangs: bool  // a call holds the mutex for ever
    ghost var freed: seq<nat>
    ghost var released: seq<nat>

    ghost function Now(): (g: Guard)
      reads this, slots
    {
      Guard(cap, slots[..], deque, freed, released)
    }

    ghost predicate Valid()
      reads this, slots
    {
      !hangs && page <= WORD && Inv(Now()) && InTable(Now()) && used == LiveBytes(slots[..]) <= peak
    }

    constructor (cap: nat, page: nat, underflow: bool, table: array<Slot>)
      requires page <= WORD && SlotsOk(table[..]) && forall i :: 0 <= i < table.Length ==> !table[i].owner.Mine?
      ensures Valid() && slots == table && this.cap == cap && this.page == page && this.underflow == underflow
      ensures deque == [] && freed == [] && released == []
    {
      this.cap, this.page, this.underflow, slots := cap, page, underflow, table;
      deque, freed, released := [], [], [];
      used, peak, allocCalls, freeCalls, failed, hangs := 0, 0, 0, 0, 0, false;
      new;
      NothingLive(table[..]);
    }

    /** find_free_slot */
    method FindEmpty() returns (r: Option<nat>)
      ensures r == EmptyFrom(slots[..], 0)
    {
      for i := 0 to slots.Length
        invariant EmptyFrom(slots[..], 0) == EmptyFrom(slots[..], i)
      {
        if slots[i].state == EMPTY && slots[i].owner.Nobody? {
          return Some(i);
        }
      }
      return None;
    }

    method FindLive(ptr: nat) returns (r: Option<nat>)
      ensures r == LiveFrom(slots[..], ptr, 0)
    {
      for i := 0 to slots.Length
        invariant LiveFrom(slots[..], ptr, 0) == LiveFrom(slots[..], ptr, i)
      {
        if slots[i].owner.Mine? && slots[i].user == ptr && slots[i].state == LIVE {
          return Some(i);
        }
      }
      return None;
    }

    /** Places a payload in a new mapping and registers it. An alignment above a page or no power of two is refused;
        without a mapping it fails. With one and no empty slot it locks its own mutex a second time and never returns;
        nothing is recorded then but that it hangs. */
    method Allocate(size: nat, alignment: nat, mapping: Option<nat>, ghost k: nat, ghost p: nat) returns (r: Outcome)
      requires Valid()
      requires mapping.Some? && Acceptable(alignment, page) ==>
                 var user := UserAt(mapping.value, size, alignment, page, underflow);
                 Admitted(Now(), Event.Allocate(mapping.value, user, size))
      modifies this`used, this`peak, this`allocCalls, this`failed, this`hangs, slots
      ensures r.Refused? <==> !Acceptable(alignment, page)
      ensures var a := if alignment < 16 then 16 else alignment;
              r.Refused? <==> a > page || forall j: nat :: a != Pow2(j)
      ensures r.Placed? && mapping.Some? && Regular(mapping.value, size, alignment, page, k, p) ==>
                Aligned(r.user, k) && Guarded(r.user, mapping.value, size, alignment, page, underflow)
      ensures r.Failed? <==> Acceptable(alignment, page) && mapping.None?
      ensures r.Hung? <==> Acceptable(alignment, page) && mapping.Some? && EmptyFrom(old(slots[..]), 0).None?
      ensures r.Placed? ==> r.user == UserAt(mapping.value, size, alignment, page, underflow)
      ensures hangs == r.Hung? && (!r.Hung? ==> Valid())
      ensures allocCalls == old(allocCalls) + (if r.Failed? || r.Placed? then 1 else 0)
      ensures failed == old(failed) + (if r.Failed? then 1 else 0)
      ensures Now() == if !r.Placed? then old(Now())
                       else Step(old(Now()), Event.Allocate(mapping.value, r.user, Bytes(size)))
      ensures peak == if used > old(peak) then used else old(peak)
      ensures used == old(used) + (if !r.Placed? then 0 else if size == 0 then 1 else size)
    {
      hide Inv, LiveBytes, InTable, Acceptable, Place, Regular, Guarded, Aligned, Pow2;
      AcceptableIff(alignment, page);
      if !Acceptable(alignment, page) {
        return Refused;
      }
      if mapping.None? {
        allocCalls := allocCalls + 1;
        failed := failed + 1;
        return Failed;
      }
      var base, user := mapping.value, UserAt(mapping.value, size, alignment, page, underflow);
      if Regular(base, size, alignment, page, k, p) {
        UserGuarded(base, size, alignment, page, underflow, k, p);
      }
      ghost var g := Now();
      StepInv(g, Event.Allocate(base, user, Bytes(size)));
      StepInTable(g, Event.Allocate(base, user, Bytes(size)));
      var i := FindEmpty();
      if i.None? {
        hangs := true;
        return Hung;
      }
      var s := Slot(LIVE, Mine, base, user, Bytes(size));
      LiveBytesPut(g.slots, i.value, s);
      slots[i.value] := s;
      assert slots[..] == g.slots[i.value := s];
      allocCalls := allocCalls + 1;
      used := used + Bytes(size);
      if used > peak {
        peak := used;
      }
      return Placed(user);
    }

    /** Quarantines a live allocation and evicts the oldest regions over the cap; any other pointer is rejected. */
    method Deallocate(ptr: nat)
      requires Valid()
      modifies this, slots
      ensures Valid() && Now() == Step(old(Now()), Free(ptr))
      ensures var i := LiveFrom(old(slots[..]), ptr, 0);
              used == old(used) - (if ptr == 0 || i.None? then 0 else old(slots[..])[i.value].size)
      ensures freeCalls == old(freeCalls) + (if ptr == 0 then 0 else 1)
      ensures allocCalls == old(allocCalls) && failed == old(failed)
      ensures peak == old(peak)
    {
      hide Inv, LiveBytes, InTable, Evict;
      if ptr == 0 {
        return;
      }
      freeCalls := freeCalls + 1;
      var i := FindLive(ptr);
      if i.None? {
        return;
      }
      ghost var g := Now();
      StepInv(g, Free(ptr));
      StepInTable(g, Free(ptr));
      Park(i.value, ptr);
      EvictOldest();
    }

    ghost predicate Queued()
      reads this, slots
    {
      SlotsOk(slots[..]) && DequeExact(Now()) && Fifo(Now()) && InTable(Now()) && used == LiveBytes(slots[..]) <= peak
    }

    method Park(i: nat, ptr: nat)
      requires Valid() && i < slots.Length && IsLive(slots[i], ptr)
      modifies this`used, this`deque, this`freed, slots
      ensures Queued() && Now() == Enqueue(old(Now()), i) && used == old(used) - old(slots[i].size)
    {
      hide SlotsOk, DequeExact, Fifo, LiveBytes, InTable;
      ghost var g := Now();
      EnqueueInv(g, i, ptr);
      DequeInTable(Enqueue(g, i));
      LiveBytesPut(g.slots, i, g.slots[i].(state := QUARANTINED));
      used := used - slots[i].size;
      freed := freed + [slots[i].base];
      slots[i] := slots[i].(state := QUARANTINED);
      deque := deque + [i];
      assert Now() == Enqueue(g, i);
    }

    method EvictOldest()
      requires Queued()
      modifies this`deque, this`released, slots
      ensures Queued() && Now() == Evict(old(Now()))
    {
      hide SlotsOk, DequeExact, Fifo, LiveBytes, InTable;
      while |deque| > cap
        invariant Queued() && Evict(Now()) == Evict(old(Now()))
        decreases |deque|
      {
        ghost var g := Now();
        FrontFacts(g);
        EvictOneInv(g);
        DequeInTable(EvictOne(g));
        var oldest := deque[0];
        LiveBytesPut(g.slots, oldest, g.slots[oldest].(state := EMPTY, owner := Nobody));
        deque := deque[1..];
        released := released + [slots[oldest].base];
        slots[oldest] := slots[oldest].(state := EMPTY, owner := Nobody);
        assert Now() == EvictOne(g);
      }
    }
  }

  /** A new heap gets to hang: 4096 allocations on an empty table, and one more. */
  method HangReached(cap: nat) returns (r: Outcome)
    ensures r.Hung?
  {
    hide Inv, LiveBytes, InTable, Heap.Valid, Acceptable, UserAt;
    var table := new Slot[MAX_REGIONS](_ => Slot(EMPTY, Nobody, 0, 0, 0));
    assert SlotsOk(table[..]);
    var heap := new Heap(cap, 4096, true, table);
    for k := 0 to MAX_REGIONS
      invariant heap.Valid() && fresh(heap) && heap.slots == table && heap.page == 4096 && heap.underflow
      invariant heap.slots[..] == FirstSlots(k)
    {
      NextEmpty(k);
      FirstUser(k);
      r := heap.Allocate(1, 16, Some(8192 * (k + 1)), 4, 12);
    }
    NextEmpty(MAX_REGIONS);
    FirstUser(MAX_REGIONS);
    r := heap.Allocate(1, 16, Some(8192 * (MAX_REGIONS + 1)), 4, 12);
  }

  lemma FirstUser(k: nat)
    requires k <= MAX_REGIONS
    ensures Acceptable(16, 4096) && UserAt(8192 * (k + 1), 1, 16, 4096, true) == 8192 * (k + 1) + 4096
  {
    Pow2Small();
    OneBitIff(16);
    assert 16 == Pow2(4);
    hide And, AlignUp;
  }

  function FirstSlot(i: nat): (s: Slot) {
    Slot(LIVE, Mine, 8192 * (i + 1), 8192 * (i + 1) + 4096, 1)
  }

  /** The table after k allocations of one byte. */
  ghost function FirstSlots(k: nat): (slots: seq<Slot>)
    ensures |slots| == MAX_REGIONS
    ensures forall i :: 0 <= i < MAX_REGIONS ==>
              slots[i] == if i < k then FirstSlot(i) else Slot(EMPTY, Nobody, 0, 0, 0)
  {
    seq(MAX_REGIONS, i requires i >= 0 => if i < k then FirstSlot(i) else Slot(EMPTY, Nobody, 0, 0, 0))
  }

  lemma NextEmpty(k: nat)
    requires k <= MAX_REGIONS
    ensures var s, m := FirstSlots(k), EmptyFrom(FirstSlots(k), 0);
            && (k < MAX_REGIONS ==> m == Some(k) && s[k := FirstSlot(k)] == FirstSlots(k + 1))
            && (k == MAX_REGIONS ==> m.None?)
            && forall i :: 0 <= i < |s| && s[i].state != EMPTY ==> s[i].user != FirstSlot(k).user
  {
    var s := FirstSlots(k);
    if k < MAX_REGIONS {
      assert IsEmpty(s[k]);
      assert s[k := FirstSlot(k)] == FirstSlots(k + 1);
    }
  }

  lemma FrontFacts(g: Guard)
    requires DequeExact(g) && g.deque != []
    ensures g.deque[0] < |g.slots| && Weight(g.slots[g.deque[0]]) == 0
  {
    assert g.deque[0] in g.deque;
  }

  lemma StepInTable(g: Guard, e: Event)
    requires Inv(g) && InTable(g) && Admitted(g, e)
    ensures InTable(Step(g, e))
  {
    StepInv(g, e);
    hide Step;
    DequeInTable(Step(g, e));
  }

  lemma {:induction false} NothingLive(slots: seq<Slot>)
    requires forall i :: 0 <= i < |slots| ==> !slots[i].owner.Mine?
    ensures LiveBytes(slots) == 0
  {
    if slots != [] {
      NothingLive(slots[..|slots| - 1]);
    }
  }
}
