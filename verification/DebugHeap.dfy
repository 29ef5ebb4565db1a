/** The debug heap's bookkeeping: a probing table from user pointer to allocation that doubles at 70% load,
    the verdict on each free, and the leak report. */
module DebugHeap {
  import opened Powers
  import opened Platform
  import opened Seqs
  import opened ProbeTable
  import opened Canaries

  // ----- What the table stands for -----

  datatype Book = Book(cap: nat, entries: map<nat, Entry>)

  /** What happens to a free: null pointers are ignored; an unknown pointer or one marked freed is reported;
      an entry with neither a mark nor a raw block sends the canary check through a null pointer. */
  datatype Verdict = Ignored | NotOwned | FreedTwice | NullRaw | Reclaimed(raw: nat)

  predicate Crowded(count: nat, cap: nat) {
    (count + 1) * 10 >= cap * 7
  }

  /** A rehash copies key, raw block and size; the freed mark is not copied. */
  function Unmarked(m: map<nat, Entry>): (r: map<nat, Entry>) {
    map u | u in m :: m[u].(freed := false)
  }

  function PutBook(b: Book, e: Entry): (r: Book) {
    if Crowded(|b.entries|, b.cap) then Book(b.cap * 2, Unmarked(b.entries)[e.user := e])
    else b.(entries := b.entries[e.user := e])
  }

  function Judge(b: Book, p: nat): (v: Verdict) {
    if p == 0 then Ignored
    else if p !in b.entries then NotOwned
    else if b.entries[p].freed then FreedTwice
    else if b.entries[p].raw == 0 then NullRaw
    else Reclaimed(b.entries[p].raw)
  }

  function FreeBook(b: Book, p: nat): (r: Book) {
    if p in b.entries && Judge(b, p).Reclaimed? then
      b.(entries := b.entries[p := b.entries[p].(raw := 0, freed := true)])
    else b
  }

  predicate IsLive(e: Entry) {
    !e.freed && e.raw != 0
  }

  ghost function LiveKeys(m: map<nat, Entry>): (s: set<nat>) {
    set u | u in m && IsLive(m[u])
  }

  ghost predicate Dead(m: map<nat, Entry>) {
    forall u :: u in m && m[u].freed ==> m[u].raw == 0
  }

  /** A rehash keeps every key with its raw block and size, and exactly the live allocations. */
  lemma RehashKeepsLive(m: map<nat, Entry>)
    requires Dead(m)
    ensures Unmarked(m).Keys == m.Keys && LiveKeys(Unmarked(m)) == LiveKeys(m) && Dead(Unmarked(m))
    ensures forall u :: u in m ==> Unmarked(m)[u].raw == m[u].raw && Unmarked(m)[u].size == m[u].size
  {
  }

  // ----- Double frees over whole runs -----

  datatype Event = Allocated(user: nat, raw: nat, size: nat) | Released(user: nat)

  function Step(b: Book, q: Event): (r: Book) {
    match q
    case Allocated(u, raw, size) => PutBook(b, Entry(u, raw, size, false))
    case Released(u) => FreeBook(b, u)
  }

  function Run(b: Book, qs: seq<Event>): (r: Book)
    decreases |qs|
  {
    if qs == [] then b else Run(Step(b, qs[0]), qs[1..])
  }

  predicate Avoids(qs: seq<Event>, u: nat) {
    forall i :: 0 <= i < |qs| && qs[i].Allocated? ==> qs[i].user != u
  }

  /** A second free of the same allocation is reported as such if and only if the table has not grown in between;
      after growth it goes through a null pointer instead. */
  lemma {:induction false} DoubleFreeSeenIff(b: Book, qs: seq<Event>, u: nat)
    requires 0 < b.cap && u != 0 && Judge(b, u).Reclaimed? && Avoids(qs, u)
    ensures var r := Run(FreeBook(b, u), qs);
            && r.cap >= b.cap
            && (Judge(r, u) == FreedTwice <==> r.cap == b.cap)
            && (Judge(r, u) == NullRaw <==> r.cap > b.cap)
  {
    MarkLastsWhileCapDoes(FreeBook(b, u), qs, u);
  }

  lemma {:induction false} MarkLastsWhileCapDoes(b: Book, qs: seq<Event>, u: nat)
    requires 0 < b.cap && u in b.entries && b.entries[u].raw == 0 && Avoids(qs, u)
    ensures var r := Run(b, qs);
            && u in r.entries && r.entries[u].raw == 0 && r.cap >= b.cap
            && (r.entries[u].freed <==> r.cap == b.cap && b.entries[u].freed)
    decreases |qs|
  {
    if qs != [] {
      assert forall i :: 0 <= i < |qs[1..]| ==> qs[1..][i] == qs[i + 1];
      MarkLastsWhileCapDoes(Step(b, qs[0]), qs[1..], u);
    }
  }

  // ----- The verdict over whole runs -----

  /** The block last allocated at p and not freed since: its raw block and size. */
  function Holder(qs: seq<Event>, p: nat): (r: Option<(nat, nat)>)
    decreases |qs|
  {
    if qs == [] then None
    else
      var q := qs[|qs| - 1];
      if q.user != p then Holder(qs[..|qs| - 1], p)
      else if q.Allocated? then Some((q.raw, q.size))
      else None
  }

  predicate EverAllocated(qs: seq<Event>, p: nat) {
    exists i :: 0 <= i < |qs| && qs[i].Allocated? && qs[i].user == p
  }

  predicate RealBlocks(qs: seq<Event>) {
    forall i :: 0 <= i < |qs| && qs[i].Allocated? ==> qs[i].raw != 0
  }

  lemma {:induction false} RunSnoc(b: Book, qs: seq<Event>, q: Event)
    ensures Run(b, qs + [q]) == Step(Run(b, qs), q)
    decreases |qs|
  {
    if qs == [] {
      assert [q][1..] == [];
    } else {
      RunSnoc(Step(b, qs[0]), qs[1..], q);
      assert (qs + [q])[1..] == qs[1..] + [q];
    }
  }

  /** What the map says of p after a run. */
  ghost predicate Told(b: Book, qs: seq<Event>, p: nat) {
    && (p in b.entries <==> EverAllocated(qs, p))
    && (p in b.entries && b.entries[p].freed ==> b.entries[p].raw == 0)
    && (if p in b.entries && IsLive(b.entries[p]) then Holder(qs, p) == Some((b.entries[p].raw, b.entries[p].size))
        else Holder(qs, p) == None)
  }

  lemma {:induction false} RunTells(cap: nat, qs: seq<Event>, p: nat)
    requires p != 0 && RealBlocks(qs)
    ensures Told(Run(Book(cap, map[]), qs), qs, p)
    decreases |qs|
  {
    if qs != [] {
      var rest, q := qs[..|qs| - 1], qs[|qs| - 1];
      assert qs == rest + [q];
      RunTells(cap, rest, p);
      RunSnoc(Book(cap, map[]), rest, q);
      EverStep(rest, q, p);
      StepTells(Run(Book(cap, map[]), rest), rest, q, p);
    }
  }

  lemma EverStep(rest: seq<Event>, q: Event, p: nat)
    ensures EverAllocated(rest + [q], p) <==> EverAllocated(rest, p) || (q.Allocated? && q.user == p)
  {
    var qs := rest + [q];
    if i :| 0 <= i < |rest| && rest[i].Allocated? && rest[i].user == p {
      assert qs[i] == rest[i];
    }
    assert qs[|rest|] == q;
  }

  lemma StepTells(b: Book, rest: seq<Event>, q: Event, p: nat)
    requires p != 0 && Told(b, rest, p) && (q.Allocated? ==> q.raw != 0)
    requires EverAllocated(rest + [q], p) <==> EverAllocated(rest, p) || (q.Allocated? && q.user == p)
    ensures Told(Step(b, q), rest + [q], p)
  {
    hide EverAllocated;
    assert (rest + [q])[..|rest|] == rest;
  }

  /** After any calls on a new heap, a free of p that is not null is an invalid one if and only if nothing was ever
      allocated at p, and gives back a block if and only if that block is the last one allocated at p and was not
      freed since. Anything else is a double free, reported as such or not. */
  lemma VerdictOverRuns(cap: nat, qs: seq<Event>, p: nat, raw: nat)
    requires p != 0 && RealBlocks(qs)
    ensures var v := Judge(Run(Book(cap, map[]), qs), p);
            && (v.NotOwned? <==> !EverAllocated(qs, p))
            && (v == Reclaimed(raw) <==> Holder(qs, p).Some? && Holder(qs, p).value.0 == raw)
            && (v.FreedTwice? || v.NullRaw? <==> EverAllocated(qs, p) && Holder(qs, p).None?)
  {
    RunTells(cap, qs, p);
    hide Run, EverAllocated, Holder;
  }

  /** With 44 keys in 64 slots, the next key makes the table grow, and a free repeated after that is missed. */
  lemma GrowthForgets(b: Book, u: nat, e: Entry)
    requires b.cap == 64 && |b.entries| == 44 && u != 0 && Judge(b, u).Reclaimed? && e.user != u
    ensures Judge(PutBook(FreeBook(b, u), e), u) == NullRaw
  {
    SameKeys(b.entries, u, b.entries[u].(raw := 0, freed := true));
  }

  lemma SameKeys(m: map<nat, Entry>, u: nat, e: Entry)
    requires u in m
    ensures |m[u := e]| == |m|
  {
    assert m[u := e].Keys == m.Keys;
  }

  // ----- The table in memory -----

  class Heap {
    var table: array<Entry>
    var count: nat
    var totalAllocs: nat
    var totalFrees: nat
    var activeAllocs: nat
    var doubleFrees: nat
    var invalidFrees: nat
    var violations: nat
    var bytes: map<nat, nat>  // what is stored at each address
    ghost var at: map<nat, nat>
    ghost var bits: nat

    /** The table is well formed, the count is the number of keys and the load is under 70%. */
    ghost predicate Sound()
      reads this, table
    {
      && table.Length == Pow2(bits) && bits > 0
      && Table(table[..], at)
      && count == |at| && count * 10 < table.Length * 7
    }

    ghost function Ledger(): (b: Book)
      requires Sound()
      reads this, table
    {
      Book(table.Length, Entries(table[..], at))
    }

    /** The active count is the number of live allocations. */
    ghost predicate Valid()
      reads this, table
    {
      Sound() && Dead(Ledger().entries) && activeAllocs == |LiveKeys(Ledger().entries)|
    }

    constructor ()
      ensures Valid() && Ledger() == Book(64, map[]) && fresh(table)
    {
      table := new Entry[64](_ => VACANT);
      count, totalAllocs, totalFrees, activeAllocs, doubleFrees, invalidFrees := 0, 0, 0, 0, 0, 0;
      violations, bytes := 0, map[];
      at, bits := map[], 6;
      new;
      Pow2Small();
      VacantTable(table[..]);
    }

    /** dh_find: the key's slot, or none exactly when the key is not in the table. */
    method Find(user: nat) returns (r: Option<nat>)
      requires Sound()
      ensures r == if user in at then Some(at[user]) else None
    {
      hide Hash, Passed, Table;
      ghost var t := table[..];
      ghost var h := Hash(user, table.Length);
      var i := Hash(user, table.Length);
      var n := 0;
      PassNone(t, user);
      while n < table.Length
        invariant 0 <= n <= table.Length && i == Slot(h, n, table.Length) && Passed(t, user, n)
      {
        if table[i].user == 0 && !table[i].freed {
          AbsentAtHole(t, at, user, n);
          return None;
        }
        EntryFacts(t, at, i);
        if table[i].user == user {
          return Some(i);
        }
        PassOne(t, user, n);
        NextSlot(h, n, bits);
        i := And(i + 1, table.Length - 1);
        n := n + 1;
      }
      AbsentAfterLap(t, at, user);
      return None;
    }

    /** dh_put. It may rehash first, and then never again: the rehash re-inserts below the load limit. */
    method Put(user: nat, raw: nat, size: nat)
      requires Sound() && user != 0
      modifies this`table, this`count, this`at, this`bits, table
      ensures Sound() && (table == old(table) || fresh(table))
      ensures Ledger() == PutBook(old(Ledger()), Entry(user, raw, size, false))
      ensures table.Length == old(table.Length) * (if (old(count) + 1) * 10 >= old(table.Length) * 7 then 2 else 1)
      decreases if Crowded(count, table.Length) then 2 else 0
    {
      hide Table, Hash, Located, Entries;
      TableFacts(table[..], at);
      SameSize(table[..], at);
      if (count + 1) * 10 >= table.Length * 7 {
        Rehash(table.Length * 2);
      }
      Store(Entry(user, raw, size, false));
    }

    /** The probe loop of dh_put: the key's own slot or the first hole; it ends because there is a hole. */
    method Probe(user: nat) returns (i: nat, ghost n: nat)
      requires Sound()
      ensures n < table.Length && i == Slot(Hash(user, table.Length), n, table.Length)
      ensures Passed(table[..], user, n) && (table[i].user == 0 || table[i].user == user)
    {
      hide Hash, Passed, Table, Located;
      ghost var t := table[..];
      ghost var h := Hash(user, table.Length);
      TableFacts(t, at);
      ghost var hole := HoleExists(t, at);
      PassNone(t, user);
      n := 0;
      i := Hash(user, table.Length);
      while table[i].user != 0 && table[i].user != user
        invariant n <= Dist(h, hole, table.Length) && i == Slot(h, n, table.Length) && Passed(t, user, n)
        decreases table.Length - n
      {
        PassOne(t, user, n);
        NextSlot(h, n, bits);
        i := And(i + 1, table.Length - 1);
        n := n + 1;
      }
    }

    method Store(e: Entry)
      requires Sound() && e.user != 0 && !Crowded(count, table.Length)
      modifies this`count, this`at, table
      ensures Sound()
      ensures Ledger() == old(Ledger()).(entries := old(Ledger()).entries[e.user := e])
    {
      hide Hash, Table, Passed, Entries, Located;
      ghost var t, a := table[..], at;
      var i;
      ghost var n;
      i, n := Probe(e.user);
      StoreFacts(t, a, n, e);
      if table[i].user == 0 && !table[i].freed {
        count := count + 1;
        at := a[e.user := i];
      }
      table[i] := e;
      assert table[..] == t[i := e];
    }

    method Clear(ncap: nat, ghost k: nat)
      requires ncap == Pow2(k) && k > 0
      modifies this`table, this`count, this`at, this`bits
      ensures Sound() && fresh(table) && Ledger() == Book(ncap, map[]) && count == 0
    {
      hide Table, Entries, Located;
      table := new Entry[ncap](_ => VACANT);
      count, at, bits := 0, map[], k;
      VacantTable(table[..]);
    }

    /** dh_rehash */
    method Rehash(ncap: nat)
      requires Sound() && ncap == 2 * table.Length
      modifies this`table, this`count, this`at, this`bits
      ensures Sound() && fresh(table) && count == old(count)
      ensures Ledger() == Book(ncap, Unmarked(old(Ledger().entries)))
      decreases 1
    {
      hide Table, Hash, Entries, Located, Moved, Unmarked;
      var from := table;
      ghost var t, a := table[..], at;
      TableFacts(t, a);
      Clear(ncap, bits + 1);
      MovedNone(t, a);
      var i := 0;
      while i < from.Length
        invariant 0 <= i <= from.Length && fresh(table) && from[..] == t
        invariant Sound() && Ledger() == Book(ncap, Moved(t, a, i))
      {
        TableFacts(table[..], at);
        SameSize(table[..], at);
        MoveOne(t, a, i);
        if from[i].user != 0 {
          Put(from[i].user, from[i].raw, from[i].size);
        }
        i := i + 1;
      }
      TableFacts(table[..], at);
      SameSize(table[..], at);
      MovedAll(t, a);
    }

    /** dh_allocate, for a block the backend just handed out: guards and fill pattern are written, the block
        recorded. */
    method Allocated(raw: nat, size: nat) returns (user: nat)
      requires Valid() && raw != 0 && raw + HEAD !in LiveKeys(Ledger().entries)
      modifies this, table
      ensures user == raw + HEAD && (table == old(table) || fresh(table))
      ensures Valid() && Ledger() == Step(old(Ledger()), Event.Allocated(user, raw, size))
      ensures bytes == Guarded(old(bytes), raw, size) && Intact(bytes, raw, size)
      ensures totalAllocs == old(totalAllocs) + 1 && activeAllocs == old(activeAllocs) + 1
      ensures totalFrees == old(totalFrees) && doubleFrees == old(doubleFrees) && invalidFrees == old(invalidFrees)
      ensures violations == old(violations)
    {
      hide Table, Hash, Entries, Located, Dead, LiveKeys, PutBook, Guarded, Intact;
      user := raw + HEAD;
      bytes := Guarded(bytes, raw, size);
      GuardedIntact(old(bytes), raw, size);
      PutLive(Ledger(), Entry(user, raw, size, false));
      Put(user, raw, size);
      totalAllocs := totalAllocs + 1;
      activeAllocs := activeAllocs + 1;
    }

    /** dh_deallocate; the raw block to hand back is in the verdict. A damaged block is counted and its payload
        poisoned all the same. */
    method Deallocate(p: nat) returns (v: Verdict)
      requires Valid()
      modifies this`totalFrees, this`activeAllocs, this`doubleFrees, this`invalidFrees
      modifies this`violations, this`bytes, table
      ensures Valid() && v == Judge(old(Ledger()), p) && Ledger() == FreeBook(old(Ledger()), p)
      ensures var m := old(Ledger()).entries;
              && invalidFrees == old(invalidFrees) + (if p != 0 && p !in m then 1 else 0)
              && doubleFrees == old(doubleFrees) + (if p != 0 && p in m && m[p].freed then 1 else 0)
              && totalFrees == old(totalFrees) + (if p != 0 && p in m && IsLive(m[p]) then 1 else 0)
      ensures invalidFrees == old(invalidFrees) + (if v.NotOwned? then 1 else 0)
      ensures doubleFrees == old(doubleFrees) + (if v.FreedTwice? then 1 else 0)
      ensures totalFrees == old(totalFrees) + (if v.Reclaimed? then 1 else 0)
      ensures activeAllocs == old(activeAllocs) - (if v.Reclaimed? then 1 else 0)
      ensures if v.Reclaimed? then
                var size := old(Ledger()).entries[p].size;
                && violations == old(violations) + (if Intact(old(bytes), v.raw, size) then 0 else 1)
                && bytes == Canaries.Put(old(bytes), p, Repeat(0xCD, size))
              else violations == old(violations) && bytes == old(bytes)
    {
      hide Table, Entries, Located, Dead, LiveKeys, Intact, Canaries.Put;
      KeyFacts(table[..], at, p);
      if p == 0 {
        return Ignored;
      }
      var e := Find(p);
      if e.None? {
        invalidFrees := invalidFrees + 1;
        return NotOwned;
      }
      var i := e.value;
      if table[i].freed {
        doubleFrees := doubleFrees + 1;
        return FreedTwice;
      }
      var raw := table[i].raw;
      if raw == 0 {
        return NullRaw;
      }
      Retire(p, i);
      return Reclaimed(raw);
    }

    method Retire(p: nat, i: nat)
      requires Valid() && i < table.Length && p in at && at[p] == i && !table[i].freed && table[i].raw != 0
      modifies this`totalFrees, this`activeAllocs, this`violations, this`bytes, table
      ensures Valid() && p in old(Ledger()).entries && old(Ledger()).entries[p] == old(table[i])
      ensures Ledger() == FreeBook(old(Ledger()), p)
      ensures totalFrees == old(totalFrees) + 1 && activeAllocs == old(activeAllocs) - 1
      ensures violations ==
              old(violations) + (if Intact(old(bytes), old(table[i].raw), old(table[i].size)) then 0 else 1)
      ensures bytes == Canaries.Put(old(bytes), p, Repeat(POISON, old(table[i].size)))
    {
      hide Table, Entries, Located, Dead, LiveKeys, Intact, Canaries.Put;
      KeyFacts(table[..], at, p);
      ghost var t, b := table[..], Ledger();
      if !Intact(bytes, table[i].raw, table[i].size) {
        violations := violations + 1;
      }
      bytes := Canaries.Put(bytes, p, Repeat(POISON, table[i].size));
      FreeLive(b, p);
      StoreKnown(t, at, i, t[i].(freed := true, raw := 0));
      table[i] := table[i].(freed := true, raw := 0);
      assert table[..] == t[i := t[i].(freed := true, raw := 0)];
      totalFrees := totalFrees + 1;
      activeAllocs := activeAllocs - 1;
    }

    /** hf_debug_heap_check: the number of live allocations with a damaged guard. */
    method CheckAll() returns (bad: nat)
      requires Valid()
      modifies this`violations
      ensures Valid() && violations == old(violations) + bad
      ensures bad == |Damaged(Ledger().entries, bytes)|
    {
      hide Table, Dead, Entries, Located, Users, LiveKeys, Damaged, Intact;
      TableFacts(table[..], at);
      bad := 0;
      ghost var t, m := table[..], Ledger().entries;
      ghost var d := Damaged(m, bytes);
      DamagedFacts(t, at, 0, bytes);
      NoUsers(t, d);
      for i := 0 to table.Length
        invariant bad == |Users(t, i) * d| && violations == old(violations) + bad
      {
        OneUser(t, at, i, d);
        DamagedFacts(t, at, i, bytes);
        if table[i].user != 0 && !table[i].freed && table[i].raw != 0 && !Intact(bytes, table[i].raw, table[i].size) {
          violations := violations + 1;
          bad := bad + 1;
        }
      }
      AllUsers(t, at, d);
    }

    /** The leak report counts exactly the allocations still active, and their bytes. */
    method Leaked() returns (blocks: nat, size: nat)
      requires Valid()
      ensures blocks == activeAllocs && size == SizeSum(Ledger().entries, LiveKeys(Ledger().entries))
    {
      hide Table, Dead, Entries, Located, Users, LiveKeys, SizeSum;
      TableFacts(table[..], at);
      blocks, size := 0, 0;
      ghost var t, m := table[..], Ledger().entries;
      ghost var d := LiveKeys(m);
      LiveKnown(m);
      NoUsers(t, d);
      NoSize(m);
      for i := 0 to table.Length
        invariant blocks == |Users(t, i) * d| && size == SizeSum(m, Users(t, i) * d)
      {
        OneUser(t, at, i, d);
        if table[i].user != 0 {
          LiveFacts(t, at, i);
        }
        if table[i].user != 0 && !table[i].freed && table[i].raw != 0 {
          SizePick(m, Users(t, i + 1) * d, table[i].user);
          blocks := blocks + 1;
          size := size + table[i].size;
        }
      }
      AllUsers(t, at, d);
    }
  }

  // ----- A double free that goes unreported -----

  /** k blocks of one byte, 64 bytes apart. */
  ghost function FirstEntries(k: nat): (m: map<nat, Entry>)
    ensures k == 0 ==> m == map[]
  {
    if k == 0 then map[] else FirstEntries(k - 1)[64 * k + HEAD := Entry(64 * k + HEAD, 64 * k, 1, false)]
  }

  lemma {:induction false} FirstKeys(k: nat)
    ensures var m := FirstEntries(k);
            && |m| == k && (forall u :: u in m ==> u <= 64 * k + HEAD)
            && (k > 0 ==> 64 + HEAD in m && m[64 + HEAD] == Entry(64 + HEAD, 64, 1, false))
  {
    if k > 0 {
      FirstKeys(k - 1);
    }
  }

  lemma NextEntry(k: nat)
    requires k < 44
    ensures var b, e := Book(64, FirstEntries(k)), Entry(64 * (k + 1) + HEAD, 64 * (k + 1), 1, false);
            PutBook(b, e) == Book(64, FirstEntries(k + 1)) && e.user !in LiveKeys(b.entries)
  {
    FirstKeys(k);
  }

  lemma MissedAfterGrowth()
    ensures var b, u, e := Book(64, FirstEntries(44)), 64 + HEAD, Entry(64 * 45 + HEAD, 64 * 45, 1, false);
            && Judge(b, u).Reclaimed? && e.user !in LiveKeys(FreeBook(b, u).entries)
            && Judge(PutBook(FreeBook(b, u), e), u) == NullRaw
  {
    FirstKeys(44);
    hide FirstEntries;
    GrowthForgets(Book(64, FirstEntries(44)), 64 + HEAD, Entry(64 * 45 + HEAD, 64 * 45, 1, false));
  }

  /** A new heap gets there: 44 allocations, a free of the first, one more allocation, and the first freed again. */
  method DoubleFreeMissed() returns (once: Verdict, again: Verdict)
    ensures once.Reclaimed? && again == NullRaw
  {
    hide Table, Entries, Located, Dead, LiveKeys, Judge, FreeBook, PutBook, Canaries.Put, Guarded, Intact, FirstEntries;
    var heap := new Heap();
    var k := 0;
    while k < 44
      invariant 0 <= k <= 44 && fresh(heap) && fresh(heap.table)
      invariant heap.Valid() && heap.Sound() && heap.Ledger() == Book(64, FirstEntries(k))
    {
      NextEntry(k);
      var _ := heap.Allocated(64 * (k + 1), 1);
      k := k + 1;
    }
    MissedAfterGrowth();
    once := heap.Deallocate(64 + HEAD);
    var _ := heap.Allocated(64 * 45, 1);
    again := heap.Deallocate(64 + HEAD);
  }

  // ----- Facts about the table -----

  lemma EntryFacts(t: seq<Entry>, at: map<nat, nat>, j: nat)
    requires Table(t, at) && j < |t|
    ensures t[j].user == 0 ==> !t[j].freed
    ensures t[j].user != 0 ==> t[j].user in at && at[t[j].user] == j
  {
  }

  lemma KeyFacts(t: seq<Entry>, at: map<nat, nat>, u: nat)
    requires Table(t, at)
    ensures Located(t, at) && (u in Entries(t, at) <==> u in at)
    ensures u in at ==> u != 0 && at[u] < |t| && t[at[u]].user == u && Entries(t, at)[u] == t[at[u]]
  {
  }

  lemma StoreFacts(t: seq<Entry>, at: map<nat, nat>, n: nat, e: Entry)
    requires Table(t, at) && e.user != 0 && n < |t| && Passed(t, e.user, n)
    requires var x := t[Slot(Hash(e.user, |t|), n, |t|)]; x.user == 0 || x.user == e.user
    ensures var j := Slot(Hash(e.user, |t|), n, |t|);
            if t[j].user == 0 then
              && !t[j].freed && |at[e.user := j]| == |at| + 1
              && Table(t[j := e], at[e.user := j])
              && Entries(t[j := e], at[e.user := j]) == Entries(t, at)[e.user := e]
            else
              Table(t[j := e], at) && Entries(t[j := e], at) == Entries(t, at)[e.user := e]
  {
    hide Hash, Passed, Table, Entries;
    var j := Slot(Hash(e.user, |t|), n, |t|);
    if t[j].user == 0 {
      EntryFacts(t, at, j);
      StoreNew(t, at, n, e);
      assert at[e.user := j].Keys == at.Keys + {e.user};
    } else {
      StoreKnown(t, at, j, e);
    }
  }

  // ----- Moving the table over -----

  /** The keys of the first i slots, as a rehash stores them. */
  ghost function Moved(t: seq<Entry>, at: map<nat, nat>, i: nat): (m: map<nat, Entry>)
    requires Located(t, at)
  {
    map u | u in at && at[u] < i :: t[at[u]].(freed := false)
  }

  lemma MovedNone(t: seq<Entry>, at: map<nat, nat>)
    requires Located(t, at)
    ensures Moved(t, at, 0) == map[]
  {
  }

  lemma MovedAll(t: seq<Entry>, at: map<nat, nat>)
    requires Located(t, at)
    ensures Moved(t, at, |t|) == Unmarked(Entries(t, at)) && |Moved(t, at, |t|)| == |at|
  {
    assert Moved(t, at, |t|).Keys == at.Keys;
  }

  /** Each slot moved is one key more, and never more keys than there were. */
  lemma MoveOne(t: seq<Entry>, at: map<nat, nat>, i: nat)
    requires Located(t, at) && i < |t|
    ensures var m := Moved(t, at, i);
            && (t[i].user == 0 ==> Moved(t, at, i + 1) == m)
            && (t[i].user != 0 ==> Moved(t, at, i + 1) == m[t[i].user := t[i].(freed := false)] && |m| + 1 <= |at|)
  {
    if t[i].user != 0 {
      MovedKeys(t, at, i);
      assert Moved(t, at, i + 1) == Moved(t, at, i)[t[i].user := t[i].(freed := false)];
    } else {
      assert Moved(t, at, i + 1) == Moved(t, at, i);
    }
  }

  lemma MovedKeys(t: seq<Entry>, at: map<nat, nat>, i: nat)
    requires Located(t, at) && i < |t| && t[i].user != 0
    ensures |Moved(t, at, i)| + 1 <= |at|
  {
    var keys := Moved(t, at, i).Keys;
    assert |keys + {t[i].user}| == |keys| + 1;
    SubsetSize(keys + {t[i].user}, at.Keys);
  }

  // ----- Live allocations -----

  lemma PutLive(b: Book, e: Entry)
    requires Dead(b.entries) && e.raw != 0 && !e.freed && e.user !in LiveKeys(b.entries)
    ensures var r := PutBook(b, e).entries; Dead(r) && |LiveKeys(r)| == |LiveKeys(b.entries)| + 1
  {
    RehashKeepsLive(b.entries);
    OneMoreLive(b.entries, e);
    OneMoreLive(Unmarked(b.entries), e);
  }

  lemma OneMoreLive(m: map<nat, Entry>, e: Entry)
    requires Dead(m) && e.raw != 0 && !e.freed && e.user !in LiveKeys(m)
    ensures Dead(m[e.user := e]) && |LiveKeys(m[e.user := e])| == |LiveKeys(m)| + 1
  {
    assert LiveKeys(m[e.user := e]) == LiveKeys(m) + {e.user};
  }

  lemma FreeLive(b: Book, p: nat)
    requires Dead(b.entries) && p in b.entries && Judge(b, p).Reclaimed?
    ensures var r := FreeBook(b, p).entries; Dead(r) && |LiveKeys(r)| == |LiveKeys(b.entries)| - 1
  {
    var r := FreeBook(b, p).entries;
    assert LiveKeys(b.entries) == LiveKeys(r) + {p};
  }

  // ----- Counting entries -----

  /** The live allocations with a damaged guard. */
  ghost function Damaged(m: map<nat, Entry>, bytes: map<nat, nat>): (s: set<nat>) {
    set u | u in m && IsLive(m[u]) && !Intact(bytes, m[u].raw, m[u].size)
  }

  /** The keys of the first i slots. */
  ghost function Users(t: seq<Entry>, i: nat): (s: set<nat>)
    requires i <= |t|
  {
    set j | 0 <= j < i && t[j].user != 0 :: t[j].user
  }

  lemma NoUsers(t: seq<Entry>, d: set<nat>)
    ensures Users(t, 0) * d == {}
  {
  }

  /** Going over one more slot meets one more key, if any. */
  lemma OneUser(t: seq<Entry>, at: map<nat, nat>, i: nat, d: set<nat>)
    requires Located(t, at) && i < |t|
    ensures var s, r := Users(t, i) * d, Users(t, i + 1) * d;
            if t[i].user != 0 && t[i].user in d then
              t[i].user !in s && r == s + {t[i].user} && r - {t[i].user} == s && |r| == |s| + 1
            else r == s
  {
    var s, r, u := Users(t, i) * d, Users(t, i + 1) * d, t[i].user;
    if u != 0 {
      forall j | 0 <= j < i && t[j].user != 0 ensures t[j].user != u {
        assert at[t[j].user] == j && at[u] == i;
      }
      assert Users(t, i + 1) == Users(t, i) + {u};
    } else {
      assert Users(t, i + 1) == Users(t, i);
    }
    if u != 0 && u in d {
      assert r == s + {u};
      assert r - {u} == s;
    } else {
      assert r == s;
    }
  }

  lemma AllUsers(t: seq<Entry>, at: map<nat, nat>, d: set<nat>)
    requires Located(t, at) && d <= Entries(t, at).Keys
    ensures Users(t, |t|) * d == d
  {
    forall u | u in d ensures u in Users(t, |t|) {
      assert t[at[u]].user == u;
    }
  }

  lemma LiveKnown(m: map<nat, Entry>)
    ensures LiveKeys(m) <= m.Keys
  {
  }

  lemma LiveFacts(t: seq<Entry>, at: map<nat, nat>, i: nat)
    requires Located(t, at) && i < |t| && t[i].user != 0
    ensures var m, u := Entries(t, at), t[i].user;
            u in m && m[u] == t[i] && (u in LiveKeys(m) <==> IsLive(t[i]))
  {
  }

  /** An allocation is damaged if it is neither freed nor without a block and one of its guards is not the canary. */
  lemma DamagedAre(m: map<nat, Entry>, bytes: map<nat, nat>)
    ensures Damaged(m, bytes) == set u | u in m && !m[u].freed && m[u].raw != 0 && !Intact(bytes, m[u].raw, m[u].size)
  {
  }

  lemma DamagedFacts(t: seq<Entry>, at: map<nat, nat>, i: nat, bytes: map<nat, nat>)
    requires Located(t, at) && i < |t|
    ensures var m := Entries(t, at);
            && Damaged(m, bytes) <= m.Keys
            && (t[i].user != 0 ==>
                  (t[i].user in Damaged(m, bytes) <==> IsLive(t[i]) && !Intact(bytes, t[i].raw, t[i].size)))
  {
    hide Intact;
  }

  /** Total size of the allocations with the given keys. */
  ghost function SizeSum(m: map<nat, Entry>, keys: set<nat>): (n: nat)
    requires keys <= m.Keys
  {
    if keys == {} then 0
    else
      var u :| u in keys;
      m[u].size + SizeSum(m, keys - {u})
  }

  lemma NoSize(m: map<nat, Entry>)
    ensures SizeSum(m, {}) == 0
  {
  }

  /** It does not matter which key is counted first. */
  lemma {:induction false} SizePick(m: map<nat, Entry>, keys: set<nat>, u: nat)
    requires keys <= m.Keys && u in keys
    ensures SizeSum(m, keys) == m[u].size + SizeSum(m, keys - {u})
    decreases |keys|
  {
    var v :| v in keys && SizeSum(m, keys) == m[v].size + SizeSum(m, keys - {v});
    if v != u {
      SizePick(m, keys - {v}, u);
      SizePick(m, keys - {u}, v);
      assert keys - {v} - {u} == keys - {u} - {v};
    }
  }
}
