/** The persistent pool itself: the mapped log ring, bitmap and watermark slots, updated in place.
    Every store and every sync is one action of the protocol machine, so each operation carries
    the run it makes, and whatever holds of all runs holds at every point inside it. */
module Pool {
  import opened Powers
  import opened Seqs
  import opened PoolBits
  import opened PoolMachine
  import opened PoolSteps
  import opened PoolRuns

  class PersistentPool {
    const n: nat
    const wal: array<Record>
    const bitmap: array<nat>
    const meta: array<Meta>
    var nextSeq: nat
    var active: nat
    var used: nat
    ghost var st: State
    ghost const origin: State
    ghost var trace: seq<Action>

    ghost predicate Agrees()
      reads this, wal, bitmap, meta
    {
      && st.n == n && wal.Length == RING && bitmap.Length == (n + 7) / 8 && meta.Length == 2
      && wal as object != bitmap && wal as object != meta && bitmap as object != meta
      && wal[..] == st.walCur && bitmap[..] == st.byteCur && meta[..] == st.metaCur
      && (!st.pc.Down? ==> active == st.active && used == st.used)
      && (!st.pc.Down? && !st.pc.Replaying? ==> nextSeq == st.nextSeq)
    }

    ghost predicate Valid()
      reads this, wal, bitmap, meta
    {
      && Agrees() && Inv(st)
      && LegalRun(origin, trace) && Run(origin, trace) == st
    }

    /** The bitmap in memory is the fold of the durable history. */
    ghost predicate Settled()
      reads this, wal, bitmap, meta
    {
      && Valid() && st.pc.Idle?
      && (forall i :: 0 <= i < n ==> GetBit(bitmap[..], i) == Live(st.log, i))
      && used == Count(bitmap[..], n) && nextSeq == |st.log| + 1
    }

    /** A new pool file. */
    constructor (n: nat)
      requires n > 0
      ensures Settled() && this.n == n && wal.Length == 256 && st == Fresh(n) && trace == []
      ensures fresh(wal) && fresh(bitmap) && fresh(meta)
    {
      this.n := n;
      wal := new Record[RING](_ => Blank);
      bitmap := new nat[(n + 7) / 8](_ => 0);
      meta := new Meta[2](i => if i == 0 then Mark(0, 0) else Torn);
      nextSeq, active, used := 1, 0, 0;
      st, origin, trace := Fresh(n), Fresh(n), [];
      new;
      assert meta[..] == [Mark(0, 0), Torn];
      assert wal[..] == st.walCur && bitmap[..] == st.byteCur;
      FreshInv(n);
      IdleBits(st);
      hide Inv;
    }

    /** Reopening whatever a crash left: recovery replays the pending log and restores a settled pool
        whose history is exactly what was durable at the crash. */
    constructor Open(n: nat, w: seq<Record>, b: seq<nat>, m: seq<Meta>, ghost crashed: State)
      requires Inv(crashed) && crashed.pc.Down? && crashed.n == n
      requires crashed.walCur == w && crashed.byteCur == b && crashed.metaCur == m
      ensures Settled() && this.n == n && origin == crashed && st.log == crashed.log
      ensures fresh(wal) && fresh(bitmap) && fresh(meta)
    {
      this.n := n;
      wal := new Record[|w|](i requires 0 <= i < |w| => w[i]);
      bitmap := new nat[|b|](i requires 0 <= i < |b| => b[i]);
      meta := new Meta[|m|](i requires 0 <= i < |m| => m[i]);
      nextSeq, active, used := 1, 0, 0;
      st, origin, trace := crashed, crashed, [];
      new;
      assert wal[..] == w && bitmap[..] == b && meta[..] == m;
      Recover();
      IdleBits(st);
    }

    /** Records one protocol action. */
    ghost method Act(a: Action)
      requires Inv(st) && Enabled(st, a) && LegalRun(origin, trace) && Run(origin, trace) == st
      modifies this`st, this`trace
      ensures st == Do(old(st), a) && trace == old(trace) + [a]
      ensures Inv(st) && LegalRun(origin, trace) && Run(origin, trace) == st
    {
      StepInv(st, a);
      RunAppend(origin, trace, a);
      hide Inv, Enabled, Do;
      st, trace := Do(st, a), trace + [a];
    }

    predicate BitTest(i: nat)
      requires i < n && bitmap.Length == (n + 7) / 8
      reads bitmap
      ensures BitTest(i) == GetBit(bitmap[..], i)
    {
      Bit(bitmap[i / 8], i % 8)
    }

    // ----- The three steps of a commit -----

    method WalAppend(op: Op)
      requires Valid() && st.pc.Idle? && op.index < n
      modifies this`nextSeq, this`st, this`trace, wal
      ensures Valid() && st.pc == Logged(op) && op.index < n
      ensures st.log == old(st.log) + [op] && trace == old(trace) + [Log(op), SyncWal]
      ensures bitmap[..] == old(bitmap[..]) && used == old(used) && nextSeq == old(nextSeq) + 1
      ensures wal[..] == old(wal[..])[old(nextSeq) % 256 := Rec(old(nextSeq), op)]
    {
      hide Inv, LegalRun, Run, Enabled, Do;
      AppendEffect(st, op);
      var q := nextSeq;
      nextSeq := nextSeq + 1;
      wal[q % RING] := Rec(q, op);
      assert wal[..] == old(wal[..])[q % RING := Rec(q, op)];
      Act(Log(op));
      Act(SyncWal);
    }

    method ApplyOp(op: Op)
      requires bitmap.Length == (n + 7) / 8 && op.index < n && used == Count(bitmap[..], n)
      modifies this`used, bitmap
      ensures bitmap[..] == PutBit(old(bitmap[..]), op) && used == Count(bitmap[..], n)
    {
      CountPut(bitmap[..], op, n);
      ghost var b := bitmap[..];
      var k := op.index / 8;
      if op.alloc {
        if !BitTest(op.index) {
          bitmap[k] := SetBit(bitmap[k], op.index % 8);
          used := used + 1;
        }
      } else {
        if BitTest(op.index) {
          bitmap[k] := ClearBit(bitmap[k], op.index % 8);
          CountPositive(b, op.index, n);
          used := used - 1;
        }
      }
      assert bitmap[..] == PutBit(b, op);
    }

    method ApplyAndSync(op: Op)
      requires Valid() && st.pc == Logged(op) && op.index < n
      modifies this`used, this`st, this`trace, bitmap
      ensures Valid() && st.pc.Flushed? && st.log == old(st.log) && trace == old(trace) + [Apply, SyncByte]
      ensures bitmap[..] == PutBit(old(bitmap[..]), op)
    {
      hide Inv, LegalRun, Run, PutBit, Count, Enabled, Do;
      ApplyEffect(st);
      ApplyOp(op);
      Act(Apply);
      Act(SyncByte);
    }

    method MetaCommit(q: nat)
      requires Valid() && st.pc.Flushed? && q + 1 == nextSeq
      modifies this`active, this`st, this`trace, meta
      ensures Valid() && st.pc.Idle? && st.log == old(st.log) && trace == old(trace) + [StoreMeta, SyncMeta]
      ensures old(active) < 2 && active == 1 - old(active) && meta[..] == old(meta[..])[active := Mark(q, used)]
    {
      hide Inv, LegalRun, Run, Enabled, Do;
      MarkEffect(st);
      var next := 1 - active;
      ghost var m := meta[..];
      meta[next] := Mark(q, used);
      assert meta[..] == m[next := Mark(q, used)];
      Act(StoreMeta);
      Act(SyncMeta);
      active := next;
    }

    /** Log, then bitmap, then watermark, each synced before the next. */
    method Commit(op: Op)
      requires Settled() && op.index < n
      modifies this, wal, bitmap, meta
      ensures Settled() && st.log == old(st.log) + [op] && bitmap[..] == PutBit(old(bitmap[..]), op)
      ensures trace == old(trace) + [Log(op), SyncWal, Apply, SyncByte, StoreMeta, SyncMeta]
    {
      hide Inv, LegalRun, Run;
      var q := nextSeq;
      WalAppend(op);
      ReadyFacts(st);
      ApplyAndSync(op);
      ReadyFacts(st);
      MetaCommit(q);
      IdleBits(st);
      ReadyFacts(st);
    }

    // ----- Operations -----

    /** Hands out the lowest free block, or reports that all are in use. The block is marked as allocated if and only
        if some block numbered below 2^32 was free. */
    method Allocate() returns (index: Option<nat>)
      requires Settled()
      modifies this, wal, bitmap, meta
      ensures Settled()
      ensures index.None? ==> st == old(st) && forall i :: 0 <= i < n ==> Live(st.log, i)
      ensures index.Some? ==>
                && index.value < n && !Live(old(st.log), index.value)
                && (forall i :: 0 <= i < index.value ==> Live(old(st.log), i))
                && st.log == old(st.log) + [Op(true, index.value % INDEXES)]
                && (Live(st.log, index.value) <==> exists j :: 0 <= j < n && j < INDEXES && !Live(old(st.log), j))
    {
      hide Inv, LegalRun, Run;
      var i := 0;
      while i < n
        invariant i <= n && Settled() && st == old(st)
        invariant forall j :: 0 <= j < i ==> GetBit(bitmap[..], j)
      {
        if !BitTest(i) {
          LiveAppend(st.log, Op(true, i % INDEXES), i);
          Commit(Op(true, i % INDEXES));
          return Some(i);
        }
        i := i + 1;
      }
      return None;
    }

    /** Frees an allocated block; anything else is ignored. */
    method Free(index: nat)
      requires Settled()
      modifies this, wal, bitmap, meta
      ensures Settled()
      ensures st.log == if index < n && Live(old(st.log), index) then old(st.log) + [Op(false, index % INDEXES)]
                        else old(st.log)
    {
      hide Inv, LegalRun, Run;
      if index < n && BitTest(index) {
        Commit(Op(false, index % INDEXES));
      }
    }

    /** The log-only test hook: an intent made durable and not applied, to be followed by a crash. */
    method DebugWalOnly(index: nat, alloc: bool)
      requires Valid() && (st.pc.Idle? || st.pc.Hooked?) && index % INDEXES < n && |st.log| < st.mark + RING
      modifies this`nextSeq, this`st, this`trace, wal
      ensures Valid() && st.pc.Hooked? && st.log == old(st.log) + [Op(alloc, index % INDEXES)]
      ensures st.mark == old(st.mark)
      ensures trace == old(trace) + [Hook(Op(alloc, index % INDEXES)), SyncWal]
    {
      hide Inv, LegalRun, Run, Enabled, Do;
      var op := Op(alloc, index % INDEXES);
      HookEffect(st, op);
      var q := nextSeq;
      nextSeq := nextSeq + 1;
      wal[q % RING] := Rec(q, op);
      assert wal[..] == old(wal[..])[q % RING := Rec(q, op)];
      Act(Hook(op));
      Act(SyncWal);
    }

    // ----- Recovery -----

    method Recover()
      requires Valid() && st.pc.Down?
      modifies this, wal, bitmap, meta
      ensures Valid() && st.pc.Idle? && st.log == old(st.log)
    {
      hide Inv, LegalRun, Run, Enabled, Do;
      OpenEffect(st);
      ghost var log := st.log;
      var best, bestSeq := PickSlot();
      active := best;
      used := CountUsed();
      Act(PoolMachine.Open);
      var q: nat, maxSeq: nat, replayed := bestSeq + 1, bestSeq, false;
      while q <= bestSeq + RING
        invariant Valid() && st.pc == Replaying(q, maxSeq) && st.log == log
        invariant bestSeq == PickSeq(st.metaCur) && q <= bestSeq + RING + 1
        invariant replayed == (maxSeq != bestSeq) && maxSeq < q
      {
        var hit := ReplayRecord(q);
        if hit {
          maxSeq := q;
          replayed := true;
        }
        q := q + 1;
      }
      nextSeq := maxSeq + 1;
      FinishEffect(st);
      Act(Finish);
      if replayed {
        Act(SyncAll);
        MetaCommit(maxSeq);
      }
    }

    /** The valid slot with the larger sequence number. */
    method PickSlot() returns (best: nat, bestSeq: nat)
      requires Valid() && st.pc.Down?
      ensures best == PickMeta(st.metaCur) && bestSeq == PickSeq(st.metaCur)
      ensures best < 2 && bestSeq == (if meta[best].Mark? then meta[best].seqNo else 0)
      ensures forall i :: 0 <= i < 2 && meta[i].Mark? ==>
                meta[best].Mark? && meta[i].seqNo <= bestSeq && (meta[i].seqNo == bestSeq ==> i <= best)
    {
      var found := false;
      best, bestSeq := 0, 0;
      for i := 0 to 2
        invariant i == 0 ==> !found && best == 0 && bestSeq == 0
        invariant i == 1 ==> found == meta[0].Mark? && best == 0 && bestSeq == (if found then meta[0].seqNo else 0)
        invariant i == 2 ==> best == PickMeta(st.metaCur) && bestSeq == PickSeq(st.metaCur)
      {
        if meta[i].Mark? && (!found || meta[i].seqNo >= bestSeq) {
          found, best, bestSeq := true, i, meta[i].seqNo;
        }
      }
    }

    method CountUsed() returns (c: nat)
      requires bitmap.Length == (n + 7) / 8
      ensures c == Count(bitmap[..], n)
    {
      c := 0;
      for i := 0 to n
        invariant c == Count(bitmap[..], i)
      {
        if BitTest(i) {
          c := c + 1;
        }
      }
    }

    /** Replays the record of sequence number q if its slot holds it. */
    method ReplayRecord(q: nat) returns (hit: bool)
      requires Valid() && st.pc.Replaying? && st.pc.next == q && q <= PickSeq(st.metaCur) + RING
      modifies this`used, this`st, this`trace, bitmap
      ensures Valid() && st.log == old(st.log) && st.metaCur == old(st.metaCur)
      ensures st.pc == Replaying(q + 1, if hit then q else old(st.pc.top))
    {
      hide Inv, LegalRun, Run, Count, PutBit, Enabled, Do;
      ReplayFacts(st);
      var e := wal[q % RING];
      assert e == st.walCur[q % RING];
      hit := e.Rec? && e.seqNo == q;
      if hit {
        ApplyOp(e.op);
      }
      Act(Replay);
    }
  }

  /** With all blocks below an index of 2^32 or more in use, allocating that block leaves everything as it was. */
  lemma UnmarkedBlockStaysFirst(log: seq<Op>, i: nat)
    requires i >= INDEXES && !Live(log, i) && forall j :: 0 <= j < i ==> Live(log, j)
    ensures var more := log + [Op(true, i % INDEXES)];
            !Live(more, i) && forall j :: 0 <= j < i ==> Live(more, j)
  {
    forall j: nat | j <= i ensures Live(log + [Op(true, i % INDEXES)], j) == Live(log, j) {
      LiveAppend(log, Op(true, i % INDEXES), j);
    }
  }

  /** In a pool of more than 2^32 blocks, allocations one after the other from the new pool on come to hand out the same
      block twice. */
  method SameBlockTwice(n: nat) returns (first: Option<nat>, second: Option<nat>)
    requires n > INDEXES
    ensures first == second == Some(0x1_0000_0000)
  {
    hide PersistentPool.Valid, Live, GetBit;
    var pool := new PersistentPool(n);
    var k := 0;
    while k < INDEXES
      invariant 0 <= k <= INDEXES && pool.n == n && pool.Settled() && pool.st.log == Firsts(k)
      invariant fresh(pool) && fresh(pool.wal) && fresh(pool.bitmap) && fresh(pool.meta)
    {
      FirstsFree(k);
      var index := pool.Allocate();
      assert index == Some(k);
      assert Firsts(k) + [Op(true, k)] == Firsts(k + 1);
      k := k + 1;
    }
    FirstsFree(INDEXES);
    UnmarkedBlockStaysFirst(Firsts(INDEXES), INDEXES);
    first := pool.Allocate();
    second := pool.Allocate();
  }

  lemma FirstsFree(m: nat)
    ensures !Live(Firsts(m), m) && forall j :: 0 <= j < m ==> Live(Firsts(m), j)
  {
    forall j: nat | j <= m ensures Live(Firsts(m), j) <==> j < m {
      FirstsLive(m, j);
    }
  }

  lemma {:induction false} CountPositive(bytes: seq<nat>, i: nat, n: nat)
    requires i < n && GetBit(bytes, i)
    ensures Count(bytes, n) > 0
  {
    if i < n - 1 {
      CountPositive(bytes, i, n - 1);
    }
  }

  // ----- What the actions of each step do -----

  lemma AppendEffect(s: State, op: Op)
    requires Inv(s) && s.pc.Idle? && op.index < s.n
    ensures Enabled(s, Log(op)) && op.index < s.n
    ensures var t := Do(s, Log(op));
            && Enabled(t, SyncWal)
            && Do(t, SyncWal).(walDisk := s.walDisk) ==
               s.(walCur := s.walCur[s.nextSeq % RING := Rec(s.nextSeq, op)], nextSeq := s.nextSeq + 1,
                  pc := Logged(op), log := s.log + [op])
  {
    hide WalInv, BitsInv, MetaInv, CurOk, Synced, Count;
  }

  lemma HookEffect(s: State, op: Op)
    requires Inv(s) && (s.pc.Idle? || s.pc.Hooked?) && op.index < s.n && |s.log| < s.mark + RING
    ensures Enabled(s, Hook(op))
    ensures var t := Do(s, Hook(op));
            && Enabled(t, SyncWal)
            && Do(t, SyncWal).(walDisk := s.walDisk) ==
               s.(walCur := s.walCur[s.nextSeq % RING := Rec(s.nextSeq, op)], nextSeq := s.nextSeq + 1,
                  pc := Hooked, log := s.log + [op])
  {
    hide WalInv, BitsInv, MetaInv, CurOk, Synced, Count;
  }

  lemma ApplyEffect(s: State)
    requires Inv(s) && s.pc.Logged? && s.pc.op.index < s.n
    ensures Enabled(s, Apply) && s.used == Count(s.byteCur, s.n) && Sized(s)
    ensures var t, b := Do(s, Apply), PutBit(s.byteCur, s.pc.op);
            && Enabled(t, SyncByte)
            && Do(t, SyncByte).(byteDisk := s.byteDisk) == s.(byteCur := b, used := Count(b, s.n), pc := Flushed)
  {
    hide WalInv, BitsInv, MetaInv, CurOk, Synced, Count, PutBit;
  }

  lemma MarkEffect(s: State)
    requires Inv(s) && s.pc.Flushed?
    ensures Enabled(s, StoreMeta) && Sized(s)
    ensures var t := Do(s, StoreMeta);
            && Enabled(t, SyncMeta)
            && Do(t, SyncMeta).(metaDisk := s.metaDisk) ==
               s.(metaCur := s.metaCur[1 - s.active := Mark(s.nextSeq - 1, s.used)],
                  active := 1 - s.active, home := 1 - s.active, mark := |s.log|, pc := Idle)
  {
    hide WalInv, BitsInv, MetaInv, CurOk, Synced, Count;
  }

  lemma OpenEffect(s: State)
    requires Inv(s) && s.pc.Down?
    ensures Sized(s) && Enabled(s, PoolMachine.Open)
    ensures var q := PickSeq(s.metaCur);
            Do(s, PoolMachine.Open) ==
              s.(active := PickMeta(s.metaCur), used := Count(s.byteCur, s.n), pc := Replaying(q + 1, q))
  {
    hide WalInv, BitsInv, MetaInv, CurOk, Synced, Count;
  }

  lemma FinishEffect(s: State)
    requires Inv(s) && s.pc.Replaying? && s.pc.next == PickSeq(s.metaCur) + RING + 1
    ensures Enabled(s, Finish)
    ensures var t, idle := Do(s, Finish), s.pc.top == PickSeq(s.metaCur);
            && t == s.(nextSeq := s.pc.top + 1, pc := if idle then Idle else Replayed)
            && (!idle ==> Enabled(t, SyncAll) && Do(t, SyncAll).(byteDisk := t.byteDisk) == t.(pc := Flushed))
  {
    hide WalInv, BitsInv, MetaInv, CurOk, Synced, Count;
  }

  lemma ReadyFacts(s: State)
    requires Inv(s) && (s.pc.Idle? || s.pc.Logged? || s.pc.Flushed?)
    ensures s.nextSeq == |s.log| + 1 && s.used == Count(s.byteCur, s.n)
  {
  }

  lemma ReplayFacts(s: State)
    requires Inv(s) && s.pc.Replaying? && s.pc.next <= PickSeq(s.metaCur) + RING
    ensures Sized(s) && s.used == Count(s.byteCur, s.n) && Enabled(s, Replay)
    ensures var q := s.pc.next;
            var e := s.walCur[q % RING];
            && (e.Rec? ==> e.op.index < s.n)
            && Do(s, Replay).(byteDisk := s.byteDisk) ==
               if e.Rec? && e.seqNo == q then
                 var b := PutBit(s.byteCur, e.op);
                 s.(byteCur := b, used := Count(b, s.n), pc := Replaying(q + 1, q))
               else s.(pc := Replaying(q + 1, s.pc.top))
  {
    PickIsMark(s);
    ReplayReads(s, s.pc.next);
  }
}
