/** The C++ persistent pool itself, updated in place; each store and sync is one action of its protocol machine. */
module CppPool {
  import opened Powers
  import opened Seqs
  import opened PoolBits
  import opened SortedReplay
  import opened CppMachine
  import opened CppSteps
  import opened CppRuns

  class PersistentPool {
    const n: nat
    const cap: nat
    const wal: array<Record>
    const bitmap: array<nat>
    const slots: array<Slot>
    var nextSeq: nat
    ghost var st: State
    ghost const origin: State
    ghost var trace: seq<Action>

    ghost predicate Agrees()
      reads this, wal, bitmap, slots
    {
      && st.n == n && st.cap == cap >= 2 && wal.Length == cap && bitmap.Length == (n + 7) / 8 && slots.Length == 2
      && wal as object != bitmap && wal as object != slots && bitmap as object != slots
      && wal[..] == st.walCur && bitmap[..] == st.byteCur && slots[..] == st.slotCur
      && (!st.pc.Down? ==> nextSeq == st.nextSeq)
    }

    ghost predicate Valid()
      reads this, wal, bitmap, slots
    {
      && Agrees() && Inv(st)
      && LegalRun(origin, trace) && Run(origin, trace) == st
    }

    /** Between operations. The bitmap in memory is the fold of the durable history, as long as no crash left a record
        to replay whose block number had been cut. */
    ghost predicate Settled()
      reads this, wal, bitmap, slots
    {
      && Valid() && st.pc.Idle? && nextSeq == |st.log| + 1
      && (st.intact ==> forall i :: 0 <= i < n ==> GetBit(bitmap[..], i) == Live(st.log, i))
    }

    constructor (n: nat, cap: nat)
      requires n > 0 && cap >= 2
      ensures Settled() && this.n == n && st == Fresh(n, cap) && trace == []
      ensures fresh(wal) && fresh(bitmap) && fresh(slots)
    {
      this.n, this.cap := n, cap;
      wal := new Record[cap](_ => Blank);
      bitmap := new nat[(n + 7) / 8](_ => 0);
      slots := new Slot[2](i => if i == 0 then Good(0, 1) else Bad(0));
      nextSeq := 1;
      st, origin, trace := Fresh(n, cap), Fresh(n, cap), [];
      new;
      assert slots[..] == [Good(0, 1), Bad(0)];
      assert wal[..] == st.walCur && bitmap[..] == st.byteCur;
      FreshInv(n, cap);
      IdleBits(st);
      hide Inv;
    }

    /** Opening after an unclean shutdown: whatever watermark survived, recovery restores a settled pool
        whose history is exactly what was durable at the crash. */
    constructor Open(n: nat, w: seq<Record>, b: seq<nat>, m: seq<Slot>, ghost crashed: State)
      requires Inv(crashed) && crashed.pc.Down? && crashed.n == n
      requires crashed.walCur == w && crashed.byteCur == b && crashed.slotCur == m
      ensures Settled() && this.n == n && origin == crashed && st.log == crashed.log && st.intact == crashed.intact
      ensures fresh(wal) && fresh(bitmap) && fresh(slots)
    {
      this.n, this.cap := n, |w|;
      wal := new Record[|w|](i requires 0 <= i < |w| => w[i]);
      bitmap := new nat[|b|](i requires 0 <= i < |b| => b[i]);
      slots := new Slot[|m|](i requires 0 <= i < |m| => m[i]);
      nextSeq := 1;
      st, origin, trace := crashed, crashed, [];
      new;
      assert wal[..] == w && bitmap[..] == b && slots[..] == m;
      var applied := LoadAppliedSeq();
      nextSeq := applied + 1;
      Recover(applied);
      SettledBits(st);
    }

    ghost method Act(a: Action)
      requires Inv(st) && Enabled(st, a) && LegalRun(origin, trace) && Run(origin, trace) == st
      modifies this`st, this`trace
      ensures st == Do(old(st), a) && trace == old(trace) + [a]
      ensures Inv(st) && LegalRun(origin, trace) && Run(origin, trace) == st
    {
      hide Inv, Enabled, Do;
      StepInv(st, a);
      RunAppend(origin, trace, a);
      st, trace := Do(st, a), trace + [a];
    }

    predicate BitTest(i: nat)
      requires i < n && bitmap.Length == (n + 7) / 8
      reads bitmap
      ensures BitTest(i) == GetBit(bitmap[..], i)
    {
      Bit(bitmap[i / 8], i % 8)
    }

    // ----- The three steps of a commit -----

    method WalAppend(op: Op)
      requires Valid() && st.pc.Idle? && Wanted(st, op)
      modifies this`nextSeq, this`st, this`trace, wal
      ensures Valid() && st.pc == Logged(op) && op.index < n
      ensures st.log == old(st.log) + [op] && st.intact == old(st.intact) && trace == old(trace) + [Log(op), SyncWal]
      ensures wal[..] == old(wal[..])[old(nextSeq) % cap := Rec(old(nextSeq), Cut(op))] && bitmap[..] == old(bitmap[..])
    {
      hide Inv, LegalRun, Run, Enabled, Do, Wanted;
      AppendEffect(st, op);
      var q := nextSeq;
      nextSeq := nextSeq + 1;
      wal[q % cap] := Rec(q, Cut(op));
      assert wal[..] == old(wal[..])[q % cap := Rec(q, Cut(op))];
      Act(Log(op));
      Act(SyncWal);
    }

    method ApplyOp(op: Op)
      requires bitmap.Length == (n + 7) / 8 && op.index < n
      modifies bitmap
      ensures bitmap[..] == PutBit(old(bitmap[..]), op)
    {
      var k := op.index / 8;
      if op.alloc {
        bitmap[k] := SetBit(bitmap[k], op.index % 8);
      } else {
        bitmap[k] := ClearBit(bitmap[k], op.index % 8);
      }
    }

    method ApplyAndSync(op: Op)
      requires Valid() && st.pc == Logged(op) && op.index < n
      modifies this`st, this`trace, bitmap
      ensures Valid() && st.pc.Flushed? && st.log == old(st.log) && st.intact == old(st.intact)
      ensures trace == old(trace) + [Apply, SyncByte] && bitmap[..] == PutBit(old(bitmap[..]), op)
    {
      hide Inv, LegalRun, Run, PutBit, Enabled, Do;
      ApplyEffect(st);
      ApplyOp(op);
      Act(Apply);
      Act(SyncByte);
    }

    method MetaCommit(q: nat)
      requires Valid() && st.pc.Flushed? && q + 1 == nextSeq
      modifies this`st, this`trace, slots
      ensures Valid() && st.pc.Idle? && st.log == old(st.log) && st.intact == old(st.intact)
      ensures trace == old(trace) + [StoreSlot, SyncSlot]
      ensures var g := if old(slots[0].gen) > old(slots[1].gen) then old(slots[0].gen) + 1 else old(slots[1].gen) + 1;
              slots[..] == old(slots[..])[g % 2 := Good(q, g)]
    {
      hide Inv, LegalRun, Run, Enabled, Do;
      MarkEffect(st);
      var gen := 1 + if slots[0].gen > slots[1].gen then slots[0].gen else slots[1].gen;
      ghost var m := slots[..];
      slots[gen % 2] := Good(q, gen);
      assert slots[..] == m[gen % 2 := Good(q, gen)];
      Act(StoreSlot);
      Act(SyncSlot);
    }

    method Commit(op: Op)
      requires Settled() && Wanted(st, op)
      modifies this, wal, bitmap, slots
      ensures Settled() && st.log == old(st.log) + [op] && st.intact == old(st.intact)
      ensures op.index < n && bitmap[..] == PutBit(old(bitmap[..]), op)
      ensures trace == old(trace) + [Log(op), SyncWal, Apply, SyncByte, StoreSlot, SyncSlot]
    {
      hide Inv, LegalRun, Run, Wanted, PutBit;
      var q := nextSeq;
      WalAppend(op);
      ApplyAndSync(op);
      ReadyFacts(st);
      MetaCommit(q);
      SettledBits(st);
      ReadyFacts(st);
    }

    // ----- Operations -----

    /** Hands out the lowest free block, or reports that none is free; which blocks are free is what the history
        says. */
    method Allocate() returns (index: Option<nat>)
      requires Settled()
      modifies this, wal, bitmap, slots
      ensures Settled() && st.intact == old(st.intact)
      ensures index.None? ==>
                && st == old(st) && (forall i :: 0 <= i < n ==> GetBit(bitmap[..], i))
                && (st.intact ==> forall i :: 0 <= i < n ==> Live(st.log, i))
      ensures index.Some? ==>
                && FirstClear(old(bitmap[..]), n, index.value) && st.log == old(st.log) + [Op(true, index.value)]
                && bitmap[..] == PutBit(old(bitmap[..]), Op(true, index.value))
                && (st.intact ==> !Live(old(st.log), index.value) &&
                                  forall i :: 0 <= i < index.value ==> Live(old(st.log), i))
    {
      hide Inv, LegalRun, Run;
      var i := 0;
      while i < n
        invariant i <= n && Settled() && st == old(st) && bitmap[..] == old(bitmap[..])
        invariant forall j :: 0 <= j < i ==> GetBit(bitmap[..], j)
      {
        if !BitTest(i) {
          Commit(Op(true, i));
          return Some(i);
        }
        i := i + 1;
      }
      return None;
    }

    method Deallocate(index: nat)
      requires Settled()
      modifies this, wal, bitmap, slots
      ensures Settled() && st.intact == old(st.intact)
      ensures if index < n && GetBit(old(bitmap[..]), index)
              then st.log == old(st.log) + [Op(false, index)] && bitmap[..] == PutBit(old(bitmap[..]), Op(false, index))
              else st == old(st) && bitmap[..] == old(bitmap[..])
      ensures st.intact && index < n ==> (GetBit(old(bitmap[..]), index) <==> Live(old(st.log), index))
    {
      hide Inv, LegalRun, Run;
      if index >= n {
        return;
      }
      if !BitTest(index) {
        return;
      }
      Commit(Op(false, index));
    }

    // ----- Recovery -----

    method LoadAppliedSeq() returns (bestSeq: nat)
      requires slots.Length == 2
      ensures bestSeq == LoadSeq(slots[..])
      ensures forall i :: 0 <= i < 2 && slots[i].Good? && slots[i].gen > 0 ==>
                slots[1 - i].Bad? || slots[i].gen > slots[1 - i].gen ==> bestSeq == slots[i].seqNo
      ensures (forall i :: 0 <= i < 2 ==> slots[i].Bad? || slots[i].gen == 0) ==> bestSeq == 0
    {
      var bestGen := 0;
      bestSeq := 0;
      for i := 0 to 2
        invariant i == 0 ==> bestGen == 0 && bestSeq == 0
        invariant i == 1 ==> bestGen == (if Readable(slots[0]) then slots[0].gen else 0)
        invariant i == 1 ==> bestSeq == (if Readable(slots[0]) then slots[0].seqNo else 0)
        invariant i == 2 ==> bestSeq == LoadSeq(slots[..])
      {
        if slots[i].gen != 0 && slots[i].Good? && slots[i].gen > bestGen {
          bestGen, bestSeq := slots[i].gen, slots[i].seqNo;
        }
      }
    }

    /** Collect, sort, replay. */
    method Recover(applied: nat)
      requires Valid() && st.pc.Down? && applied == LoadSeq(slots[..]) && nextSeq == applied + 1
      modifies this, wal, bitmap, slots
      ensures Valid() && st.pc.Idle? && st.log == old(st.log) && st.intact == old(st.intact)
    {
      hide Inv, LegalRun, Run, Enabled, Do, Collected, SeqSorted;
      ghost var log := st.log;
      var found := Collect(wal, applied, n);
      AllRecords(wal[..], applied, n);
      var pending := SortBySeq(found);
      OpenEffect(st, pending);
      Act(CppMachine.Open(pending));
      var maxSeq := applied;
      for k := 0 to |pending|
        invariant Valid() && st.pc == Replaying(pending, k) && st.log == log && nextSeq == applied + 1
        invariant st.intact == old(st.intact)
        invariant k > 0 ==> pending[k - 1].Rec? && maxSeq == pending[k - 1].seqNo
      {
        ReplayEffect(st);
        ApplyOp(pending[k].op);
        Act(Replay);
        maxSeq := pending[k].seqNo;
      }
      FinishEffect(st);
      Act(Finish);
      if pending != [] {
        nextSeq := maxSeq + 1;
        Act(SyncAll);
        MetaCommit(maxSeq);
      }
    }
  }

  lemma AllRecords(ring: seq<Record>, applied: nat, n: nat)
    ensures forall i :: 0 <= i < |Collected(ring, applied, n)| ==> Collected(ring, applied, n)[i].Rec?
  {
    var p := Collected(ring, applied, n);
    forall i | 0 <= i < |p| ensures p[i].Rec? {
      CollectedMembers(ring, applied, n, p[i]);
    }
  }

  // ----- What the actions of each step do -----

  lemma AppendEffect(s: State, op: Op)
    requires Inv(s) && s.pc.Idle? && Wanted(s, op)
    ensures Enabled(s, Log(op)) && op.index < s.n
    ensures var t := Do(s, Log(op));
            && Enabled(t, SyncWal)
            && Do(t, SyncWal).(walDisk := s.walDisk, lo := s.lo) ==
               s.(walCur := s.walCur[s.nextSeq % s.cap := Rec(s.nextSeq, Cut(op))], nextSeq := s.nextSeq + 1,
                  pc := Logged(op), log := s.log + [op])
  {
    hide WalInv, SlotInv, BitsInv, AllRight;
  }

  lemma ApplyEffect(s: State)
    requires Inv(s) && s.pc.Logged? && s.pc.op.index < s.n
    ensures Enabled(s, Apply) && Sized(s)
    ensures var t, b := Do(s, Apply), PutBit(s.byteCur, s.pc.op);
            && Enabled(t, SyncByte)
            && Do(t, SyncByte).(byteDisk := s.byteDisk, from := s.from) == s.(byteCur := b, pc := Flushed)
  {
    hide WalInv, SlotInv, BitsInv, AllRight, PutBit;
  }

  lemma MarkEffect(s: State)
    requires Inv(s) && s.pc.Flushed?
    ensures Enabled(s, StoreSlot) && Sized(s)
    ensures var t, g := Do(s, StoreSlot), NextGen(s.slotCur);
            && Enabled(t, SyncSlot)
            && Do(t, SyncSlot).(slotDisk := s.slotDisk) ==
               s.(slotCur := s.slotCur[g % 2 := Good(s.nextSeq - 1, g)], pc := Idle)
  {
    hide WalInv, SlotInv, BitsInv, AllRight;
  }

  lemma OpenEffect(s: State, p: seq<Record>)
    requires Inv(s) && s.pc.Down?
    requires SeqSorted(p) && multiset(p) == multiset(Collected(s.walCur, LoadSeq(s.slotCur), s.n))
    ensures Enabled(s, CppMachine.Open(p))
    ensures Do(s, CppMachine.Open(p)) == s.(nextSeq := LoadSeq(s.slotCur) + 1, pc := Replaying(p, 0))
  {
    hide WalInv, SlotInv, BitsInv, AllRight, SeqSorted, Collected;
  }

  lemma ReplayEffect(s: State)
    requires Inv(s) && s.pc.Replaying? && s.pc.done < |s.pc.pending|
    ensures Sized(s) && Enabled(s, Replay)
    ensures var e := s.pc.pending[s.pc.done];
            && e.Rec? && e.op.index < s.n
            && Do(s, Replay).(byteDisk := s.byteDisk) ==
               s.(byteCur := PutBit(s.byteCur, e.op), pc := Replaying(s.pc.pending, s.pc.done + 1))
  {
    hide SlotInv, BitsInv, AllRight, PutBit;
  }

  lemma FinishEffect(s: State)
    requires Inv(s) && s.pc.Replaying? && s.pc.done == |s.pc.pending|
    ensures Enabled(s, Finish)
    ensures var t, p := Do(s, Finish), s.pc.pending;
            && (p == [] ==> t == s.(pc := Idle))
            && (p != [] ==>
                  && p[|p| - 1].Rec? && t == s.(nextSeq := p[|p| - 1].seqNo + 1, pc := Replayed)
                  && Enabled(t, SyncAll)
                  && Do(t, SyncAll).(byteDisk := t.byteDisk, from := t.from) == t.(pc := Flushed))
  {
    hide WalInv, SlotInv, BitsInv, AllRight;
  }

  lemma SettledBits(s: State)
    requires Inv(s) && s.pc.Idle?
    ensures s.nextSeq == |s.log| + 1
    ensures s.intact ==> forall i :: 0 <= i < s.n ==> GetBit(s.byteCur, i) == Live(s.log, i)
  {
    if s.intact {
      IdleBits(s);
    }
  }

  lemma ReadyFacts(s: State)
    requires Inv(s) && (s.pc.Idle? || s.pc.Flushed?)
    ensures s.nextSeq == |s.log| + 1
  {
  }
}
