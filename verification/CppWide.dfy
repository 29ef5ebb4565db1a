/** Where the C++ pool stops being crash atomic: the log record holds a block number cut to 32 bits, while the bitmap is
    changed at the uncut one. */
module CppWide {
  import opened PoolBits
  import opened CppMachine
  import opened CppSteps
  import opened CppRuns
  import opened CppLoss
  import CppPool

  /** Writes the watermark that is due. */
  lemma WriteMark(s: State, acts: seq<Action>) returns (more: seq<Action>)
    requires LegalRun(s, acts) && Inv(Run(s, acts)) && Run(s, acts).pc.Flushed?
    ensures LegalRun(s, more) && Inv(Run(s, more))
    ensures var t, r := Run(s, acts), Run(s, more);
            r.pc.Idle? && r.log == t.log && r.byteCur == t.byteCur && r.intact == t.intact
  {
    hide Inv, Enabled, Do, LegalRun, Run;
    CppPool.MarkEffect(Run(s, acts));
    more := Go(s, acts, StoreSlot);
    more := Go(s, more, SyncSlot);
  }

  // ----- A lost operation -----

  /** A crash that leaves everything as it is in memory. */
  lemma CrashNow(s: State)
    requires Inv(s) && s.pc.Logged?
    ensures Enabled(s, Crash(s.walCur, s.byteCur, s.slotCur))
    ensures var r := Do(s, Crash(s.walCur, s.byteCur, s.slotCur));
            r.pc.Down? && r.log == s.log && r.byteCur == s.byteCur && r.slotCur == s.slotCur && r.n == s.n
  {
    assert IsImage(s.walCur, s.walDisk) by {
      hide SlotInv, BitsInv, PcInv;
    }
    assert IsImage(s.byteCur, s.byteDisk) by {
      hide SlotInv, WalInv, PcInv;
    }
    assert IsImage(s.slotCur, s.slotDisk) by {
      hide WalInv, BitsInv, PcInv;
    }
    hide WalInv, BitsInv, SlotInv, PcInv;
  }

  lemma IdleMark(s: State)
    requires Inv(s) && s.pc.Idle?
    ensures Sized(s) && LoadSeq(s.slotCur) == |s.log|
  {
  }

  /** Every idle pool of every run goes on to lose any operation on a block numbered 2^32 or above: a crash right after
      its record became durable, and the recovery that follows, leave the block as it was before. */
  lemma WideOperationLost(n: nat, cap: nat, acts: seq<Action>, op: Op) returns (more: seq<Action>)
    requires n > 0 && cap >= 2 && LegalRun(Fresh(n, cap), acts) && Run(Fresh(n, cap), acts).pc.Idle?
    requires Wanted(Run(Fresh(n, cap), acts), op) && op.index >= INDEXES
    ensures LegalRun(Fresh(n, cap), more) && Run(Fresh(n, cap), more).pc.Idle?
    ensures Run(Fresh(n, cap), more).log == Run(Fresh(n, cap), acts).log + [op]
    ensures Live(Run(Fresh(n, cap), more).log, op.index) == op.alloc
    ensures GetBit(Run(Fresh(n, cap), more).byteCur, op.index) == !op.alloc
  {
    var f := Fresh(n, cap);
    var t := Run(f, acts);
    assert GetBit(t.byteCur, op.index) == !op.alloc;
    hide Inv, Enabled, Do, LegalRun, Run, Wanted, GetBit;
    FreshInv(n, cap);
    RunInv(f, acts);
    IdleMark(t);
    CppPool.AppendEffect(t, op);
    more := Go(f, acts, Log(op));
    more := Go(f, more, SyncWal);
    var u := Run(f, more);
    CrashNow(u);
    more := Go(f, more, Crash(u.walCur, u.byteCur, u.slotCur));
    SizedRun(Run(f, more));
    more := ReplayLast(f, more);
    PutBitBits(u.byteCur, Cut(op), op.index);
    LiveAppend(t.log, op, op.index);
    more := WriteMark(f, more);
  }

  // ----- Getting there -----

  /** A run of m allocations from a new pool. */
  lemma {:induction false} FillTo(n: nat, cap: nat, m: nat) returns (acts: seq<Action>)
    requires n > 0 && cap >= 2 && m <= n
    ensures LegalRun(Fresh(n, cap), acts) && Inv(Run(Fresh(n, cap), acts))
    ensures var s := Run(Fresh(n, cap), acts); s.pc.Idle? && s.intact && s.log == Firsts(m) && s.n == n
    decreases m
  {
    hide Inv, Enabled, Do, LegalRun, Run;
    var f := Fresh(n, cap);
    FreshInv(n, cap);
    RunNothing(f);
    if m == 0 {
      acts := [];
    } else {
      acts := FillTo(n, cap, m - 1);
      NextWanted(Run(f, acts), m - 1);
      acts := LogAndApply(f, acts, Op(true, m - 1));
      acts := WriteMark(f, acts);
      assert Firsts(m - 1) + [Op(true, m - 1)] == Firsts(m);
      RunInv(f, acts);
    }
  }

  /** With the first m blocks in use, block m is next. */
  lemma NextWanted(s: State, m: nat)
    requires Inv(s) && s.pc.Idle? && s.intact && s.log == Firsts(m) && m < s.n
    ensures Wanted(s, Op(true, m))
  {
    hide Inv;
    IdleBits(s);
    forall i: nat | i <= m ensures GetBit(s.byteCur, i) == (i < m) {
      FirstsLive(m, i);
    }
  }

  // ----- The exact condition -----

  ghost predicate EveryRunAtomic(n: nat, cap: nat)
    requires n > 0 && cap >= 2
  {
    forall acts :: LegalRun(Fresh(n, cap), acts) && Run(Fresh(n, cap), acts).pc.Idle? ==>
      Reflects(Run(Fresh(n, cap), acts), Durable(Fresh(n, cap), acts))
  }

  /** Every run of the C++ pool is crash atomic if and only if the pool has at most 2^32 blocks. */
  lemma CrashAtomicIff(n: nat, cap: nat)
    requires n > 0 && cap >= 2
    ensures EveryRunAtomic(n, cap) <==> n <= 0x1_0000_0000
  {
    hide Inv, LegalRun, Run, Wanted, Reflects;
    var f := Fresh(n, cap);
    if n <= INDEXES {
      forall acts | LegalRun(f, acts) && Run(f, acts).pc.Idle? ensures Reflects(Run(f, acts), Durable(f, acts)) {
        CrashAtomic(n, cap, acts);
      }
    } else {
      var acts := FillTo(n, cap, INDEXES);
      NextWanted(Run(f, acts), INDEXES);
      var more := WideOperationLost(n, cap, acts, Op(true, INDEXES));
      NotReflected(n, cap, more, INDEXES);
    }
  }

  lemma NotReflected(n: nat, cap: nat, acts: seq<Action>, i: nat)
    requires n > 0 && cap >= 2 && i < n && LegalRun(Fresh(n, cap), acts)
    requires GetBit(Run(Fresh(n, cap), acts).byteCur, i) != Live(Run(Fresh(n, cap), acts).log, i)
    ensures !Reflects(Run(Fresh(n, cap), acts), Durable(Fresh(n, cap), acts))
  {
    hide Inv, LegalRun, Run;
    var f := Fresh(n, cap);
    FreshInv(n, cap);
    RunInv(f, acts);
    LogIsDurable(f, acts);
    assert f.log + Durable(f, acts) == Durable(f, acts);
  }
}
