/** How the C++ pool comes to lose its watermark: a slot write torn by a crash, and the slot write of the recovery that
    follows torn again. */
module CppLoss {
  import opened Powers
  import opened PoolBits
  import opened SortedReplay
  import opened CppMachine
  import opened CppSteps
  import opened CppRuns
  import CppPool

  /** One more action at the end of a run. */
  lemma Go(s: State, acts: seq<Action>, a: Action) returns (more: seq<Action>)
    requires LegalRun(s, acts) && Inv(Run(s, acts)) && Enabled(Run(s, acts), a)
    ensures LegalRun(s, more) && Run(s, more) == Do(Run(s, acts), a) && Inv(Run(s, more))
  {
    RunAppend(s, acts, a);
    StepInv(Run(s, acts), a);
    more := acts + [a];
  }

  /** Logs and applies an operation, up to the point where the watermark is due. */
  lemma LogAndApply(s: State, acts: seq<Action>, op: Op) returns (more: seq<Action>)
    requires LegalRun(s, acts) && Inv(Run(s, acts)) && Run(s, acts).pc.Idle? && Wanted(Run(s, acts), op)
    ensures LegalRun(s, more) && Inv(Run(s, more))
    ensures var t, r := Run(s, acts), Run(s, more);
            r.pc.Flushed? && r.log == t.log + [op] && r.slotCur == t.slotCur && r.intact == t.intact
  {
    hide Inv, Enabled, Do, LegalRun, Run, Wanted;
    CppPool.AppendEffect(Run(s, acts), op);
    more := Go(s, acts, Log(op));
    more := Go(s, more, SyncWal);
    CppPool.ApplyEffect(Run(s, more));
    more := Go(s, more, Apply);
    more := Go(s, more, SyncByte);
  }

  /** Writes the watermark and crashes with the slot torn: its generation is there, its checksum is wrong. */
  lemma TearSlot(s: State, acts: seq<Action>) returns (more: seq<Action>)
    requires LegalRun(s, acts) && Inv(Run(s, acts)) && Run(s, acts).pc.Flushed? && Sized(Run(s, acts))
    ensures LegalRun(s, more) && Inv(Run(s, more))
    ensures var t, r := Run(s, acts), Run(s, more);
            && r.pc.Down? && r.log == t.log
            && r.slotCur == t.slotCur[NextSlot(t.slotCur) := Bad(NextGen(t.slotCur))]
  {
    hide Inv, Enabled, Do, LegalRun, Run;
    var t := Run(s, acts);
    CppPool.MarkEffect(t);
    more := Go(s, acts, StoreSlot);
    var m := TornImage(t);
    more := Go(s, more, Crash(Run(s, more).walCur, Run(s, more).byteCur, m));
  }

  lemma TornImage(t: State) returns (m: seq<Slot>)
    requires Inv(t) && t.pc.Flushed? && Enabled(t, StoreSlot) && Inv(Do(t, StoreSlot))
    ensures |t.slotCur| == 2 && m == t.slotCur[NextSlot(t.slotCur) := Bad(NextGen(t.slotCur))]
    ensures var u := Do(t, StoreSlot);
            && Enabled(u, Crash(u.walCur, u.byteCur, m))
            && Do(u, Crash(u.walCur, u.byteCur, m)).pc.Down?
            && Do(u, Crash(u.walCur, u.byteCur, m)).log == t.log
            && Do(u, Crash(u.walCur, u.byteCur, m)).slotCur == m
  {
    m := t.slotCur[NextSlot(t.slotCur) := Bad(NextGen(t.slotCur))];
    var u := Do(t, StoreSlot);
    assert IsImage(u.walCur, u.walDisk) by {
      hide SlotInv, BitsInv, PcInv;
    }
    assert IsImage(u.byteCur, u.byteDisk) by {
      hide SlotInv, WalInv, PcInv;
    }
    hide WalInv, BitsInv, PcInv;
  }

  /** When only the last record is missing, it is what recovery collects. */
  lemma CollectsLast(ring: seq<Record>, log: seq<Op>, lo: nat, n: nat)
    requires |ring| > 0 && HoldsSuffix(ring, log, lo) && lo < |log|
    requires forall k :: 0 <= k < |log| ==> log[k].index < n
    ensures Collected(ring, |log| - 1, n) == [Rec(|log|, log[|log| - 1])]
  {
    hide HoldsSuffix;
    var p, e := Collected(ring, |log| - 1, n), Rec(|log|, log[|log| - 1]);
    SuffixDistinct(ring, log, lo);
    CollectedDistinct(ring, |log| - 1, n);
    CollectedMembers(ring, |log| - 1, n, e);
    LastInRing(ring, log, lo);
    forall i | 0 <= i < |p| ensures p[i] == e {
      CollectedMembers(ring, |log| - 1, n, p[i]);
      OnlyLast(ring, log, lo, p[i]);
    }
    Alone(p, e);
  }

  lemma Alone(p: seq<Record>, e: Record)
    requires Distinct(p) && e in p && forall i :: 0 <= i < |p| ==> p[i] == e
    ensures p == [e]
  {
    if |p| > 1 {
      FirstTwo(p);
    }
  }

  lemma FirstTwo(p: seq<Record>)
    requires Distinct(p) && |p| > 1
    ensures p[0] != p[1]
  {
  }

  lemma LastInRing(ring: seq<Record>, log: seq<Op>, lo: nat)
    requires |ring| > 0 && HoldsSuffix(ring, log, lo) && lo < |log|
    ensures Rec(|log|, log[|log| - 1]) in ring
  {
    assert ring[|log| % |ring|] == Rec(|log|, log[|log| - 1]);
  }

  lemma OnlyLast(ring: seq<Record>, log: seq<Op>, lo: nat, e: Record)
    requires HoldsSuffix(ring, log, lo) && e in ring && e.Rec? && e.seqNo > |log| - 1 >= 0
    ensures e == Rec(|log|, log[|log| - 1])
  {
    var j :| 0 <= j < |ring| && ring[j] == e;
  }

  /** Recovers one missing record, up to the point where the watermark is due again. */
  lemma ReplayLast(s: State, acts: seq<Action>) returns (more: seq<Action>)
    requires LegalRun(s, acts) && Inv(Run(s, acts)) && Run(s, acts).pc.Down? && Sized(Run(s, acts))
    requires var t := Run(s, acts); |t.log| > 0 && LoadSeq(t.slotCur) == |t.log| - 1
    ensures LegalRun(s, more) && Inv(Run(s, more))
    ensures var t, r := Run(s, acts), Run(s, more);
            && r.pc.Flushed? && r.log == t.log && r.slotCur == t.slotCur
            && t.log[|t.log| - 1].index < t.n && r.byteCur == PutBit(t.byteCur, Cut(t.log[|t.log| - 1]))
  {
    hide Inv, Enabled, Do, LegalRun, Run, SeqSorted;
    var t := Run(s, acts);
    var p := [Rec(|t.log|, Cut(t.log[|t.log| - 1]))];
    PendingLast(t, p);
    CppPool.OpenEffect(t, p);
    more := Go(s, acts, Open(p));
    CppPool.ReplayEffect(Run(s, more));
    more := Go(s, more, Replay);
    CppPool.FinishEffect(Run(s, more));
    more := Go(s, more, Finish);
    more := Go(s, more, SyncAll);
  }

  lemma PendingLast(t: State, p: seq<Record>)
    requires Inv(t) && t.pc.Down? && |t.log| > 0 && LoadSeq(t.slotCur) == |t.log| - 1
    requires p == [Rec(|t.log|, Cut(t.log[|t.log| - 1]))]
    ensures t.log[|t.log| - 1].index < t.n
    ensures SeqSorted(p) && multiset(p) == multiset(Collected(t.walCur, LoadSeq(t.slotCur), t.n))
  {
    hide SlotInv, BitsInv, Collected, HoldsSuffix;
    RingHolds(t);
    IndicesBound(t);
    CollectsLast(t.walCur, Cuts(t.log), t.lo, t.n);
  }

  /** The newest slot is the one its generation says, and newer than the other. */
  predicate JustWritten(slots: seq<Slot>, q: nat) {
    && |slots| == 2
    && exists k :: 0 <= k < 2 && slots[k] == Good(q, slots[k].gen) &&
         slots[k].gen % 2 == k && slots[1 - k].gen < slots[k].gen
  }

  /** The first torn write leaves its generation behind in a slot it made unreadable, so the second goes to the only
      readable slot and takes the watermark with it. */
  lemma TornTwice(slots: seq<Slot>, q: nat)
    requires JustWritten(slots, q)
    ensures var once := slots[NextSlot(slots) := Bad(NextGen(slots))];
            var twice := once[NextSlot(once) := Bad(NextGen(once))];
            LoadSeq(slots) == q && LoadSeq(once) == q && LoadSeq(twice) == 0
  {
    var k :| 0 <= k < 2 && slots[k] == Good(q, slots[k].gen) &&
             slots[k].gen % 2 == k && slots[1 - k].gen < slots[k].gen;
    var g := slots[k].gen;
    assert NextGen(slots) == g + 1;
    var once := slots[NextSlot(slots) := Bad(g + 1)];
    assert once[k] == slots[k];
    assert NextGen(once) == g + 2;
  }

  lemma WrittenByCommit(s: State)
    requires Inv(s) && Enabled(s, SyncSlot)
    ensures JustWritten(Do(s, SyncSlot).slotCur, |s.log|) && Do(s, SyncSlot).pc.Idle? && Do(s, SyncSlot).log == s.log
  {
    hide WalInv, BitsInv, PcInv;
    assert s.slotCur[s.pc.slot] == Good(|s.log|, s.slotCur[s.pc.slot].gen);
  }

  /** Every run that has just completed a commit or a recovery goes on, over one more operation, a torn slot write, a
      recovery and another torn slot write, to a pool in which no slot is readable although its whole history
      is durable. */
  lemma TwoTornWritesLoseWatermark(n: nat, cap: nat, acts: seq<Action>, op: Op) returns (more: seq<Action>)
    requires n > 0 && cap >= 2 && LegalRun(Fresh(n, cap), acts)
    requires Enabled(Run(Fresh(n, cap), acts), SyncSlot)
    requires Wanted(Do(Run(Fresh(n, cap), acts), SyncSlot), op)
    ensures LegalRun(Fresh(n, cap), more)
    ensures var t, r := Run(Fresh(n, cap), acts), Run(Fresh(n, cap), more);
            && r.pc.Down? && r.log == t.log + [op] && Sized(r)
            && !Readable(r.slotCur[0]) && !Readable(r.slotCur[1])
  {
    hide Inv, Enabled, Do, LegalRun, Run, Wanted;
    var f := Fresh(n, cap);
    FreshInv(n, cap);
    RunInv(f, acts);
    WrittenByCommit(Run(f, acts));
    more := Go(f, acts, SyncSlot);
    TornTwice(Run(f, more).slotCur, |Run(f, more).log|);
    more := LogAndApply(f, more, op);
    SizedRun(Run(f, more));
    more := TearSlot(f, more);
    SizedRun(Run(f, more));
    more := ReplayLast(f, more);
    SizedRun(Run(f, more));
    more := TearSlot(f, more);
    SizedRun(Run(f, more));
  }

  lemma SizedRun(s: State)
    requires Inv(s)
    ensures Sized(s)
  {
  }

  lemma RunNothing(s: State)
    ensures LegalRun(s, []) && Run(s, []) == s
  {
  }

  lemma FirstFree(n: nat, cap: nat)
    requires n > 0 && cap >= 2
    ensures Fresh(n, cap).pc.Idle? && Fresh(n, cap).log == [] && Wanted(Fresh(n, cap), Op(true, 0))
  {
    ZeroBits(0);
  }

  lemma ThenUsed(s: State)
    requires Inv(s) && s.pc.Flushed? && s.log == [Op(true, 0)] && s.intact
    ensures Enabled(s, StoreSlot) && Do(s, StoreSlot).log == s.log
    ensures Enabled(Do(s, StoreSlot), SyncSlot) && Wanted(Do(Do(s, StoreSlot), SyncSlot), Op(false, 0))
  {
    hide WalInv, SlotInv, BitsInv, PcInv;
    CppPool.MarkEffect(s);
    StepInv(s, StoreSlot);
    StepInv(Do(s, StoreSlot), SyncSlot);
    IdleBits(Do(Do(s, StoreSlot), SyncSlot));
    assert Live(s.log, 0);
  }

  /** Such runs exist for every pool: the first commit already leads there. */
  lemma WatermarkCanBeLost(n: nat, cap: nat) returns (acts: seq<Action>)
    requires n > 0 && cap >= 2
    ensures LegalRun(Fresh(n, cap), acts)
    ensures var r := Run(Fresh(n, cap), acts);
            r.pc.Down? && r.log == [Op(true, 0), Op(false, 0)] && Sized(r) && LoadSeq(r.slotCur) == 0
  {
    hide Inv, Enabled, Do, LegalRun, Run, Wanted;
    var f := Fresh(n, cap);
    FreshInv(n, cap);
    RunNothing(f);
    FirstFree(n, cap);
    acts := LogAndApply(f, [], Op(true, 0));
    assert [] + [Op(true, 0)] == [Op(true, 0)];
    ThenUsed(Run(f, acts));
    acts := Go(f, acts, StoreSlot);
    acts := TwoTornWritesLoseWatermark(n, cap, acts, Op(false, 0));
  }
}
