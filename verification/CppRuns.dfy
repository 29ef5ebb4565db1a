/** Whole runs of the C++ pool, crashes and crashed recoveries included. */
module CppRuns {
  import opened PoolBits
  import opened SortedReplay
  import opened CppMachine
  import opened CppSteps

  ghost predicate LegalRun(s: State, acts: seq<Action>)
    decreases |acts|
  {
    acts == [] || (Enabled(s, acts[0]) && LegalRun(Do(s, acts[0]), acts[1..]))
  }

  ghost function Run(s: State, acts: seq<Action>): (r: State)
    requires LegalRun(s, acts)
    decreases |acts|
  {
    if acts == [] then s else Run(Do(s, acts[0]), acts[1..])
  }

  lemma {:induction false} RunInv(s: State, acts: seq<Action>)
    requires Inv(s) && LegalRun(s, acts)
    ensures Inv(Run(s, acts)) && Run(s, acts).n == s.n && Run(s, acts).cap == s.cap
    decreases |acts|
  {
    if acts != [] {
      StepInv(s, acts[0]);
      RunInv(Do(s, acts[0]), acts[1..]);
    }
  }

  lemma {:induction false} RunAppend(s: State, acts: seq<Action>, a: Action)
    requires LegalRun(s, acts) && Enabled(Run(s, acts), a)
    ensures LegalRun(s, acts + [a]) && Run(s, acts + [a]) == Do(Run(s, acts), a)
    decreases |acts|
  {
    if acts == [] {
      assert [a][1..] == [];
    } else {
      RunAppend(Do(s, acts[0]), acts[1..], a);
      assert (acts + [a])[1..] == acts[1..] + [a];
    }
  }

  /** The operation whose record becomes durable in one step, if any. */
  ghost function NewlyDurable(s: State, a: Action): (ops: seq<Op>)
    requires Enabled(s, a)
  {
    if a.SyncWal? then [s.pc.op]
    else if a.Crash? && s.pc.Logging? && s.nextSeq > 0 && Rec(s.nextSeq - 1, Cut(s.pc.op)) in a.wal then [s.pc.op]
    else []
  }

  ghost function Durable(s: State, acts: seq<Action>): (ops: seq<Op>)
    requires LegalRun(s, acts)
    decreases |acts|
  {
    if acts == [] then [] else NewlyDurable(s, acts[0]) + Durable(Do(s, acts[0]), acts[1..])
  }

  lemma StepLog(s: State, a: Action)
    requires Inv(s) && Enabled(s, a)
    ensures Do(s, a).log == s.log + NewlyDurable(s, a)
  {
    if a.Crash? && s.pc.Logging? {
      InFlightSlot(s, a.wal);
      assert s.nextSeq == |s.log| + 2;
    }
    hide Inv;
  }

  lemma InFlightSlot(s: State, w: seq<Record>)
    requires Inv(s) && s.pc.Logging? && IsImage(w, s.walDisk)
    ensures Rec(|s.log| + 1, Cut(s.pc.op)) in w <==> w[(|s.log| + 1) % s.cap] == Rec(|s.log| + 1, Cut(s.pc.op))
  {
    hide SlotInv, BitsInv;
    var e := Rec(|s.log| + 1, Cut(s.pc.op));
    if e in w {
      var j :| 0 <= j < |w| && w[j] == e;
      assert RecordOk(s, j, e);
    }
  }

  lemma {:induction false} LogIsDurable(s: State, acts: seq<Action>)
    requires Inv(s) && LegalRun(s, acts)
    ensures Run(s, acts).log == s.log + Durable(s, acts)
    decreases |acts|
  {
    hide Inv, Enabled, Do, NewlyDurable;
    if acts == [] {
      assert s.log + [] == s.log;
    } else {
      StepInv(s, acts[0]);
      StepLog(s, acts[0]);
      LogIsDurable(Do(s, acts[0]), acts[1..]);
    }
  }

  lemma IdleBits(s: State)
    requires Inv(s) && s.pc.Idle? && s.intact
    ensures forall i :: 0 <= i < s.n ==> GetBit(s.byteCur, i) == Live(s.log, i)
  {
    CurRight(s);
    forall i | 0 <= i < s.n ensures GetBit(s.byteCur, i) == Live(s.log, i) {
      assert Right(s.log, s.from, i, s.byteCur[i / 8]);
      NotTouchedEmpty(s.log, i);
    }
  }

  lemma {:induction false} RunIntact(s: State, acts: seq<Action>)
    requires Inv(s) && s.intact && s.n <= INDEXES && LegalRun(s, acts)
    ensures Run(s, acts).intact
    decreases |acts|
  {
    hide Inv;
    if acts != [] {
      StepInv(s, acts[0]);
      StepIntact(s, acts[0]);
      RunIntact(Do(s, acts[0]), acts[1..]);
    }
  }

  lemma StepIntact(s: State, a: Action)
    requires Inv(s) && s.intact && s.n <= INDEXES && Enabled(s, a) && Inv(Do(s, a))
    ensures Do(s, a).intact
  {
    IndicesBound(Do(s, a));
    hide Inv;
  }

  /** The pool stands where the operations leave it: every block as the last operation on it says, the next sequence
      number and the watermark after the last one. */
  ghost predicate Reflects(s: State, ops: seq<Op>) {
    && Sized(s) && s.nextSeq == |ops| + 1 && LoadSeq(s.slotCur) == |ops|
    && forall i :: 0 <= i < s.n ==> GetBit(s.byteCur, i) == Live(ops, i)
  }

  /** Crash atomicity of the C++ pool: whenever it is idle, the bitmap is the in-order fold of exactly the durable
      operations, even after runs in which torn writes made both watermark slots unreadable. A pool of any size keeps
      to it as long as no crash leaves a record above the watermark whose block number was cut; a pool of at most 2^32
      blocks cuts none. */
  lemma CrashAtomic(n: nat, cap: nat, acts: seq<Action>)
    requires n > 0 && cap >= 2 && LegalRun(Fresh(n, cap), acts) && Run(Fresh(n, cap), acts).pc.Idle?
    ensures n <= INDEXES ==> Run(Fresh(n, cap), acts).intact
    ensures Run(Fresh(n, cap), acts).intact ==> Reflects(Run(Fresh(n, cap), acts), Durable(Fresh(n, cap), acts))
  {
    var f := Fresh(n, cap);
    FreshInv(n, cap);
    RunInv(f, acts);
    if n <= INDEXES {
      RunIntact(f, acts);
    }
    if Run(f, acts).intact {
      LogIsDurable(f, acts);
      assert f.log + Durable(f, acts) == Durable(f, acts);
      IdleBits(Run(f, acts));
    }
  }

  /** At every crash point of every run the watermark that the scan finds, possibly 0, is at or below what the
      bitmap reflects, and the ring holds a contiguous suffix of the history that reaches at least as far back, block
      numbers cut to 32 bits. */
  lemma ReplayReaches(n: nat, cap: nat, acts: seq<Action>)
    requires n > 0 && cap >= 2 && LegalRun(Fresh(n, cap), acts) && Run(Fresh(n, cap), acts).pc.Down?
    ensures var s := Run(Fresh(n, cap), acts);
            && Sized(s) && HoldsSuffix(s.walCur, Cuts(s.log), s.lo) && LoadSeq(s.slotCur) <= |s.log|
            && (s.intact ==> forall i :: 0 <= i < n && !Touched(s.log[Later(s.lo, LoadSeq(s.slotCur))..], i) ==>
                  GetBit(s.byteCur, i) == Live(s.log, i))
  {
    var s := Run(Fresh(n, cap), acts);
    FreshInv(n, cap);
    RunInv(Fresh(n, cap), acts);
    RingHolds(s);
    LoadBound(s);
    if s.intact {
      CurRight(s);
    }
    forall i | s.intact && 0 <= i < n && !Touched(s.log[Later(s.lo, LoadSeq(s.slotCur))..], i)
      ensures GetBit(s.byteCur, i) == Live(s.log, i)
    {
      assert Right(s.log, s.from, i, s.byteCur[i / 8]);
    }
  }

  // ----- Losing the watermark -----

  /** The slot the next watermark goes to. */
  function NextSlot(slots: seq<Slot>): (k: nat)
    requires |slots| == 2
    ensures k < 2
  {
    NextGen(slots) % 2
  }

  /** The next watermark goes to the newest readable slot, and the other slot is not as recent. */
  predicate AtRisk(slots: seq<Slot>)
    requires |slots| == 2
  {
    var k := NextSlot(slots);
    var keep, lose := slots[1 - k], slots[k];
    && Readable(lose) && (if Readable(keep) then lose.gen > keep.gen || (lose.gen == keep.gen && k == 0) else true)
    && (if Readable(keep) then keep.seqNo else 0) < lose.seqNo
  }

  lemma StoreAtRiskIff(s: State)
    requires Inv(s) && s.pc.Flushed?
    ensures Enabled(s, StoreSlot)
    ensures (exists m :: IsImage(m, Do(s, StoreSlot).slotDisk) && LoadSeq(m) < LoadSeq(s.slotCur)) <==>
            AtRisk(s.slotCur)
  {
    hide WalInv, BitsInv;
    var r, g, k := Do(s, StoreSlot), NextGen(s.slotCur), NextSlot(s.slotCur);
    var torn := s.slotCur[k := Bad(g)];
    assert IsImage(torn, r.slotDisk);
    forall m | IsImage(m, r.slotDisk)
      ensures m[1 - k] == s.slotCur[1 - k]
      ensures m[k] in {s.slotCur[k], Good(s.nextSeq - 1, g), Bad(g), Bad(s.slotCur[k].gen)}
    {
      assert m[0] in r.slotDisk[0] && m[1] in r.slotDisk[1];
    }
    assert LoadSeq(s.slotCur) <= s.nextSeq - 1 by {
      LoadBound(s);
    }
  }

  /** In every run, at every point where the next watermark is about to be written: some crash image of that write
      shows an older watermark than before exactly when the write goes to the newest readable slot and the other
      slot is not as recent. */
  lemma WatermarkAtRiskIff(n: nat, cap: nat, acts: seq<Action>)
    requires n > 0 && cap >= 2 && LegalRun(Fresh(n, cap), acts) && Run(Fresh(n, cap), acts).pc.Flushed?
    ensures var s := Run(Fresh(n, cap), acts);
            && Enabled(s, StoreSlot)
            && ((exists m :: IsImage(m, Do(s, StoreSlot).slotDisk) && LoadSeq(m) < LoadSeq(s.slotCur)) <==>
                AtRisk(s.slotCur))
  {
    hide Inv, Enabled, Do, AtRisk;
    FreshInv(n, cap);
    RunInv(Fresh(n, cap), acts);
    StoreAtRiskIff(Run(Fresh(n, cap), acts));
  }
}
