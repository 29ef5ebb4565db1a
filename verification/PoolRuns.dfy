/** Whole runs of the pool: any interleaving of operations, crashes at any store or sync point,
    and recoveries that may crash again. */
module PoolRuns {
  import opened PoolBits
  import opened PoolMachine
  import opened PoolSteps

  ghost predicate LegalRun(s: State, acts: seq<Action>)
    decreases |acts|
  {
    acts == [] || (Enabled(s, acts[0]) && LegalRun(Do(s, acts[0]), acts[1..]))
  }

  ghost function Run(s: State, acts: seq<Action>): (r: State)
    requires LegalRun(s, acts)
    decreases |acts|
  {
    if acts == [] then s else Run(Do(s, acts[0]), acts[1..])
  }

  lemma {:induction false} RunInv(s: State, acts: seq<Action>)
    requires Inv(s) && LegalRun(s, acts)
    ensures Inv(Run(s, acts))
    decreases |acts|
  {
    if acts != [] {
      StepInv(s, acts[0]);
      RunInv(Do(s, acts[0]), acts[1..]);
    }
  }

  lemma {:induction false} RunAppend(s: State, acts: seq<Action>, a: Action)
    requires LegalRun(s, acts) && Enabled(Run(s, acts), a)
    ensures LegalRun(s, acts + [a]) && Run(s, acts + [a]) == Do(Run(s, acts), a)
    decreases |acts|
  {
    if acts == [] {
      assert [a][1..] == [];
    } else {
      RunAppend(Do(s, acts[0]), acts[1..], a);
      assert (acts + [a])[1..] == acts[1..] + [a];
    }
  }

  // ----- The durable history -----

  /** The operation whose record becomes durable in one step, if any: a completed log sync, or a
      crash that the record being written survives. */
  ghost function NewlyDurable(s: State, a: Action): (ops: seq<Op>)
    requires Enabled(s, a)
  {
    if a.SyncWal? then [s.pc.op]
    else if a.Crash? && InFlight(s) && s.nextSeq > 0 && Rec(s.nextSeq - 1, s.pc.op) in a.wal then [s.pc.op]
    else []
  }

  /** The operations whose record becomes durable along a run, in order, read off the run alone. */
  ghost function Durable(s: State, acts: seq<Action>): (ops: seq<Op>)
    requires LegalRun(s, acts)
    decreases |acts|
  {
    if acts == [] then [] else NewlyDurable(s, acts[0]) + Durable(Do(s, acts[0]), acts[1..])
  }

  /** The record in flight is on disk after a crash exactly if its own slot holds it. */
  lemma InFlightSlot(s: State, w: seq<Record>)
    requires Inv(s) && InFlight(s) && IsImage(w, s.walDisk)
    ensures Rec(|s.log| + 1, s.pc.op) in w <==> w[(|s.log| + 1) % RING] == Rec(|s.log| + 1, s.pc.op)
  {
    var e := Rec(|s.log| + 1, s.pc.op);
    if e in w {
      var j :| 0 <= j < |w| && w[j] == e;
      assert RecordOk(s, j, e);
    }
  }

  lemma StepLog(s: State, a: Action)
    requires Inv(s) && Enabled(s, a)
    ensures Do(s, a).log == s.log + NewlyDurable(s, a)
  {
    if a.Crash? && InFlight(s) {
      InFlightSlot(s, a.wal);
      assert s.nextSeq == |s.log| + 2;
    }
    hide Inv;
  }

  /** The log of every reachable state is the history of durable operations: nothing that became
      durable is ever lost or reordered, and nothing else appears. */
  lemma {:induction false} LogIsDurable(s: State, acts: seq<Action>)
    requires Inv(s) && LegalRun(s, acts)
    ensures Run(s, acts).log == s.log + Durable(s, acts)
    decreases |acts|
  {
    hide Inv, Enabled, Do, NewlyDurable;
    if acts == [] {
      assert s.log + [] == s.log;
    } else {
      StepInv(s, acts[0]);
      StepLog(s, acts[0]);
      LogIsDurable(Do(s, acts[0]), acts[1..]);
    }
  }

  /** Crash atomicity. Whenever the pool is idle (a commit or a recovery has completed) the bitmap
      is the in-order fold of exactly the durable operations, and the watermark, the next sequence
      number and the used count agree with it. */
  lemma CrashAtomic(n: nat, acts: seq<Action>)
    requires n > 0 && LegalRun(Fresh(n), acts) && Run(Fresh(n), acts).pc.Idle?
    ensures var s, ops := Run(Fresh(n), acts), Durable(Fresh(n), acts);
            && (forall i :: 0 <= i < n ==> GetBit(s.byteCur, i) == Live(ops, i))
            && s.mark == |ops| && s.nextSeq == |ops| + 1 && s.used == Count(s.byteCur, n)
  {
    FreshInv(n);
    RunInv(Fresh(n), acts);
    LogIsDurable(Fresh(n), acts);
    assert Fresh(n).log + Durable(Fresh(n), acts) == Durable(Fresh(n), acts);
    RunSize(Fresh(n), acts);
    IdleBits(Run(Fresh(n), acts));
  }

  lemma {:induction false} RunSize(s: State, acts: seq<Action>)
    requires LegalRun(s, acts)
    ensures Run(s, acts).n == s.n
    decreases |acts|
  {
    if acts != [] {
      RunSize(Do(s, acts[0]), acts[1..]);
    }
  }

  lemma IdleBits(s: State)
    requires Inv(s) && s.pc.Idle?
    ensures forall i :: 0 <= i < s.n ==> GetBit(s.byteCur, i) == Live(s.log, i)
  {
    CurFromDisk(s);
    forall i | 0 <= i < s.n ensures GetBit(s.byteCur, i) == Live(s.log, i) {
      assert Right(s.log, s.mark, i, s.byteCur[i / 8]);
      NotTouchedEmpty(s.log, i);
    }
  }

  // ----- One interrupted operation -----

  predicate Quiet(acts: seq<Action>) {
    forall k :: 0 <= k < |acts| ==> !acts[k].Log? && !acts[k].Hook?
  }

  /** From any point inside an operation, through any number of crashes and crashed recoveries, to
      the next idle state: every earlier durable operation survives and the one in flight is
      there completely or not at all. */
  lemma AllOrNothing(s: State, acts: seq<Action>)
    requires Inv(s) && LegalRun(s, acts) && Quiet(acts) && Run(s, acts).pc.Idle?
    ensures var t := Run(s, acts);
            && (t.log == s.log || (InFlight(s) && t.log == s.log + [s.pc.op]))
            && (forall i :: 0 <= i < t.n ==> GetBit(t.byteCur, i) == Live(t.log, i))
  {
    QuietLog(s, acts);
    RunInv(s, acts);
    IdleBits(Run(s, acts));
  }

  lemma {:induction false} QuietLog(s: State, acts: seq<Action>)
    requires LegalRun(s, acts) && Quiet(acts)
    ensures var t := Run(s, acts); t.log == s.log || (InFlight(s) && t.log == s.log + [s.pc.op])
    ensures !InFlight(s) ==> !InFlight(Run(s, acts))
    decreases |acts|
  {
    if acts != [] {
      QuietLog(Do(s, acts[0]), acts[1..]);
    }
  }

  /** Two idle states with the same durable history agree on the bitmap, the watermark, the next sequence
      number and the used count. */
  lemma HistoryDecides(s: State, t: State)
    requires Inv(s) && Inv(t) && s.pc.Idle? && t.pc.Idle? && s.n == t.n && s.log == t.log
    ensures forall i :: 0 <= i < s.n ==> GetBit(s.byteCur, i) == GetBit(t.byteCur, i)
    ensures s.mark == t.mark && s.nextSeq == t.nextSeq && s.used == t.used
  {
    IdleBits(s);
    IdleBits(t);
    CountSame(s.byteCur, t.byteCur, s.n);
  }

  /** Recovery is re-entrant: from one crashed pool, however often and wherever recovery is cut short on either
      way, it ends with the same bitmap, watermark, next sequence number and used count. */
  lemma RecoveryUnique(s: State, one: seq<Action>, two: seq<Action>)
    requires Inv(s) && s.pc.Down?
    requires LegalRun(s, one) && Quiet(one) && Run(s, one).pc.Idle?
    requires LegalRun(s, two) && Quiet(two) && Run(s, two).pc.Idle?
    ensures var t, u := Run(s, one), Run(s, two);
            && (forall i :: 0 <= i < s.n ==> GetBit(t.byteCur, i) == GetBit(u.byteCur, i))
            && t.log == u.log == s.log && t.mark == u.mark && t.nextSeq == u.nextSeq && t.used == u.used
  {
    RunInv(s, one);
    RunInv(s, two);
    RunSize(s, one);
    RunSize(s, two);
    QuietLog(s, one);
    QuietLog(s, two);
    hide Inv, LegalRun, Run;
    HistoryDecides(Run(s, one), Run(s, two));
  }

  /** Dual-slot safety: at every crash point of every run, torn slot writes included, the scan over
      the two slots finds a valid one and it holds the true watermark; everything at or below that
      watermark is in the bitmap, everything above it is still in the log ring. */
  lemma WatermarkTrue(n: nat, acts: seq<Action>, w: seq<Record>, b: seq<nat>, m: seq<Meta>)
    requires n > 0 && LegalRun(Fresh(n), acts) && Enabled(Run(Fresh(n), acts), Crash(w, b, m))
    ensures var s := Do(Run(Fresh(n), acts), Crash(w, b, m));
            && m[PickMeta(m)] .Mark? && m[PickMeta(m)].seqNo == s.mark && s.mark <= |s.log| <= s.mark + RING
            && (forall q :: s.mark < q <= |s.log| ==> w[q % RING] == Rec(q, s.log[q - 1]))
            && (forall i :: 0 <= i < n && !Touched(s.log[s.mark..], i) ==> GetBit(b, i) == Live(s.log[..s.mark], i))
  {
    FreshInv(n);
    RunInv(Fresh(n), acts);
    RunSize(Fresh(n), acts);
    var p := Run(Fresh(n), acts);
    CrashInv(p, w, b, m);
    var s := Do(p, Crash(w, b, m));
    PickIsMark(s);
    forall q | s.mark < q <= |s.log| ensures w[q % RING] == Rec(q, s.log[q - 1]) {
      assert w[q % RING] in s.walDisk[q % RING];
    }
    forall i | 0 <= i < n && !Touched(s.log[s.mark..], i) ensures GetBit(b, i) == Live(s.log[..s.mark], i) {
      assert b[i / 8] in s.byteDisk[i / 8];
      assert Right(s.log, s.mark, i, b[i / 8]);
      LiveUntouched(s.log, s.mark, i);
    }
  }

  /** Ring safety: in every run, the record an append overwrites is blank or already covered by the watermark. */
  lemma AppendOverwritesCovered(n: nat, acts: seq<Action>, op: Op, v: Record)
    requires n > 0 && LegalRun(Fresh(n), acts)
    requires var s := Run(Fresh(n), acts);
             (Enabled(s, Log(op)) || Enabled(s, Hook(op))) && v in s.walDisk[s.nextSeq % RING]
    ensures v.Blank? || v.seqNo <= Run(Fresh(n), acts).mark
  {
    FreshInv(n);
    RunInv(Fresh(n), acts);
    OverwriteSafe(Run(Fresh(n), acts), v);
  }
}
