/** Every step of the C++ pool protocol keeps the invariant. */
module CppSteps {
  import opened Powers
  import opened PoolBits
  import opened SortedReplay
  import opened CppMachine

  lemma FreshInv(n: nat, cap: nat)
    requires n > 0 && cap >= 2
    ensures Inv(Fresh(n, cap))
  {
    var s := Fresh(n, cap);
    forall i, v | 0 <= i < n && v in s.byteDisk[i / 8] ensures Right(s.log, 0, i, v) {
      ZeroBits(i % 8);
    }
  }

  /** Distinct sequence numbers less than a lap apart have distinct ring slots. */
  lemma LapApart(p: nat, q: nat, cap: nat)
    requires cap > 0 && p < q < p + cap
    ensures p % cap != q % cap
  {
    var d := q / cap - p / cap;
    assert q - p == d * cap + (q % cap - p % cap) by {
      assert q == (q / cap) * cap + q % cap && p == (p / cap) * cap + p % cap;
    }
    MulAtLeast(d, cap);
  }

  lemma LapBack(q: nat, cap: nat)
    requires 0 < cap <= q
    ensures (q - cap) % cap == q % cap
  {
    var p := q - cap;
    var d := q / cap - p / cap - 1;
    assert q % cap - p % cap == -(d * cap) by {
      assert q == (q / cap) * cap + q % cap && p == (p / cap) * cap + p % cap;
    }
    MulAtLeast(d, cap);
  }

  // ----- The log -----

  lemma LogWal(s: State, op: Op)
    requires Inv(s) && Enabled(s, Log(op))
    ensures WalInv(Do(s, Log(op)))
  {
    hide SlotInv, DiskRight, AllRight, LoadSeq;
    var r, k, e := Do(s, Log(op)), s.nextSeq % s.cap, Rec(s.nextSeq, Cut(op));
    forall q | r.lo < q <= |r.log| && !Overwritten(r, q) ensures r.walDisk[q % r.cap] == {Rec(q, Cut(r.log[q - 1]))} {
      assert !Overwritten(s, q);
      LapApart(q, s.nextSeq, s.cap);
    }
    forall j, v | 0 <= j < r.cap && v in r.walDisk[j] ensures RecordOk(r, j, v) {
      if v in s.walDisk[j] {
        assert RecordOk(s, j, v);
      }
    }
  }

  lemma LogInv(s: State, op: Op)
    requires Inv(s) && Enabled(s, Log(op))
    ensures Inv(Do(s, Log(op)))
  {
    LogWal(s, op);
    hide WalInv, DiskRight, AllRight, LoadSeq;
  }

  lemma SyncWalWal(s: State)
    requires Inv(s) && Enabled(s, SyncWal)
    ensures WalInv(Do(s, SyncWal))
  {
    hide SlotInv, DiskRight, AllRight, LoadSeq;
    var r, n := Do(s, SyncWal), |s.log| + 1;
    var k := n % s.cap;
    assert s.walCur[k] == Rec(n, Cut(s.pc.op));
    forall q | r.lo < q <= |r.log| ensures r.walDisk[q % r.cap] == {Rec(q, Cut(r.log[q - 1]))} {
      if q < n {
        assert !Overwritten(s, q);
        LapApart(q, n, s.cap);
      }
    }
    forall j, v | 0 <= j < r.cap && v in r.walDisk[j] ensures RecordOk(r, j, v) {
      if j != k {
        assert RecordOk(s, j, v);
        if v.Rec? && v.seqNo + s.cap == n {
          LapBack(n, s.cap);
        }
      }
    }
  }

  lemma SyncWalInv(s: State)
    requires Inv(s) && Enabled(s, SyncWal)
    ensures Inv(Do(s, SyncWal))
  {
    SyncWalWal(s);
    var r := Do(s, SyncWal);
    if s.intact {
      GrowDisk(s.log, r.log, s.from, s.n, s.byteDisk);
    }
    hide WalInv, DiskRight, AllRight, LoadSeq;
  }

  /** Records do not depend on bitmap, slots or program counter outside logging. */
  lemma SameWal(s: State, r: State)
    requires Sized(s) && Sized(r) && s.cap == r.cap && s.n == r.n && s.walCur == r.walCur && s.walDisk == r.walDisk
    requires s.log == r.log && s.lo == r.lo && !s.pc.Logging? && !r.pc.Logging? && WalInv(s)
    ensures WalInv(r)
  {
    forall q | r.lo < q <= |r.log| ensures r.walDisk[q % r.cap] == {Rec(q, Cut(r.log[q - 1]))} {
      assert !Overwritten(s, q);
    }
    forall j, v | 0 <= j < r.cap && v in r.walDisk[j] ensures RecordOk(r, j, v) {
      assert RecordOk(s, j, v);
    }
  }

  // ----- The bitmap -----

  lemma CurRight(s: State)
    requires Sized(s) && BitsInv(s) && s.intact
    ensures AllRight(s.log, s.from, s.n, s.byteCur)
  {
  }

  lemma ApplyInv(s: State)
    requires Inv(s) && Enabled(s, Apply)
    ensures Inv(Do(s, Apply))
  {
    var r := Do(s, Apply);
    SameWal(s, r);
    hide WalInv, DiskRight, AllRight, LoadSeq, PutBit;
    PutElsewhere(s.byteCur, s.pc.op);
    if s.intact {
      CurRight(s);
      ReplayAllRight(s.log, s.from, s.n, s.byteCur);
      StoreRight(s.log, s.from, s.from, s.n, s.byteCur, s.byteDisk);
    }
  }

  lemma SyncByteInv(s: State)
    requires Inv(s) && Enabled(s, SyncByte)
    ensures Inv(Do(s, SyncByte))
  {
    var r := Do(s, SyncByte);
    assert r.byteDisk == Singles(r.byteCur);
    SameWal(s, r);
    hide WalInv, DiskRight, AllRight, LoadSeq;
    if s.intact {
      SyncedRight(s.log, |s.log|, s.n, s.byteCur);
    }
  }

  lemma SyncAllInv(s: State)
    requires Inv(s) && Enabled(s, SyncAll)
    ensures Inv(Do(s, SyncAll))
  {
    var r := Do(s, SyncAll);
    SameWal(s, r);
    hide WalInv, DiskRight, AllRight, LoadSeq;
    if s.intact {
      SyncedRight(s.log, |s.log|, s.n, s.byteCur);
    }
  }

  // ----- The slots -----

  lemma StoreSlotInv(s: State)
    requires Inv(s) && Enabled(s, StoreSlot)
    ensures Inv(Do(s, StoreSlot))
  {
    var r := Do(s, StoreSlot);
    SameWal(s, r);
    hide WalInv, DiskRight, AllRight, LoadSeq;
  }

  lemma SyncSlotInv(s: State)
    requires Inv(s) && Enabled(s, SyncSlot)
    ensures Inv(Do(s, SyncSlot))
  {
    var r := Do(s, SyncSlot);
    SameWal(s, r);
    assert LoadSeq(r.slotCur) == |r.log|;
    hide WalInv, DiskRight, AllRight, LoadSeq;
  }

  lemma ReopenInv(s: State)
    requires Inv(s) && Enabled(s, Reopen)
    ensures Do(s, Reopen) == s
  {
    hide WalInv, DiskRight, AllRight, LoadSeq;
  }

  // ----- Recovery -----

  lemma RingHolds(s: State)
    requires Sized(s) && WalInv(s) && !s.pc.Logging? && s.walDisk == Singles(s.walCur)
    ensures HoldsSuffix(s.walCur, Cuts(s.log), s.lo)
  {
    forall j | 0 <= j < s.cap && s.walCur[j].Rec?
      ensures s.lo < s.walCur[j].seqNo <= |s.log| && s.walCur[j].seqNo % s.cap == j
      ensures s.walCur[j].op == Cut(s.log[s.walCur[j].seqNo - 1])
    {
      assert RecordOk(s, j, s.walCur[j]);
    }
    forall q | s.lo < q <= |s.log| ensures s.walCur[q % s.cap] == Rec(q, Cut(s.log[q - 1])) {
      assert !Overwritten(s, q);
      assert s.walCur[q % s.cap] in s.walDisk[q % s.cap];
    }
  }

  lemma LoadBound(s: State)
    requires Sized(s) && SlotInv(s)
    ensures LoadSeq(s.slotCur) <= |s.log|
  {
    assert s.slotCur[0] in s.slotDisk[0] && s.slotCur[1] in s.slotDisk[1];
  }

  lemma IndicesBound(s: State)
    requires Sized(s) && WalInv(s)
    ensures forall k :: 0 <= k < |s.log| ==> s.log[k].index < s.n
  {
  }

  lemma OpenInv(s: State, p: seq<Record>)
    requires Inv(s) && Enabled(s, Open(p))
    ensures Inv(Do(s, Open(p)))
  {
    hide WalInv, DiskRight, AllRight, LoadSeq, HoldsSuffix, SeqSorted, Collected, Narrow, Cut, Cuts, Expected;
    var r := Do(s, Open(p));
    SameWal(s, r);
    RingHolds(s);
    LoadBound(s);
    if s.intact {
      CurRight(s);
    }
    IndicesBound(s);
    PendingInOrder(s.walCur, Cuts(s.log), s.lo, LoadSeq(s.slotCur), s.n, p);
  }

  lemma ReplayInv(s: State)
    requires Inv(s) && Enabled(s, Replay)
    ensures Inv(Do(s, Replay))
  {
    var r, k := Do(s, Replay), s.from + s.pc.done;
    var op := s.pc.pending[s.pc.done].op;
    assert op == Cut(s.log[k]);
    SameWal(s, r);
    hide WalInv, DiskRight, AllRight, LoadSeq, PutBit;
    PutElsewhere(s.byteCur, op);
    if s.intact {
      assert op == s.log[k];
      ReplayAllRight(s.log, k, s.n, s.byteCur);
      StoreRight(s.log, s.from, k, s.n, s.byteCur, s.byteDisk);
    }
  }

  lemma FinishInv(s: State)
    requires Inv(s) && Enabled(s, Finish)
    ensures Inv(Do(s, Finish))
  {
    hide WalInv, DiskRight, AllRight, LoadSeq, Narrow, Cut, Cuts;
    var r := Do(s, Finish);
    SameWal(s, r);
    if s.pc.pending == [] {
      NothingPending(s);
    }
  }

  /** With nothing to replay, the watermark found is the latest. */
  lemma NothingPending(s: State)
    requires Inv(s) && s.pc.Replaying? && s.pc.pending == []
    ensures s.from == |s.log| == LoadSeq(s.slotCur)
  {
    LoadBound(s);
    hide DiskRight, AllRight, LoadSeq;
  }

  // ----- Crashes -----

  lemma CrashPending(s: State, w: seq<Record>, b: seq<nat>, m: seq<Slot>, q: nat)
    requires Inv(s) && IsImage(w, s.walDisk) && |m| == 2 && |b| == |s.byteCur|
    requires Fall(s, w, b, m).lo < q <= |Fall(s, w, b, m).log|
    ensures w[q % s.cap] == Rec(q, Cut(Fall(s, w, b, m).log[q - 1]))
  {
    hide SlotInv, DiskRight, AllRight, LoadSeq, BitsInv;
    assert w[q % s.cap] in s.walDisk[q % s.cap];
    if q <= |s.log| && Overwritten(s, q) {
      LapBack(|s.log| + 1, s.cap);
      assert RecordOk(s, q % s.cap, w[q % s.cap]);
    }
  }

  lemma CrashRecord(s: State, w: seq<Record>, b: seq<nat>, m: seq<Slot>, j: nat)
    requires Inv(s) && IsImage(w, s.walDisk) && |m| == 2 && |b| == |s.byteCur| && j < s.cap
    ensures RecordOk(Fall(s, w, b, m), j, w[j])
  {
    hide SlotInv, DiskRight, AllRight, LoadSeq, BitsInv;
    var v := w[j];
    assert v in s.walDisk[j] && RecordOk(s, j, v);
    if v.Rec? && s.pc.Logging? && v.seqNo + s.cap <= |s.log| + 1 && v.seqNo > s.lo {
      LapBack(|s.log| + 1, s.cap);
    }
  }

  lemma CrashWal(s: State, w: seq<Record>, b: seq<nat>, m: seq<Slot>)
    requires Inv(s) && IsImage(w, s.walDisk) && |m| == 2 && |b| == |s.byteCur|
    ensures WalInv(Fall(s, w, b, m))
  {
    hide SlotInv, DiskRight, AllRight, LoadSeq, BitsInv, RecordOk;
    var r := Fall(s, w, b, m);
    forall q | r.lo < q <= |r.log| ensures r.walDisk[q % r.cap] == {Rec(q, Cut(r.log[q - 1]))} {
      CrashPending(s, w, b, m, q);
    }
    forall j, v | 0 <= j < r.cap && v in r.walDisk[j] ensures RecordOk(r, j, v) {
      CrashRecord(s, w, b, m, j);
    }
  }

  lemma CrashSlots(s: State, w: seq<Record>, b: seq<nat>, m: seq<Slot>)
    requires Inv(s) && IsImage(w, s.walDisk) && IsImage(m, s.slotDisk) && |b| == |s.byteCur|
    ensures SlotInv(Fall(s, w, b, m))
    ensures Fall(s, w, b, m).from <= s.from
    ensures !Running(s) ==> Fall(s, w, b, m).from == s.from
  {
    hide DiskRight, AllRight;
    var r := Fall(s, w, b, m);
    assert m[0] in s.slotDisk[0] && m[1] in s.slotDisk[1];
    if !Running(s) {
      assert m == s.slotCur;
    }
  }

  lemma CrashInv(s: State, w: seq<Record>, b: seq<nat>, m: seq<Slot>)
    requires Inv(s) && Enabled(s, Crash(w, b, m))
    ensures Inv(Do(s, Crash(w, b, m)))
  {
    CrashWal(s, w, b, m);
    CrashSlots(s, w, b, m);
    var r := Fall(s, w, b, m);
    assert r.log == s.log || (|r.log| == |s.log| + 1 && r.log[..|s.log|] == s.log);
    hide WalInv, SlotInv, DiskRight, AllRight, LoadSeq;
    if s.intact {
      ImageRight(s.log, s.from, r.from, s.n, s.byteDisk, b);
      if r.log != s.log {
        GrowDisk(s.log, r.log, r.from, s.n, r.byteDisk);
      }
    }
  }

  /** Every step keeps the invariant. */
  lemma StepInv(s: State, a: Action)
    requires Inv(s) && Enabled(s, a)
    ensures Inv(Do(s, a))
  {
    hide Inv, Do;
    match a {
      case Log(op) => LogInv(s, op);
      case SyncWal => SyncWalInv(s);
      case Apply => ApplyInv(s);
      case SyncByte => SyncByteInv(s);
      case StoreSlot => StoreSlotInv(s);
      case SyncSlot => SyncSlotInv(s);
      case Crash(w, b, m) => CrashInv(s, w, b, m);
      case Reopen => ReopenInv(s);
      case Open(p) => OpenInv(s, p);
      case Replay => ReplayInv(s);
      case Finish => FinishInv(s);
      case SyncAll => SyncAllInv(s);
    }
  }
}
