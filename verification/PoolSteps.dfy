/** Every step of the pool protocol keeps the invariant, crashes included. */
module PoolSteps {
  import opened Powers
  import opened PoolBits
  import opened PoolMachine

  lemma FreshInv(n: nat)
    requires n > 0
    ensures Inv(Fresh(n))
  {
    var s := Fresh(n);
    assert s.metaDisk[0] == {Mark(0, 0)};
    forall i, v | 0 <= i < n && v in s.byteDisk[i / 8] ensures Right(s.log, 0, i, v) {
      ZeroBits(i % 8);
    }
    ZeroCount(s.byteCur, n);
  }

  lemma {:induction false} ZeroCount(bytes: seq<nat>, n: nat)
    requires forall k :: 0 <= k < |bytes| ==> bytes[k] == 0
    ensures Count(bytes, n) == 0
  {
    if n > 0 {
      ZeroCount(bytes, n - 1);
      ZeroBits((n - 1) % 8);
    }
  }

  /** Distinct sequence numbers less than a lap apart have distinct ring slots. */
  lemma SlotApart(p: nat, q: nat)
    requires p < q < p + RING
    ensures p % RING != q % RING
  {
  }

  // ----- Writing a record -----

  lemma StoreWal(s: State, op: Op, r: State)
    requires Inv(s) && !InFlight(s) && InFlight(r) && r.pc.op == op && op.index < s.n
    requires s.nextSeq == |s.log| + 1 && |s.log| < s.mark + RING
    requires r == StoreRecord(s, op).(pc := r.pc)
    ensures WalInv(r)
  {
    var k, e := s.nextSeq % RING, Rec(s.nextSeq, op);
    forall q | r.mark < q <= |r.log| ensures r.walDisk[q % RING] == {Rec(q, r.log[q - 1])} {
      SlotApart(q, s.nextSeq);
    }
    forall j, v | 0 <= j < RING && v in r.walDisk[j] ensures RecordOk(r, j, v) {
      assert v != e && v != Blank ==> v in s.walDisk[j] && RecordOk(s, j, v);
    }
  }

  /** The record an append overwrites can only be blank or at or below the watermark. */
  lemma OverwriteSafe(s: State, v: Record)
    requires Inv(s) && s.nextSeq == |s.log| + 1 && !InFlight(s) && |s.log| < s.mark + RING
    requires v in s.walDisk[s.nextSeq % RING]
    ensures v.Blank? || v.seqNo <= s.mark
  {
    assert RecordOk(s, s.nextSeq % RING, v);
    if v.Rec? && v.seqNo > s.mark {
      SlotApart(v.seqNo, s.nextSeq);
    }
  }

  lemma LogInv(s: State, op: Op)
    requires Inv(s) && Enabled(s, Log(op))
    ensures Inv(Do(s, Log(op)))
  {
    var r := Do(s, Log(op));
    StoreWal(s, op, r);
    SameBits(s, r);
  }

  lemma HookInv(s: State, op: Op)
    requires Inv(s) && Enabled(s, Hook(op))
    ensures Inv(Do(s, Hook(op)))
  {
    var r := Do(s, Hook(op));
    StoreWal(s, op, r);
    SameBits(s, r);
  }

  /** Bitmap facts depend only on the bitmap and the log. */
  lemma SameBits(s: State, r: State)
    requires Sized(s) && Sized(r) && s.n == r.n && s.byteCur == r.byteCur && s.byteDisk == r.byteDisk
    requires s.log == r.log && s.mark == r.mark && s.mark <= |s.log| && BitsInv(s)
    ensures BitsInv(r) && (Synced(s) ==> Synced(r))
    ensures forall f :: 0 <= f <= |s.log| && CurOk(s, f) ==> CurOk(r, f)
  {
    forall i, v | 0 <= i < r.n && v in r.byteDisk[i / 8] ensures Right(r.log, r.mark, i, v) {
      assert Right(s.log, s.mark, i, v);
    }
    forall f | 0 <= f <= |s.log| && CurOk(s, f) ensures CurOk(r, f) {
      forall i | 0 <= i < r.n ensures Right(r.log, f, i, r.byteCur[i / 8]) {
        assert Right(s.log, f, i, s.byteCur[i / 8]);
      }
    }
  }

  // ----- A record becomes durable -----

  lemma GrowBits(s: State, r: State)
    requires Sized(s) && Sized(r) && s.n == r.n && s.byteCur == r.byteCur && s.byteDisk == r.byteDisk
    requires |r.log| == |s.log| + 1 && r.log[..|s.log|] == s.log && s.mark == r.mark && s.mark <= |s.log| && BitsInv(s)
    ensures BitsInv(r)
  {
    forall i, v | 0 <= i < r.n && v in r.byteDisk[i / 8] ensures Right(r.log, r.mark, i, v) {
      assert Right(s.log, s.mark, i, v);
      GrowRight(s.log, r.log, s.mark, i, v);
    }
  }

  lemma SyncWalInv(s: State)
    requires Inv(s) && Enabled(s, SyncWal)
    ensures Inv(Do(s, SyncWal))
  {
    var r := Do(s, SyncWal);
    GrowBits(s, r);
    SyncWalRecords(s);
    hide WalInv, BitsInv, CurOk, Count;
  }

  lemma SyncWalRecords(s: State)
    requires Inv(s) && Enabled(s, SyncWal)
    ensures WalInv(Do(s, SyncWal))
  {
    var r, k := Do(s, SyncWal), (|s.log| + 1) % RING;
    assert s.walCur[k] == Rec(|s.log| + 1, s.pc.op);
    hide BitsInv, MetaInv, CurOk, Synced, Count;
    forall q | r.mark < q <= |r.log| ensures r.walDisk[q % RING] == {Rec(q, r.log[q - 1])} {
      if q <= |s.log| {
        SlotApart(q, |s.log| + 1);
      }
    }
    forall j, v | 0 <= j < RING && v in r.walDisk[j] ensures RecordOk(r, j, v) {
      if j != k {
        assert RecordOk(s, j, v);
      }
    }
  }

  // ----- Applying an operation -----

  /** Replaying record `from` over any bitmap that is right off the remaining records makes it right off one fewer. */
  lemma ApplyCur(s: State, from: nat)
    requires Sized(s) && from < |s.log| && s.log[from].index < s.n && CurOk(s, from)
    ensures CurOk(ApplyOp(s, s.log[from]), from + 1)
  {
    var op := s.log[from];
    var r := ApplyOp(s, op);
    hide Live, Touched, PutBit, Count;
    forall i | 0 <= i < r.n ensures Right(r.log, from + 1, i, r.byteCur[i / 8]) {
      assert Right(s.log, from, i, s.byteCur[i / 8]);
      ReplayRight(s.log, from, s.byteCur, i);
    }
  }

  lemma ApplyDisk(s: State, k: nat)
    requires Sized(s) && s.mark <= k < |s.log| && s.log[k].index < s.n && BitsInv(s)
    ensures BitsInv(ApplyOp(s, s.log[k]))
  {
    var op := s.log[k];
    var r := ApplyOp(s, op);
    hide Live, Touched, PutBit, Count;
    forall i, v | 0 <= i < r.n && v in r.byteDisk[i / 8] ensures Right(r.log, r.mark, i, v) {
      PutBitBits(s.byteCur, op, i);
      TouchedFrom(s.log, s.mark, k);
      if v in s.byteDisk[i / 8] {
        assert Right(s.log, s.mark, i, v);
      } else {
        assert Right(s.log, s.mark, i, s.byteCur[i / 8]);
      }
    }
    assert r.byteCur == PutBit(s.byteCur, op);
    PutElsewhere(s.byteCur, op);
  }

  lemma CurFromDisk(s: State)
    requires Sized(s) && s.mark <= |s.log| && BitsInv(s)
    ensures CurOk(s, s.mark)
  {
    forall i | 0 <= i < s.n ensures Right(s.log, s.mark, i, s.byteCur[i / 8]) {
      assert s.byteCur[i / 8] in s.byteDisk[i / 8];
    }
  }

  /** Once the bitmap in memory is right and synced, it is right on disk. */
  lemma DiskFromCur(s: State)
    requires Sized(s) && s.mark <= |s.log| && Synced(s) && CurOk(s, |s.log|)
    ensures BitsInv(s) && BitsInv(s.(mark := |s.log|))
  {
    hide Live, Touched;
    forall i, v, m | 0 <= i < s.n && v in s.byteDisk[i / 8] && s.mark <= m <= |s.log| ensures Right(s.log, m, i, v) {
      assert Right(s.log, |s.log|, i, v);
      NotTouchedEmpty(s.log, i);
    }
    var r := s.(mark := |s.log|);
    forall i, v | 0 <= i < r.n && v in r.byteDisk[i / 8] ensures Right(r.log, r.mark, i, v) {
      assert Right(s.log, |s.log|, i, v);
    }
  }

  /** Facts about records and slots that a change of the bitmap does not disturb. */
  lemma SameRest(s: State, r: State)
    requires Sized(s) && Sized(r) && s.n == r.n && s.walCur == r.walCur && s.walDisk == r.walDisk && s.log == r.log
    requires s.mark == r.mark && s.home == r.home && s.metaCur == r.metaCur && s.metaDisk == r.metaDisk
    requires !InFlight(s) && !s.pc.Marking? && WalInv(s) && MetaInv(s) && (!r.pc.Down? ==> r.active == r.home)
    ensures WalInv(r) && MetaInv(r)
  {
    forall j, v | 0 <= j < RING && v in r.walDisk[j] ensures RecordOk(r, j, v) {
      assert RecordOk(s, j, v);
    }
  }

  lemma ApplyInv(s: State)
    requires Inv(s) && Enabled(s, Apply)
    ensures Inv(Do(s, Apply))
  {
    var r := Do(s, Apply);
    var op := s.pc.op;
    var t := ApplyOp(s, op);
    CurFromDisk(s);
    ApplyCur(s, s.mark);
    ApplyDisk(s, s.mark);
    SameBits(t, r);
    PutElsewhere(s.byteCur, op);
    SameRest(s, r);
    hide WalInv, MetaInv, BitsInv, CurOk, PutBit, Count;
  }

  lemma SyncByteInv(s: State)
    requires Inv(s) && Enabled(s, SyncByte)
    ensures Inv(Do(s, SyncByte))
  {
    var r := Do(s, SyncByte);
    assert Synced(r);
    assert CurOk(r, |r.log|) by {
      forall i | 0 <= i < r.n ensures Right(r.log, |r.log|, i, r.byteCur[i / 8]) {
        assert Right(s.log, |s.log|, i, s.byteCur[i / 8]);
      }
    }
    DiskFromCur(r);
    SameRest(s, r);
    hide WalInv, MetaInv, BitsInv, CurOk, Count;
  }

  lemma SyncAllInv(s: State)
    requires Inv(s) && Enabled(s, SyncAll)
    ensures Inv(Do(s, SyncAll))
  {
    var r := Do(s, SyncAll);
    assert Synced(r);
    assert CurOk(r, |r.log|) by {
      forall i | 0 <= i < r.n ensures Right(r.log, |r.log|, i, r.byteCur[i / 8]) {
        assert Right(s.log, |s.log|, i, s.byteCur[i / 8]);
      }
    }
    DiskFromCur(r);
    SameRest(s, r);
    hide WalInv, MetaInv, BitsInv, CurOk, Count;
  }

  // ----- The watermark -----

  lemma StoreMetaInv(s: State)
    requires Inv(s) && Enabled(s, StoreMeta)
    ensures Inv(Do(s, StoreMeta))
  {
    var r := Do(s, StoreMeta);
    assert MetaInv(r);
    assert WalInv(r) by {
      forall j, v | 0 <= j < RING && v in r.walDisk[j] ensures RecordOk(r, j, v) {
        assert RecordOk(s, j, v);
      }
    }
    SameBits(s, r);
    hide WalInv, MetaInv, BitsInv, CurOk, Count;
  }

  lemma SyncMetaInv(s: State)
    requires Inv(s) && Enabled(s, SyncMeta)
    ensures Inv(Do(s, SyncMeta))
  {
    var r := Do(s, SyncMeta);
    assert r.metaDisk[r.home] == {Mark(r.mark, s.used)};
    assert MetaInv(r);
    DiskFromCur(s);
    var t := s.(mark := |s.log|);
    SameBits(t, r);
    assert WalInv(r) by {
      forall j, v | 0 <= j < RING && v in r.walDisk[j] ensures RecordOk(r, j, v) {
        assert RecordOk(s, j, v);
      }
    }
    hide WalInv, MetaInv, BitsInv, CurOk, Count;
  }

  // ----- Recovery -----

  /** The slot recovery picks holds the true watermark. */
  lemma PickIsMark(s: State)
    requires Sized(s) && MetaInv(s) && (s.pc.Down? || s.pc.Replaying?)
    ensures PickMeta(s.metaCur) == s.home && PickSeq(s.metaCur) == s.mark && s.metaCur[s.home].Mark?
  {
  }

  lemma OpenInv(s: State)
    requires Inv(s) && Enabled(s, Open)
    ensures Inv(Do(s, Open))
  {
    var r := Do(s, Open);
    PickIsMark(s);
    SameBits(s, r);
    CurFromDisk(r);
    SameRest(s, r);
    hide WalInv, MetaInv, BitsInv, CurOk, Count;
  }

  /** Slot q of the ring holds record q exactly when operation q is in the log. */
  lemma ReplayReads(s: State, q: nat)
    requires Sized(s) && WalInv(s) && !InFlight(s) && s.walDisk == Singles(s.walCur) && s.mark < q <= s.mark + RING
    ensures var e := s.walCur[q % RING];
            && (e.Rec? && e.seqNo == q <==> q <= |s.log|)
            && (e.Rec? ==> e.op.index < s.n)
            && (q <= |s.log| ==> e == Rec(q, s.log[q - 1]))
  {
    var e := s.walCur[q % RING];
    assert e in s.walDisk[q % RING];
    assert RecordOk(s, q % RING, e);
  }

  lemma ReplayStep(s: State)
    requires Inv(s) && Enabled(s, Replay) && s.pc.next <= |s.log| && PickSeq(s.metaCur) == s.mark
    ensures s.pc.top == s.pc.next - 1 && s.log[s.pc.top].index < s.n && s.active == s.home
    ensures Do(s, Replay) == ApplyOp(s, s.log[s.pc.top]).(pc := Replaying(s.pc.next + 1, s.pc.next))
  {
    hide BitsInv, CurOk, Synced, Count, PutBit;
    ReplayReads(s, s.pc.next);
  }

  lemma ReplayHit(s: State)
    requires Inv(s) && Enabled(s, Replay) && s.pc.next <= |s.log| && PickSeq(s.metaCur) == s.mark
    ensures Inv(Do(s, Replay))
  {
    hide WalInv, MetaInv, BitsInv, CurOk, Count, PutBit, Do, Synced;
    ReplayStep(s);
    var r, k := Do(s, Replay), s.pc.top;
    ApplyCur(s, k);
    ApplyDisk(s, k);
    SameBits(ApplyOp(s, s.log[k]), r);
    SameRest(s, r);
  }

  lemma ReplayMiss(s: State)
    requires Inv(s) && Enabled(s, Replay) && s.pc.next > |s.log| && PickSeq(s.metaCur) == s.mark
    ensures Inv(Do(s, Replay))
  {
    var r := Do(s, Replay);
    ReplayReads(s, s.pc.next);
    hide WalInv, MetaInv, BitsInv, CurOk, Count;
    SameBits(s, r);
    SameRest(s, r);
  }

  lemma ReplayInv(s: State)
    requires Inv(s) && Enabled(s, Replay)
    ensures Inv(Do(s, Replay))
  {
    PickIsMark(s);
    hide Inv, Enabled, Do;
    if s.pc.next <= |s.log| {
      ReplayHit(s);
    } else {
      ReplayMiss(s);
    }
  }

  lemma FinishInv(s: State)
    requires Inv(s) && Enabled(s, Finish)
    ensures Inv(Do(s, Finish))
  {
    var r := Do(s, Finish);
    PickIsMark(s);
    SameBits(s, r);
    SameRest(s, r);
    hide WalInv, MetaInv, BitsInv, CurOk, Count;
  }

  // ----- Crashes -----

  lemma CrashWal(s: State, w: seq<Record>, b: seq<nat>, m: seq<Meta>)
    requires Inv(s) && IsImage(w, s.walDisk) && |m| == 2 && |b| == |s.byteCur|
    ensures WalInv(Fall(s, w, b, m))
  {
    var r := Fall(s, w, b, m);
    hide BitsInv, MetaInv, CurOk, Synced, Count;
    forall q | r.mark < q <= |r.log| ensures r.walDisk[q % RING] == {Rec(q, r.log[q - 1])} {
      if q <= |s.log| {
        assert w[q % RING] in s.walDisk[q % RING];
      }
    }
    forall j, v | 0 <= j < RING && v in r.walDisk[j] ensures RecordOk(r, j, v) {
      assert v == w[j] && RecordOk(s, j, v);
    }
  }

  /** At every crash point at least one slot is valid, whatever a torn write left in the other. */
  lemma CrashMeta(s: State, w: seq<Record>, b: seq<nat>, m: seq<Meta>)
    requires Inv(s) && IsImage(m, s.metaDisk) && |w| == RING && |b| == |s.byteCur|
    ensures MetaInv(Fall(s, w, b, m))
  {
    var r := Fall(s, w, b, m);
    hide BitsInv, WalInv, CurOk, Synced, Count;
    assert m[0] in s.metaDisk[0] && m[1] in s.metaDisk[1];
    assert m[r.home].Mark? && m[r.home].seqNo == r.mark;
    assert r.metaDisk[r.home] == {Mark(r.mark, m[r.home].used)};
  }

  lemma CrashBits(s: State, w: seq<Record>, b: seq<nat>, m: seq<Meta>)
    requires Inv(s) && IsImage(b, s.byteDisk) && |w| == RING && |m| == 2
    ensures BitsInv(Fall(s, w, b, m))
  {
    var r := Fall(s, w, b, m);
    assert |r.log| == |s.log| || (|r.log| == |s.log| + 1 && r.log[..|s.log|] == s.log);
    hide WalInv, MetaInv, Live, Touched, Count;
    forall i, v | 0 <= i < r.n && v in r.byteDisk[i / 8] ensures Right(r.log, r.mark, i, v) {
      assert v == b[i / 8] && v in s.byteDisk[i / 8];
      if r.mark != s.mark {
        assert Right(s.log, |s.log|, i, v);
      } else if |r.log| == |s.log| {
        assert Right(s.log, s.mark, i, v);
      } else {
        assert Right(s.log, s.mark, i, v);
        GrowRight(s.log, r.log, s.mark, i, v);
      }
    }
  }

  lemma CrashInv(s: State, w: seq<Record>, b: seq<nat>, m: seq<Meta>)
    requires Inv(s) && Enabled(s, Crash(w, b, m))
    ensures Inv(Do(s, Crash(w, b, m)))
  {
    CrashWal(s, w, b, m);
    CrashMeta(s, w, b, m);
    CrashBits(s, w, b, m);
    hide WalInv, MetaInv, BitsInv;
  }

  /** Every step keeps the invariant. */
  lemma StepInv(s: State, a: Action)
    requires Inv(s) && Enabled(s, a)
    ensures Inv(Do(s, a))
  {
    hide Inv, Do;
    match a {
      case Log(op) => LogInv(s, op);
      case Hook(op) => HookInv(s, op);
      case SyncWal => SyncWalInv(s);
      case Apply => ApplyInv(s);
      case SyncByte => SyncByteInv(s);
      case StoreMeta => StoreMetaInv(s);
      case SyncMeta => SyncMetaInv(s);
      case Crash(w, b, m) => CrashInv(s, w, b, m);
      case Open => OpenInv(s);
      case Replay => ReplayInv(s);
      case Finish => FinishInv(s);
      case SyncAll => SyncAllInv(s);
    }
  }
}
