/** The crash protocol of the C persistent pool as a state machine. Every durable location has its
    value in memory and the set of values a crash may leave on disk. A store adds the new value
    (and, for multi-word records, a torn one) to that set; a sync leaves only the value in memory. */
module PoolMachine {
  import opened PoolBits

  const RING: nat := 256

  /** A watermark slot; Torn fails its checksum. */
  datatype Meta = Torn | Mark(seqNo: nat, used: nat)

  datatype Pc =
    | Idle
    | Logging(op: Op)      // record stored
    | Logged(op: Op)       // record synced
    | Applied(op: Op)      // bit stored
    | Flushed              // bitmap synced, watermark due
    | Marking              // watermark slot stored
    | HookLogging(op: Op)  // the log-only test hook: record stored
    | Hooked               // log-only records wait for a crash
    | Down                 // crashed
    | Replaying(next: nat, top: nat)
    | Replayed             // all pending records applied in memory

  datatype State = State(
    n: nat,
    walCur: seq<Record>, walDisk: seq<set<Record>>,
    byteCur: seq<nat>, byteDisk: seq<set<nat>>,
    metaCur: seq<Meta>, metaDisk: seq<set<Meta>>,
    nextSeq: nat, active: nat, used: nat,
    pc: Pc,
    log: seq<Op>,   // operations whose record is durable, in order
    mark: nat,      // how many of them the durable watermark covers
    home: nat)      // the slot holding that watermark

  datatype Action =
    | Log(op: Op)
    | Hook(op: Op)
    | SyncWal
    | Apply
    | SyncByte
    | StoreMeta
    | SyncMeta
    | Crash(wal: seq<Record>, bytes: seq<nat>, meta: seq<Meta>)
    | Open
    | Replay
    | Finish
    | SyncAll

  // ----- Steps -----

  /** The scan over the two slots: a valid one with the larger sequence number, the second on a tie. */
  function PickMeta(meta: seq<Meta>): (best: nat)
    requires |meta| == 2
    ensures best < 2
  {
    if meta[1].Mark? && (meta[0].Torn? || meta[1].seqNo >= meta[0].seqNo) then 1 else 0
  }

  function PickSeq(meta: seq<Meta>): (q: nat)
    requires |meta| == 2
  {
    var best := meta[PickMeta(meta)];
    if best.Mark? then best.seqNo else 0
  }

  predicate Sized(s: State) {
    && |s.walCur| == |s.walDisk| == RING
    && |s.byteCur| == |s.byteDisk| == (s.n + 7) / 8
    && |s.metaCur| == |s.metaDisk| == 2
    && s.active < 2 && s.home < 2
  }

  ghost predicate InFlight(s: State) {
    s.pc.Logging? || s.pc.HookLogging?
  }

  ghost predicate Enabled(s: State, a: Action) {
    && Sized(s)
    && match a
       case Log(op) => s.pc.Idle? && op.index < s.n
       case Hook(op) => (s.pc.Idle? || s.pc.Hooked?) && op.index < s.n && |s.log| < s.mark + RING
       case SyncWal => InFlight(s) && s.nextSeq > 0
       case Apply => s.pc.Logged? && s.pc.op.index < s.n
       case SyncByte => s.pc.Applied? && s.pc.op.index < s.n
       case StoreMeta => s.pc.Flushed? && s.nextSeq > 0
       case SyncMeta => s.pc.Marking?
       case Crash(w, b, m) => IsImage(w, s.walDisk) && IsImage(b, s.byteDisk) && IsImage(m, s.metaDisk)
       case Open => s.pc.Down?
       case Replay => s.pc.Replaying? && s.pc.next <= PickSeq(s.metaCur) + RING
                      && (var e := s.walCur[s.pc.next % RING]; e.Rec? ==> e.op.index < s.n)
       case Finish => s.pc.Replaying? && s.pc.next == PickSeq(s.metaCur) + RING + 1
       case SyncAll => s.pc.Replayed?
  }

  ghost function StoreRecord(s: State, op: Op): (r: State)
    requires Sized(s)
  {
    var k, e := s.nextSeq % RING, Rec(s.nextSeq, op);
    s.(walCur := s.walCur[k := e], walDisk := s.walDisk[k := s.walDisk[k] + {e, Blank}], nextSeq := s.nextSeq + 1)
  }

  ghost function ApplyOp(s: State, op: Op): (r: State)
    requires Sized(s) && op.index < s.n
  {
    var k := op.index / 8;
    var bytes := PutBit(s.byteCur, op);
    s.(byteCur := bytes, byteDisk := s.byteDisk[k := s.byteDisk[k] + {bytes[k]}], used := Count(bytes, s.n))
  }

  ghost function Fall(s: State, w: seq<Record>, b: seq<nat>, m: seq<Meta>): (r: State)
    requires Sized(s) && |w| == RING && |m| == 2
  {
    var logged := InFlight(s) && w[(|s.log| + 1) % RING] == Rec(|s.log| + 1, s.pc.op);
    var marked := s.pc.Marking? && m[1 - s.home].Mark? && m[1 - s.home].seqNo == |s.log|;
    s.(walCur := w, walDisk := Singles(w), byteCur := b, byteDisk := Singles(b), metaCur := m, metaDisk := Singles(m),
       nextSeq := 0, active := 0, used := 0, pc := Down,
       log := if logged then s.log + [s.pc.op] else s.log,
       mark := if marked then |s.log| else s.mark,
       home := if marked then 1 - s.home else s.home)
  }

  ghost function ReplayOne(s: State): (r: State)
    requires Enabled(s, Replay)
  {
    var q := s.pc.next;
    var e := s.walCur[q % RING];
    if e.Rec? && e.seqNo == q then ApplyOp(s, e.op).(pc := Replaying(q + 1, q))
    else s.(pc := Replaying(q + 1, s.pc.top))
  }

  ghost function Do(s: State, a: Action): (r: State)
    requires Enabled(s, a)
  {
    match a
    case Log(op) => StoreRecord(s, op).(pc := Logging(op))
    case Hook(op) => StoreRecord(s, op).(pc := HookLogging(op))
    case SyncWal =>
      var k := (s.nextSeq - 1) % RING;
      s.(walDisk := s.walDisk[k := {s.walCur[k]}], log := s.log + [s.pc.op],
         pc := if s.pc.Logging? then Logged(s.pc.op) else Hooked)
    case Apply => ApplyOp(s, s.pc.op).(pc := Applied(s.pc.op))
    case SyncByte =>
      var k := s.pc.op.index / 8;
      s.(byteDisk := s.byteDisk[k := {s.byteCur[k]}], pc := Flushed)
    case StoreMeta =>
      var k, m := 1 - s.active, Mark(s.nextSeq - 1, s.used);
      s.(metaCur := s.metaCur[k := m], metaDisk := s.metaDisk[k := s.metaDisk[k] + {m, Torn}], pc := Marking)
    case SyncMeta =>
      var k := 1 - s.active;
      s.(metaDisk := s.metaDisk[k := {s.metaCur[k]}], active := k, mark := |s.log|, home := k, pc := Idle)
    case Crash(w, b, m) => Fall(s, w, b, m)
    case Open =>
      var q := PickSeq(s.metaCur);
      s.(active := PickMeta(s.metaCur), used := Count(s.byteCur, s.n), pc := Replaying(q + 1, q))
    case Replay => ReplayOne(s)
    case Finish =>
      s.(nextSeq := s.pc.top + 1, pc := if s.pc.top == PickSeq(s.metaCur) then Idle else Replayed)
    case SyncAll => s.(byteDisk := Singles(s.byteCur), pc := Flushed)
  }

  /** A new pool: empty log, clear bitmap, slot 0 at watermark 0, slot 1 never written. */
  ghost function Fresh(n: nat): (s: State)
    requires n > 0
    ensures Sized(s)
  {
    var w: seq<Record> := seq(RING, _ => Blank);
    var b: seq<nat> := seq((n + 7) / 8, _ => 0);
    var m := [Mark(0, 0), Torn];
    State(n, w, Singles(w), b, Singles(b), m, Singles(m), 1, 0, 0, Idle, [], 0, 0)
  }

  // ----- The invariant -----

  /** Records: the pending ones are durable; any other readable value is at or below the watermark, or in flight. */
  ghost predicate RecordOk(s: State, j: nat, v: Record) {
    v.Rec? ==>
      && v.seqNo % RING == j && v.seqNo >= 1
      && (v.seqNo <= |s.log| ==> v.op == s.log[v.seqNo - 1])
      && (v.seqNo > |s.log| ==> InFlight(s) && v == Rec(|s.log| + 1, s.pc.op))
  }

  ghost predicate WalInv(s: State)
    requires Sized(s)
  {
    && s.mark <= |s.log| <= s.mark + RING
    && (forall q :: s.mark < q <= |s.log| ==> s.walDisk[q % RING] == {Rec(q, s.log[q - 1])})
    && (forall j, v :: 0 <= j < RING && v in s.walDisk[j] ==> RecordOk(s, j, v))
    && (forall j :: 0 <= j < RING ==> s.walCur[j] in s.walDisk[j])
    && (forall k :: 0 <= k < |s.log| ==> s.log[k].index < s.n)
  }

  /** Slots: one certainly holds the watermark; the other is torn, older, or the watermark being written. */
  ghost predicate MetaInv(s: State)
    requires Sized(s)
  {
    && (exists u: nat :: s.metaDisk[s.home] == {Mark(s.mark, u)})
    && s.metaCur[s.home] in s.metaDisk[s.home]
    && s.metaCur[1 - s.home] in s.metaDisk[1 - s.home]
    && (forall v :: v in s.metaDisk[1 - s.home] && v.Mark? ==>
          v.seqNo < s.mark || (s.pc.Marking? && v.seqNo == |s.log|))
    && (!s.pc.Down? ==> s.active == s.home)
  }

  /** Whatever value of each byte survives a crash, the blocks no pending record rewrites are right. */
  ghost predicate BitsInv(s: State)
    requires Sized(s) && s.mark <= |s.log|
  {
    && (forall i, v :: 0 <= i < s.n && v in s.byteDisk[i / 8] ==> Right(s.log, s.mark, i, v))
    && (forall k :: 0 <= k < |s.byteCur| ==> s.byteCur[k] in s.byteDisk[k])
  }

  ghost predicate Synced(s: State)
    requires Sized(s)
  {
    forall k :: 0 <= k < |s.byteCur| ==> s.byteDisk[k] == {s.byteCur[k]}
  }

  /** In memory, blocks not rewritten by records from `from` on are right. */
  ghost predicate CurOk(s: State, from: nat)
    requires Sized(s) && from <= |s.log|
  {
    forall i :: 0 <= i < s.n ==> Right(s.log, from, i, s.byteCur[i / 8])
  }

  ghost predicate Ready(s: State)
    requires Sized(s)
  {
    s.nextSeq == |s.log| + 1 && s.used == Count(s.byteCur, s.n)
  }

  ghost predicate PcInv(s: State)
    requires Sized(s) && s.mark <= |s.log|
  {
    match s.pc
    case Idle => Ready(s) && s.mark == |s.log| && Synced(s)
    case Logging(op) =>
      && s.nextSeq == |s.log| + 2 && s.used == Count(s.byteCur, s.n) && s.mark == |s.log| && Synced(s)
      && op.index < s.n && s.walCur[(|s.log| + 1) % RING] == Rec(|s.log| + 1, op)
    case Logged(op) => Ready(s) && |s.log| == s.mark + 1 && op == s.log[s.mark] && op.index < s.n && Synced(s)
    case Applied(op) =>
      && Ready(s) && |s.log| == s.mark + 1 && op == s.log[s.mark] && op.index < s.n && CurOk(s, |s.log|)
      && forall k :: 0 <= k < |s.byteCur| && k != op.index / 8 ==> s.byteDisk[k] == {s.byteCur[k]}
    case Flushed => Ready(s) && s.mark < |s.log| && CurOk(s, |s.log|) && Synced(s)
    case Marking =>
      && Ready(s) && s.mark < |s.log| && CurOk(s, |s.log|) && Synced(s)
      && s.metaCur[1 - s.home] == Mark(|s.log|, s.used)
    case HookLogging(op) =>
      && s.nextSeq == |s.log| + 2 && Synced(s) && |s.log| < s.mark + RING
      && op.index < s.n && s.walCur[(|s.log| + 1) % RING] == Rec(|s.log| + 1, op)
    case Hooked => s.nextSeq == |s.log| + 1 && Synced(s)
    case Down => Synced(s) && s.walDisk == Singles(s.walCur)
    case Replaying(next, top) =>
      && s.walDisk == Singles(s.walCur) && s.used == Count(s.byteCur, s.n)
      && s.mark < next <= s.mark + RING + 1
      && top == (if next <= |s.log| then next - 1 else |s.log|) && s.mark <= top && CurOk(s, top)
      && (top == s.mark ==> Synced(s))
    case Replayed => Ready(s) && s.mark < |s.log| && CurOk(s, |s.log|)
  }

  ghost predicate Inv(s: State) {
    s.n > 0 && Sized(s) && WalInv(s) && MetaInv(s) && BitsInv(s) && PcInv(s)
  }
}
