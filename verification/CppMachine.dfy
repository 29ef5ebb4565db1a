/** The crash protocol of the C++ persistent pool. Same three synced steps as the C pool, but the
    watermark slots alternate by generation, and recovery collects, sorts and replays every
    readable record above whatever watermark it finds. */
module CppMachine {
  import opened PoolBits
  import opened SortedReplay

  /** A slot: Bad fails its checksum or was never written; its generation field is readable all the same. */
  datatype Slot = Bad(gen: nat) | Good(seqNo: nat, gen: nat)

  datatype Pc =
    | Idle
    | Logging(op: Op)
    | Logged(op: Op)
    | Applied(op: Op)
    | Flushed
    | Marking(slot: nat)
    | Down
    | Replaying(pending: seq<Record>, done: nat)
    | Replayed

  datatype State = State(
    n: nat, cap: nat,
    walCur: seq<Record>, walDisk: seq<set<Record>>,
    byteCur: seq<nat>, byteDisk: seq<set<nat>>,
    slotCur: seq<Slot>, slotDisk: seq<set<Slot>>,
    nextSeq: nat,
    pc: Pc,
    log: seq<Op>,  // operations whose record became durable, in order
    lo: nat,       // the ring holds the records after this one
    from: nat,     // on disk the bitmap is right except for blocks of later records
    intact: bool)  // no crash so far left an operation to replay whose block number its record had cut

  datatype Action =
    | Log(op: Op)
    | SyncWal
    | Apply
    | SyncByte
    | StoreSlot
    | SyncSlot
    | Crash(wal: seq<Record>, bytes: seq<nat>, slots: seq<Slot>)
    | Reopen                        // clean shutdown and open
    | Open(pending: seq<Record>)    // dirty open: what collecting and sorting produced
    | Replay
    | Finish
    | SyncAll

  // ----- Slots -----

  predicate Readable(s: Slot) {
    s.Good? && s.gen > 0
  }

  /** The readable slot with the larger generation; no readable slot counts as watermark 0. */
  function LoadSeq(slots: seq<Slot>): (q: nat)
    requires |slots| == 2
  {
    if Readable(slots[1]) && (!Readable(slots[0]) || slots[1].gen > slots[0].gen) then slots[1].seqNo
    else if Readable(slots[0]) then slots[0].seqNo
    else 0
  }

  function NextGen(slots: seq<Slot>): (g: nat)
    requires |slots| == 2
    ensures g > slots[0].gen && g > slots[1].gen
  {
    1 + if slots[0].gen > slots[1].gen then slots[0].gen else slots[1].gen
  }

  /** The operations as their records hold them. */
  ghost function Cuts(log: seq<Op>): (r: seq<Op>)
    ensures |r| == |log| && forall k :: 0 <= k < |log| ==> r[k] == Cut(log[k])
  {
    seq(|log|, k requires 0 <= k < |log| => Cut(log[k]))
  }

  /** The records from position `from` on name the blocks they were written for. */
  ghost predicate Narrow(log: seq<Op>, from: nat) {
    forall k :: from <= k < |log| ==> log[k].index < INDEXES
  }

  function Later(a: nat, b: nat): (r: nat) {
    if a > b then a else b
  }

  // ----- Steps -----

  predicate Sized(s: State) {
    && s.cap >= 2 && |s.walCur| == |s.walDisk| == s.cap
    && |s.byteCur| == |s.byteDisk| == (s.n + 7) / 8
    && |s.slotCur| == |s.slotDisk| == 2
  }

  predicate Wanted(s: State, op: Op) {
    if op.alloc then FirstClear(s.byteCur, s.n, op.index) else op.index < s.n && GetBit(s.byteCur, op.index)
  }

  ghost predicate Enabled(s: State, a: Action) {
    && Sized(s)
    && match a
       case Log(op) => s.pc.Idle? && Wanted(s, op)
       case SyncWal => s.pc.Logging? && s.nextSeq > 0
       case Apply => s.pc.Logged? && s.pc.op.index < s.n
       case SyncByte => s.pc.Applied? && s.pc.op.index < s.n
       case StoreSlot => s.pc.Flushed? && s.nextSeq > 0
       case SyncSlot => s.pc.Marking? && s.pc.slot < 2
       case Crash(w, b, m) => IsImage(w, s.walDisk) && IsImage(b, s.byteDisk) && IsImage(m, s.slotDisk)
       case Reopen => s.pc.Idle?
       case Open(p) =>
         s.pc.Down? && SeqSorted(p) && multiset(p) == multiset(Collected(s.walCur, LoadSeq(s.slotCur), s.n))
       case Replay =>
         && s.pc.Replaying? && s.pc.done < |s.pc.pending|
         && (var e := s.pc.pending[s.pc.done]; e.Rec? && e.op.index < s.n)
       case Finish =>
         && s.pc.Replaying? && s.pc.done == |s.pc.pending|
         && (s.pc.pending != [] ==> s.pc.pending[|s.pc.pending| - 1].Rec?)
       case SyncAll => s.pc.Replayed?
  }

  ghost function ApplyOp(s: State, op: Op): (r: State)
    requires Sized(s) && op.index < s.n
  {
    var k, bytes := op.index / 8, PutBit(s.byteCur, op);
    s.(byteCur := bytes, byteDisk := s.byteDisk[k := s.byteDisk[k] + {bytes[k]}])
  }

  /** Where the records held by the ring start once record q is being written over an older one. */
  function LoAfter(s: State, q: nat): (lo: nat) {
    if q > s.cap && q - s.cap > s.lo then q - s.cap else s.lo
  }

  ghost function Fall(s: State, w: seq<Record>, b: seq<nat>, m: seq<Slot>): (r: State)
    requires Sized(s) && |w| == s.cap && |m| == 2
  {
    var q := |s.log| + 1;
    var e := w[q % s.cap];
    var logged := s.pc.Logging? && e == Rec(q, Cut(s.pc.op));
    var kept := !s.pc.Logging? || (e.Rec? && e.seqNo + s.cap == q);
    var lo := if kept then s.lo else LoAfter(s, q);
    var log := if logged then s.log + [s.pc.op] else s.log;
    var from := Later(lo, LoadSeq(m));
    s.(walCur := w, walDisk := Singles(w), byteCur := b, byteDisk := Singles(b), slotCur := m, slotDisk := Singles(m),
       nextSeq := 0, pc := Down, log := log, lo := lo, from := from, intact := s.intact && Narrow(log, from))
  }

  ghost function Do(s: State, a: Action): (r: State)
    requires Enabled(s, a)
  {
    match a
    case Log(op) =>
      var k, e := s.nextSeq % s.cap, Rec(s.nextSeq, Cut(op));
      s.(walCur := s.walCur[k := e], walDisk := s.walDisk[k := s.walDisk[k] + {e, Blank}],
         nextSeq := s.nextSeq + 1, pc := Logging(op))
    case SyncWal =>
      var k := (s.nextSeq - 1) % s.cap;
      s.(walDisk := s.walDisk[k := {s.walCur[k]}], log := s.log + [s.pc.op], lo := LoAfter(s, |s.log| + 1),
         pc := Logged(s.pc.op))
    case Apply => ApplyOp(s, s.pc.op).(pc := Applied(s.pc.op))
    case SyncByte =>
      var k := s.pc.op.index / 8;
      s.(byteDisk := s.byteDisk[k := {s.byteCur[k]}], from := |s.log|, pc := Flushed)
    case StoreSlot =>
      var g := NextGen(s.slotCur);
      var k := g % 2;
      var v := Good(s.nextSeq - 1, g);
      s.(slotCur := s.slotCur[k := v],
         slotDisk := s.slotDisk[k := s.slotDisk[k] + {v, Bad(g), Bad(s.slotCur[k].gen)}], pc := Marking(k))
    case SyncSlot => s.(slotDisk := s.slotDisk[s.pc.slot := {s.slotCur[s.pc.slot]}], pc := Idle)
    case Crash(w, b, m) => Fall(s, w, b, m)
    case Reopen => s.(nextSeq := LoadSeq(s.slotCur) + 1)
    case Open(p) => s.(nextSeq := LoadSeq(s.slotCur) + 1, pc := Replaying(p, 0))
    case Replay => ApplyOp(s, s.pc.pending[s.pc.done].op).(pc := Replaying(s.pc.pending, s.pc.done + 1))
    case Finish =>
      if s.pc.pending == [] then s.(pc := Idle)
      else s.(nextSeq := s.pc.pending[|s.pc.pending| - 1].seqNo + 1, pc := Replayed)
    case SyncAll => s.(byteDisk := Singles(s.byteCur), from := |s.log|, pc := Flushed)
  }

  /** A new pool: slot 0 at watermark 0 with generation 1, slot 1 never written. */
  ghost function Fresh(n: nat, cap: nat): (s: State)
    requires n > 0 && cap >= 2
    ensures Sized(s)
  {
    var w: seq<Record> := seq(cap, _ => Blank);
    var b: seq<nat> := seq((n + 7) / 8, _ => 0);
    var m := [Good(0, 1), Bad(0)];
    State(n, cap, w, Singles(w), b, Singles(b), m, Singles(m), 1, Idle, [], 0, 0, true)
  }

  // ----- The invariant -----

  ghost predicate RecordOk(s: State, j: nat, v: Record) {
    v.Rec? ==>
      && s.cap > 0 && v.seqNo % s.cap == j
      && ((s.lo < v.seqNo <= |s.log| && v.op == Cut(s.log[v.seqNo - 1]))
          || (s.pc.Logging? && v == Rec(|s.log| + 1, Cut(s.pc.op))))
  }

  /** The record about to be overwritten by the one being logged. */
  ghost predicate Overwritten(s: State, q: nat) {
    s.pc.Logging? && q + s.cap == |s.log| + 1
  }

  ghost predicate WalInv(s: State)
    requires Sized(s)
  {
    && s.lo <= |s.log| <= s.lo + s.cap && (|s.log| > 0 ==> s.lo < |s.log|)
    && (forall q :: s.lo < q <= |s.log| && !Overwritten(s, q) ==> s.walDisk[q % s.cap] == {Rec(q, Cut(s.log[q - 1]))})
    && (forall j, v :: 0 <= j < s.cap && v in s.walDisk[j] ==> RecordOk(s, j, v))
    && InDisk(s.walCur, s.walDisk)
    && (forall k :: 0 <= k < |s.log| ==> s.log[k].index < s.n)
  }

  ghost predicate Running(s: State) {
    !s.pc.Down? && !s.pc.Replaying? && !s.pc.Replayed?
  }

  /** No readable slot runs ahead of the bitmap on disk, and only the slot being written is not yet synced. */
  ghost predicate SlotInv(s: State)
    requires Sized(s)
  {
    && InDisk(s.slotCur, s.slotDisk)
    && (forall k, v :: 0 <= k < 2 && v in s.slotDisk[k] && v.Good? ==>
          v.seqNo <= |s.log| && (Running(s) ==> v.seqNo <= s.from))
    && (!s.pc.Marking? ==> s.slotDisk == Singles(s.slotCur))
    && (!Running(s) ==> s.from == Later(s.lo, LoadSeq(s.slotCur)))
    && (s.pc.Idle? || s.pc.Logging? ==> LoadSeq(s.slotCur) == |s.log|)
    && (s.pc.Marking? ==>
          && s.pc.slot < 2 && s.slotCur[s.pc.slot] == Good(|s.log|, s.slotCur[s.pc.slot].gen)
          && s.slotCur[s.pc.slot].gen > s.slotCur[1 - s.pc.slot].gen && s.slotCur[s.pc.slot].gen % 2 == s.pc.slot
          && s.slotDisk[1 - s.pc.slot] == {s.slotCur[1 - s.pc.slot]})
  }

  ghost predicate BitsInv(s: State)
    requires Sized(s)
  {
    && s.lo <= s.from <= |s.log|
    && InDisk(s.byteCur, s.byteDisk)
    && (s.intact ==> DiskRight(s.log, s.from, s.n, s.byteDisk))
    && (s.intact && !Running(s) ==> Narrow(s.log, s.from))
  }

  ghost predicate PcInv(s: State)
    requires Sized(s) && s.from <= |s.log|
  {
    match s.pc
    case Idle => s.nextSeq == |s.log| + 1 && s.from == |s.log| && s.byteDisk == Singles(s.byteCur)
    case Logging(op) =>
      && s.nextSeq == |s.log| + 2 && s.from == |s.log| && s.byteDisk == Singles(s.byteCur)
      && op.index < s.n && s.walCur[(|s.log| + 1) % s.cap] == Rec(|s.log| + 1, Cut(op))
    case Logged(op) =>
      && s.nextSeq == |s.log| + 1 && |s.log| == s.from + 1 && op == s.log[s.from] && op.index < s.n
      && s.byteDisk == Singles(s.byteCur)
    case Applied(op) =>
      && s.nextSeq == |s.log| + 1 && |s.log| == s.from + 1 && op == s.log[s.from] && op.index < s.n
      && (s.intact ==> AllRight(s.log, |s.log|, s.n, s.byteCur))
      && (forall k :: 0 <= k < |s.byteCur| && k != op.index / 8 ==> s.byteDisk[k] == {s.byteCur[k]})
    case Flushed => s.nextSeq == |s.log| + 1 && s.from == |s.log| && s.byteDisk == Singles(s.byteCur)
    case Marking(_) => s.nextSeq == |s.log| + 1 && s.from == |s.log| && s.byteDisk == Singles(s.byteCur)
    case Down => s.walDisk == Singles(s.walCur) && s.byteDisk == Singles(s.byteCur)
    case Replaying(p, k) =>
      && s.walDisk == Singles(s.walCur) && p == Expected(Cuts(s.log), s.from) && k <= |p|
      && (s.intact ==> AllRight(s.log, s.from + k, s.n, s.byteCur))
      && (k == 0 ==> s.byteDisk == Singles(s.byteCur) && s.nextSeq == LoadSeq(s.slotCur) + 1)
    case Replayed => s.nextSeq == |s.log| + 1 && (s.intact ==> AllRight(s.log, |s.log|, s.n, s.byteCur))
  }

  ghost predicate Inv(s: State) {
    s.n > 0 && Sized(s) && WalInv(s) && SlotInv(s) && BitsInv(s) && PcInv(s)
  }
}
