/** What both persistent pools keep: log records, the allocation bitmap, and what a history of operations makes of
    it. */
module PoolBits {
  import opened Powers

  datatype Op = Op(alloc: bool, index: nat)

  /** Block numbers are cut to 32 bits on their way into the log. */
  const INDEXES: nat := 0x1_0000_0000

  /** The operation as its log record can hold it. */
  function Cut(op: Op): (r: Op)
    ensures r.index <= op.index && (op.index < INDEXES <==> r == op)
    ensures r.alloc == op.alloc && r.index < INDEXES && (op.index - r.index) % INDEXES == 0
  {
    op.(index := op.index % INDEXES)
  }

  /** A log entry; Blank is anything that fails its validity check: never written, or torn. */
  datatype Record = Blank | Rec(seqNo: nat, op: Op)

  // ----- Durable locations -----

  /** One value per location out of those a crash may leave. */
  ghost predicate IsImage<T>(v: seq<T>, disk: seq<set<T>>) {
    |v| == |disk| && forall i :: 0 <= i < |v| ==> v[i] in disk[i]
  }

  /** Only the given values can be there. */
  ghost function Singles<T>(v: seq<T>): (d: seq<set<T>>)
    ensures |d| == |v| && forall i :: 0 <= i < |v| ==> d[i] == {v[i]}
  {
    seq(|v|, i requires 0 <= i < |v| => {v[i]})
  }

  // ----- Histories -----

  /** Whether block i is allocated after the history: the last operation on it decides. */
  ghost predicate Live(log: seq<Op>, i: nat) {
    if log == [] then false
    else if log[|log| - 1].index == i then log[|log| - 1].alloc
    else Live(log[..|log| - 1], i)
  }

  ghost predicate Touched(log: seq<Op>, i: nat) {
    exists k :: 0 <= k < |log| && log[k].index == i
  }

  /** The history that allocates blocks 0 to m - 1 in order. */
  ghost function Firsts(m: nat): (log: seq<Op>)
    ensures |log| == m && forall k :: 0 <= k < m ==> log[k] == Op(true, k)
  {
    seq(m, k requires 0 <= k < m => Op(true, k))
  }

  lemma {:induction false} FirstsLive(m: nat, i: nat)
    ensures Live(Firsts(m), i) <==> i < m
  {
    if m > 0 {
      assert Firsts(m)[..m - 1] == Firsts(m - 1);
      FirstsLive(m - 1, i);
    }
  }

  lemma LiveAppend(log: seq<Op>, op: Op, i: nat)
    ensures Live(log + [op], i) == if op.index == i then op.alloc else Live(log, i)
  {
    assert (log + [op])[..|log|] == log;
  }

  /** Operations on other blocks do not matter. */
  lemma {:induction false} LiveUntouched(log: seq<Op>, m: nat, i: nat)
    requires m <= |log| && !Touched(log[m..], i)
    ensures Live(log, i) == Live(log[..m], i)
  {
    if m == |log| {
      assert log[..m] == log;
    } else {
      var rest := log[..|log| - 1];
      assert log[m..][|log| - 1 - m].index != i;
      forall k | 0 <= k < |rest[m..]| ensures rest[m..][k].index != i {
        assert log[m..][k] == rest[m..][k];
      }
      LiveUntouched(rest, m, i);
      assert rest[..m] == log[..m];
    }
  }

  // ----- Bytes -----

  predicate GetBit(bytes: seq<nat>, i: nat) {
    i / 8 < |bytes| && Bit(bytes[i / 8], i % 8)
  }

  /** The read-modify-write of one byte that an operation performs. */
  function PutBit(bytes: seq<nat>, op: Op): (r: seq<nat>)
    requires op.index / 8 < |bytes|
    ensures |r| == |bytes|
  {
    var k := op.index / 8;
    bytes[k := if op.alloc then SetBit(bytes[k], op.index % 8) else ClearBit(bytes[k], op.index % 8)]
  }

  lemma PutBitBits(bytes: seq<nat>, op: Op, i: nat)
    requires op.index / 8 < |bytes|
    ensures GetBit(PutBit(bytes, op), i) == if i == op.index then op.alloc else GetBit(bytes, i)
  {
    var k := op.index / 8;
    if i / 8 == k {
      SetBitBits(bytes[k], op.index % 8, i % 8);
      ClearBitBits(bytes[k], op.index % 8, i % 8);
      assert i == 8 * k + i % 8;
    }
  }

  // ----- A bitmap that is right except where records will still be replayed -----

  /** Block i reads correctly in byte value v unless a record from position `from` on will still rewrite it. */
  ghost predicate Right(log: seq<Op>, from: nat, i: nat, v: nat)
    requires from <= |log|
  {
    Touched(log[from..], i) || Bit(v, i % 8) == Live(log, i)
  }

  lemma TouchedFrom(log: seq<Op>, from: nat, k: nat)
    requires from <= k < |log|
    ensures Touched(log[from..], log[k].index)
  {
    assert log[from..][k - from] == log[k];
  }

  lemma TouchedSplit(log: seq<Op>, k: nat, i: nat)
    requires k < |log|
    ensures Touched(log[k..], i) <==> log[k].index == i || Touched(log[k + 1..], i)
  {
    assert log[k..] == [log[k]] + log[k + 1..];
    if Touched(log[k + 1..], i) {
      var j :| 0 <= j < |log[k + 1..]| && log[k + 1..][j].index == i;
      assert log[k..][j + 1].index == i;
    }
    if log[k].index == i {
      assert log[k..][0].index == i;
    }
  }

  /** The last operation on a block decides it. */
  lemma LiveAt(log: seq<Op>, k: nat)
    requires k < |log| && !Touched(log[k + 1..], log[k].index)
    ensures Live(log, log[k].index) == log[k].alloc
  {
    LiveUntouched(log, k + 1, log[k].index);
    assert log[..k + 1][..k] == log[..k];
  }

  lemma NotTouchedEmpty(log: seq<Op>, i: nat)
    ensures !Touched(log[|log|..], i)
  {
  }

  /** Growing the log by one pending operation keeps what is known of untouched blocks. */
  lemma GrowRight(log: seq<Op>, log': seq<Op>, from: nat, i: nat, v: nat)
    requires from <= |log| && |log'| == |log| + 1 && log'[..|log|] == log && Right(log, from, i, v)
    ensures Right(log', from, i, v)
  {
    var op := log'[|log|];
    assert log' == log + [op];
    LiveAppend(log, op, i);
    if Touched(log[from..], i) {
      var k :| 0 <= k < |log[from..]| && log[from..][k].index == i;
      assert log'[from..][k].index == i;
    } else if op.index == i {
      assert log'[from..][|log| - from].index == i;
    }
  }

  /** Being right off fewer records is more. */
  lemma WeakenRight(log: seq<Op>, from: nat, to: nat, i: nat, v: nat)
    requires from <= to <= |log| && Right(log, to, i, v)
    ensures Right(log, from, i, v)
  {
    if Touched(log[to..], i) {
      var k :| 0 <= k < |log[to..]| && log[to..][k].index == i;
      TouchedFrom(log, from, to + k);
    }
  }

  /** Replaying the next record over any such bitmap makes it right off one record fewer. */
  lemma ReplayRight(log: seq<Op>, from: nat, bytes: seq<nat>, i: nat)
    requires from < |log| && log[from].index / 8 < |bytes| && i / 8 < |bytes| && Right(log, from, i, bytes[i / 8])
    ensures Right(log, from + 1, i, PutBit(bytes, log[from])[i / 8])
  {
    PutBitBits(bytes, log[from], i);
    hide Live, Touched, PutBit;
    TouchedSplit(log, from, i);
    if i == log[from].index && !Touched(log[from + 1..], i) {
      LiveAt(log, from);
    }
  }

  lemma PutElsewhere(bytes: seq<nat>, op: Op)
    requires op.index / 8 < |bytes|
    ensures forall k :: 0 <= k < |bytes| && k != op.index / 8 ==> PutBit(bytes, op)[k] == bytes[k]
  {
  }

  /** Block i is the lowest free one. */
  predicate FirstClear(bytes: seq<nat>, n: nat, i: nat) {
    i < n && !GetBit(bytes, i) && forall j :: 0 <= j < i ==> GetBit(bytes, j)
  }

  // ----- Used blocks -----

  ghost function Count(bytes: seq<nat>, n: nat): (c: nat)
    ensures c <= n
  {
    if n == 0 then 0 else Count(bytes, n - 1) + if GetBit(bytes, n - 1) then 1 else 0
  }

  lemma {:induction false} CountSame(a: seq<nat>, b: seq<nat>, n: nat)
    requires forall i :: 0 <= i < n ==> GetBit(a, i) == GetBit(b, i)
    ensures Count(a, n) == Count(b, n)
  {
    if n > 0 {
      CountSame(a, b, n - 1);
    }
  }

  /** apply_op changes the count exactly when it changes the bit. */
  lemma {:induction false} CountPut(bytes: seq<nat>, op: Op, n: nat)
    requires op.index / 8 < |bytes|
    ensures Count(PutBit(bytes, op), n) ==
            Count(bytes, n) +
            if op.index >= n || GetBit(bytes, op.index) == op.alloc then 0 else if op.alloc then 1 else -1
  {
    if n > 0 {
      CountPut(bytes, op, n - 1);
      PutBitBits(bytes, op, n - 1);
    }
  }

  // ----- Whole bitmaps -----

  ghost predicate AllRight(log: seq<Op>, from: nat, n: nat, bytes: seq<nat>)
    requires from <= |log| && n <= 8 * |bytes|
  {
    forall i :: 0 <= i < n ==> Right(log, from, i, bytes[i / 8])
  }

  /** Whatever value of each byte survives a crash, the blocks no record from `from` on rewrites are right. */
  ghost predicate DiskRight(log: seq<Op>, from: nat, n: nat, disk: seq<set<nat>>)
    requires from <= |log| && n <= 8 * |disk|
  {
    forall i, v :: 0 <= i < n && v in disk[i / 8] ==> Right(log, from, i, v)
  }

  ghost predicate InDisk<T>(cur: seq<T>, disk: seq<set<T>>) {
    |cur| == |disk| && forall k :: 0 <= k < |cur| ==> cur[k] in disk[k]
  }

  lemma GrowDisk(log: seq<Op>, log': seq<Op>, from: nat, n: nat, disk: seq<set<nat>>)
    requires from <= |log| && |log'| == |log| + 1 && log'[..|log|] == log
    requires n <= 8 * |disk| && DiskRight(log, from, n, disk)
    ensures DiskRight(log', from, n, disk)
  {
    hide Right;
    forall i, v | 0 <= i < n && v in disk[i / 8] ensures Right(log', from, i, v) {
      GrowRight(log, log', from, i, v);
    }
  }

  /** A crash image is right wherever every possible value was. */
  lemma ImageRight(log: seq<Op>, from: nat, to: nat, n: nat, disk: seq<set<nat>>, image: seq<nat>)
    requires to <= from <= |log| && n <= 8 * |disk| && DiskRight(log, from, n, disk) && IsImage(image, disk)
    ensures AllRight(log, to, n, image) && DiskRight(log, to, n, Singles(image))
  {
    hide Right;
    forall i | 0 <= i < n ensures Right(log, to, i, image[i / 8]) {
      WeakenRight(log, to, from, i, image[i / 8]);
    }
  }

  lemma ReplayAllRight(log: seq<Op>, k: nat, n: nat, bytes: seq<nat>)
    requires k < |log| && n <= 8 * |bytes| && log[k].index < n && AllRight(log, k, n, bytes)
    ensures AllRight(log, k + 1, n, PutBit(bytes, log[k]))
  {
    hide Right, PutBit;
    forall i | 0 <= i < n ensures Right(log, k + 1, i, PutBit(bytes, log[k])[i / 8]) {
      ReplayRight(log, k, bytes, i);
    }
  }

  /** Storing the byte of a pending operation adds no wrong value. */
  lemma StoreRight(log: seq<Op>, from: nat, k: nat, n: nat, bytes: seq<nat>, disk: seq<set<nat>>)
    requires from <= k < |log| && n <= 8 * |disk| && log[k].index < n
    requires DiskRight(log, from, n, disk) && InDisk(bytes, disk)
    ensures var r, j := PutBit(bytes, log[k]), log[k].index / 8;
            DiskRight(log, from, n, disk[j := disk[j] + {r[j]}]) && InDisk(r, disk[j := disk[j] + {r[j]}])
  {
    var op := log[k];
    var r, j := PutBit(bytes, op), op.index / 8;
    PutElsewhere(bytes, op);
    hide Live, Touched, PutBit;
    forall i, v | 0 <= i < n && v in disk[j := disk[j] + {r[j]}][i / 8] ensures Right(log, from, i, v) {
      PutBitBits(bytes, op, i);
      TouchedFrom(log, from, k);
      if v !in disk[i / 8] {
        assert Right(log, from, i, bytes[i / 8]);
      }
    }
  }

  lemma SyncedRight(log: seq<Op>, from: nat, n: nat, bytes: seq<nat>)
    requires from <= |log| && n <= 8 * |bytes| && AllRight(log, from, n, bytes)
    ensures DiskRight(log, from, n, Singles(bytes))
  {
  }
}
