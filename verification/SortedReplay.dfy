/** Recovery by collect, sort and replay, as the C++ pool does it: every valid record above the
    watermark is replayed in sequence order, and nothing depends on the watermark being the latest. */
module SortedReplay {
  import opened Seqs
  import opened PoolBits

  /** The readable records of the ring are exactly those numbered lo + 1 to |log|: a contiguous suffix of the
      history. */
  ghost predicate HoldsSuffix(ring: seq<Record>, log: seq<Op>, lo: nat) {
    && lo <= |log|
    && (forall j :: 0 <= j < |ring| && ring[j].Rec? ==>
          && lo < ring[j].seqNo <= |log| && ring[j].seqNo % |ring| == j
          && ring[j].op == log[ring[j].seqNo - 1])
    && (forall q :: lo < q <= |log| ==> |ring| > 0 && ring[q % |ring|] == Rec(q, log[q - 1]))
  }

  // ----- Collect -----

  predicate Pending(e: Record, applied: nat, n: nat) {
    e.Rec? && e.seqNo > applied && e.op.index < n
  }

  /** The pending records in slot order. */
  function Collected(ring: seq<Record>, applied: nat, n: nat): (p: seq<Record>) {
    if ring == [] then []
    else
      var e := ring[|ring| - 1];
      Collected(ring[..|ring| - 1], applied, n) + if Pending(e, applied, n) then [e] else []
  }

  method Collect(wal: array<Record>, applied: nat, n: nat) returns (p: seq<Record>)
    ensures p == Collected(wal[..], applied, n)
  {
    p := [];
    for i := 0 to wal.Length
      invariant p == Collected(wal[..i], applied, n)
    {
      assert wal[..i + 1][..i] == wal[..i];
      if Pending(wal[i], applied, n) {
        p := p + [wal[i]];
      }
    }
    assert wal[..wal.Length] == wal[..];
  }

  lemma {:induction false} CollectedMembers(ring: seq<Record>, applied: nat, n: nat, e: Record)
    ensures e in Collected(ring, applied, n) <==> e in ring && Pending(e, applied, n)
  {
    if ring != [] {
      var rest := ring[..|ring| - 1];
      assert ring == rest + [ring[|ring| - 1]];
      CollectedMembers(rest, applied, n, e);
    }
  }

  ghost predicate DistinctSeqs(ring: seq<Record>) {
    forall i, j :: 0 <= i < j < |ring| && ring[i].Rec? && ring[j].Rec? ==> ring[i].seqNo != ring[j].seqNo
  }

  ghost predicate Distinct(p: seq<Record>) {
    forall i, j :: 0 <= i < j < |p| ==> p[i] != p[j]
  }

  lemma {:induction false} CollectedDistinct(ring: seq<Record>, applied: nat, n: nat)
    requires DistinctSeqs(ring)
    ensures Distinct(Collected(ring, applied, n))
  {
    if ring != [] {
      var rest, e := ring[..|ring| - 1], ring[|ring| - 1];
      CollectedDistinct(rest, applied, n);
      if Pending(e, applied, n) {
        CollectedMembers(rest, applied, n, e);
        assert e !in rest;
      }
    }
  }

  // ----- Sort -----

  ghost predicate SeqSorted(p: seq<Record>) {
    && (forall i :: 0 <= i < |p| ==> p[i].Rec?)
    && forall i, j :: 0 <= i < j < |p| ==> p[i].seqNo <= p[j].seqNo
  }

  lemma InsertSorted(s: seq<Record>, k: nat, e: Record)
    requires SeqSorted(s) && e.Rec? && k <= |s|
    requires (k > 0 ==> s[k - 1].seqNo <= e.seqNo) && forall j :: k <= j < |s| ==> s[j].seqNo > e.seqNo
    ensures SeqSorted(s[..k] + [e] + s[k..])
  {
    var r := s[..k] + [e] + s[k..];
    forall i | 0 <= i < |r| ensures r[i] == if i < k then s[i] else if i == k then e else s[i - 1] {
    }
    forall i, j | 0 <= i < j < |r| ensures r[i].seqNo <= r[j].seqNo {
    }
  }

  lemma InsertMultiset(s: seq<Record>, k: nat, e: Record)
    requires k <= |s|
    ensures multiset(s[..k] + [e] + s[k..]) == multiset(s) + multiset{e}
  {
    assert s == s[..k] + s[k..];
  }

  method Insert(s: seq<Record>, e: Record) returns (r: seq<Record>)
    requires SeqSorted(s) && e.Rec?
    ensures SeqSorted(r) && multiset(r) == multiset(s) + multiset{e}
  {
    var k := |s|;
    while k > 0 && s[k - 1].seqNo > e.seqNo
      invariant 0 <= k <= |s|
      invariant forall j :: k <= j < |s| ==> s[j].seqNo > e.seqNo
    {
      k := k - 1;
    }
    InsertSorted(s, k, e);
    InsertMultiset(s, k, e);
    r := s[..k] + [e] + s[k..];
  }

  /** Any sorting of the pending records by sequence number. */
  method SortBySeq(p: seq<Record>) returns (s: seq<Record>)
    requires forall i :: 0 <= i < |p| ==> p[i].Rec?
    ensures SeqSorted(s) && multiset(s) == multiset(p)
  {
    s := [];
    for i := 0 to |p|
      invariant SeqSorted(s) && multiset(s) == multiset(p[..i])
    {
      s := Insert(s, p[i]);
      assert p[..i + 1] == p[..i] + [p[i]];
    }
    assert p[..|p|] == p;
  }

  // ----- What comes out -----

  /** Records from + 1 to |log|, in order. */
  ghost function Expected(log: seq<Op>, from: nat): (p: seq<Record>)
    requires from <= |log|
    ensures |p| == |log| - from
    ensures forall i :: 0 <= i < |p| ==> p[i] == Rec(from + 1 + i, log[from + i])
  {
    seq(|log| - from, i requires 0 <= i < |log| - from => Rec(from + 1 + i, log[from + i]))
  }

  /** e is one of the records from + 1 to |log|. */
  ghost predicate Among(log: seq<Op>, from: nat, e: Record) {
    e.Rec? && from < e.seqNo <= |log| && e.op == log[e.seqNo - 1]
  }

  /** A sorted, duplicate-free sequence of exactly those records is that list. */
  lemma {:induction false} SortedIsExpected(log: seq<Op>, from: nat, p: seq<Record>)
    requires from <= |log| && SeqSorted(p) && Distinct(p)
    requires forall e :: e in p <==> Among(log, from, e)
    ensures p == Expected(log, from)
    decreases |log| - from
  {
    if from == |log| {
      if p != [] {
        HeadIn(p);
      }
    } else {
      var first := Rec(from + 1, log[from]);
      assert Among(log, from, first);
      FirstIsLeast(p, first);
      TailAmong(log, from, p);
      SortedIsExpected(log, from + 1, p[1..]);
      hide Among;
      assert p == [p[0]] + p[1..];
    }
  }

  lemma TailAmong(log: seq<Op>, from: nat, p: seq<Record>)
    requires from < |log| && p != [] && p[0] == Rec(from + 1, log[from]) && Distinct(p)
    requires forall e :: e in p <==> Among(log, from, e)
    ensures forall e :: e in p[1..] <==> Among(log, from + 1, e)
  {
    var t := p[1..];
    forall e ensures e in t <==> Among(log, from + 1, e) {
      assert e in p <==> e == p[0] || e in t;
      assert p[0] !in t;
    }
  }

  lemma FirstIsLeast(p: seq<Record>, least: Record)
    requires SeqSorted(p) && least in p && forall e :: e in p ==> e.Rec? && e.seqNo >= least.seqNo
    requires forall e :: e in p && e.seqNo == least.seqNo ==> e == least
    ensures p[0] == least
  {
    assert p[0] in p;
  }

  lemma DistinctMultiset(p: seq<Record>, s: seq<Record>)
    requires Distinct(p) && multiset(p) == multiset(s)
    ensures Distinct(s) && forall e :: e in s <==> e in p
  {
    forall e ensures e in s <==> e in p {
      assert e in multiset(s) <==> e in multiset(p);
    }
    forall i, j | 0 <= i < j < |s| ensures s[i] != s[j] {
      DistinctCount(p, s[i]);
      if s[i] == s[j] {
        PairCount(s, i, j);
      }
    }
  }

  lemma PairCount(s: seq<Record>, i: nat, j: nat)
    requires i < j < |s| && s[i] == s[j]
    ensures multiset(s)[s[i]] >= 2
  {
    assert s == s[..i] + [s[i]] + s[i + 1..j] + [s[j]] + s[j + 1..];
  }

  lemma {:induction false} DistinctCount(p: seq<Record>, e: Record)
    requires Distinct(p)
    ensures multiset(p)[e] <= 1
  {
    if p != [] {
      assert p == [p[0]] + p[1..];
      DistinctCount(p[1..], e);
      if p[0] == e {
        assert e !in p[1..];
        assert multiset(p[1..])[e] == 0;
      }
    }
  }

  lemma SuffixDistinct(ring: seq<Record>, log: seq<Op>, lo: nat)
    requires HoldsSuffix(ring, log, lo)
    ensures DistinctSeqs(ring)
  {
  }

  /** Collecting and sorting yields the missing records, whichever watermark was found. */
  lemma PendingInOrder(ring: seq<Record>, log: seq<Op>, lo: nat, applied: nat, n: nat, s: seq<Record>)
    requires HoldsSuffix(ring, log, lo) && applied <= |log|
    requires forall k :: 0 <= k < |log| ==> log[k].index < n
    requires SeqSorted(s) && multiset(s) == multiset(Collected(ring, applied, n))
    ensures s == Expected(log, if lo > applied then lo else applied)
  {
    var p, from := Collected(ring, applied, n), if lo > applied then lo else applied;
    SuffixDistinct(ring, log, lo);
    CollectedDistinct(ring, applied, n);
    DistinctMultiset(p, s);
    forall e ensures e in s <==> Among(log, from, e) {
      CollectedMembers(ring, applied, n, e);
      if e in ring && e.Rec? {
        var j :| 0 <= j < |ring| && ring[j] == e;
      }
      if Among(log, from, e) {
        assert ring[e.seqNo % |ring|] == e;
      }
    }
    SortedIsExpected(log, from, s);
  }

  // ----- Replay -----

  function ReplayAll(bytes: seq<nat>, p: seq<Record>): (r: seq<nat>)
    requires forall i :: 0 <= i < |p| ==> p[i].Rec? && p[i].op.index / 8 < |bytes|
    ensures |r| == |bytes|
    decreases |p|
  {
    if p == [] then bytes else ReplayAll(PutBit(bytes, p[0].op), p[1..])
  }

  lemma {:induction false} ReplayExpected(log: seq<Op>, from: nat, bytes: seq<nat>, n: nat)
    requires from <= |log| && n <= 8 * |bytes| && forall k :: 0 <= k < |log| ==> log[k].index < n
    requires forall i :: 0 <= i < n ==> Right(log, from, i, bytes[i / 8])
    ensures var r := ReplayAll(bytes, Expected(log, from));
            forall i :: 0 <= i < n ==> GetBit(r, i) == Live(log, i)
    decreases |log| - from
  {
    var p := Expected(log, from);
    if from == |log| {
      forall i | 0 <= i < n ensures GetBit(bytes, i) == Live(log, i) {
        assert Right(log, from, i, bytes[i / 8]);
        NotTouchedEmpty(log, i);
      }
    } else {
      var b := PutBit(bytes, log[from]);
      forall i | 0 <= i < n ensures Right(log, from + 1, i, b[i / 8]) {
        assert Right(log, from, i, bytes[i / 8]);
        ReplayRight(log, from, bytes, i);
      }
      ReplayExpected(log, from + 1, b, n);
      assert p[1..] == Expected(log, from + 1);
    }
  }

  /** Watermark-insensitive recovery. Let the ring hold a contiguous suffix of the history and the bitmap
      reflect the history up to some point m that the ring still reaches. Then sorted replay from any
      watermark at or below m, however old, rebuilds the bitmap of the whole history. */
  lemma WatermarkInsensitive(ring: seq<Record>, log: seq<Op>, lo: nat, m: nat, bytes: seq<nat>, n: nat,
                             applied: nat, s: seq<Record>)
    requires HoldsSuffix(ring, log, lo) && lo <= m <= |log| && applied <= m
    requires n <= 8 * |bytes| && forall k :: 0 <= k < |log| ==> log[k].index < n
    requires forall i :: 0 <= i < n ==> GetBit(bytes, i) == Live(log[..m], i)
    requires SeqSorted(s) && multiset(s) == multiset(Collected(ring, applied, n))
    ensures forall k :: 0 <= k < |s| ==> s[k].op.index < n
    ensures forall i :: 0 <= i < n ==> GetBit(ReplayAll(bytes, s), i) == Live(log, i)
  {
    var from := if lo > applied then lo else applied;
    PendingInOrder(ring, log, lo, applied, n, s);
    forall i | 0 <= i < n ensures Right(log, from, i, bytes[i / 8]) {
      if !Touched(log[m..], i) {
        LiveUntouched(log, m, i);
      }
      WeakenRight(log, from, m, i, bytes[i / 8]);
    }
    ReplayExpected(log, from, bytes, n);
  }
}
