/** The bump stack: payloads grow upward, each with a header right before it that remembers the state to
    return to, so that frees in reverse order and rewinds undo exactly what they should. */
module StackHeap {
  import opened Powers
  import opened Platform
  import opened Seqs

  const NONE: int := -1
  const HEADER: nat := 16

  // ----- Placement -----

  /** Where the next payload goes: room for an aligned header, then the requested alignment. */
  function PayloadAt(top: nat, alignment: nat): (p: nat)
    requires 1 <= alignment <= WORD
  {
    AlignUp(AlignUp(top, 8) + HEADER, alignment)
  }

  lemma Eight()
    ensures Pow2(3) == 8 && Aligned(8, 3) && Aligned(16, 3)
  {
    assert Pow2(1) == 2;
    assert Pow2(2) == 4;
    assert Aligned(4, 2) && Aligned(2, 1) && Aligned(8, 2) && Aligned(4, 1) && Aligned(2, 0) && Aligned(1, 0);
  }

  /** The payload is at the least offset that is aligned as asked and whose header is 8-aligned and lies entirely above
      the old top; less than 23 bytes plus the alignment are skipped. */
  lemma Placement(top: nat, k: nat)
    requires k <= 64 && top + 24 + Pow2(k) <= WORD
    ensures var p := PayloadAt(top, Pow2(k));
            && top + HEADER <= p < top + 23 + Pow2(k) && Aligned(p, k) && Aligned(p - HEADER, 3)
            && forall q: nat :: top + HEADER <= q && Aligned(q, k) && Aligned(q - HEADER, 3) ==> p <= q
  {
    hide Aligned, And, Pow2;
    Eight();
    AlignUpLeast(top, 3);
    var h := AlignUp(top, 8);
    AlignUpLeast(h + HEADER, k);
    var p := PayloadAt(top, Pow2(k));
    forall q: nat | top + HEADER <= q && Aligned(q, k) && Aligned(q - HEADER, 3) ensures p <= q {
      assert h <= q - HEADER;
    }
    AlignedAdd(h, HEADER, 3);
    if k <= 3 {
      AlignedWeaken(h + HEADER, k, 3);
    } else {
      AlignedWeaken(p, 3, k);
      AlignedSub(p, HEADER, 3);
    }
  }

  /** The offset is what is aligned: the address of the payload is aligned as asked if and only if the mapping itself
      is. */
  lemma AddressAlignedIff(base: nat, top: nat, k: nat)
    requires k <= 64 && top + 24 + Pow2(k) <= WORD
    ensures Aligned(base + PayloadAt(top, Pow2(k)), k) <==> Aligned(base, k)
  {
    hide Aligned, And, Pow2;
    Placement(top, k);
    var p := PayloadAt(top, Pow2(k));
    if Aligned(base, k) {
      AlignedAdd(base, p, k);
    }
    if Aligned(base + p, k) {
      AlignedSub(base + p, p, k);
    }
  }

  /** The new top as 64-bit arithmetic computes it. */
  function NewTop(top: nat, size: nat, alignment: nat): (t: nat)
    requires 1 <= alignment <= WORD
  {
    (PayloadAt(top, alignment) + size) % WORD
  }

  /** The capacity check is right if and only if the end of the payload does not wrap to a value within the
      capacity. */
  lemma CheckExactIff(top: nat, size: nat, k: nat, cap: nat)
    requires k <= 64 && top <= cap && cap + 24 + Pow2(k) <= WORD && size < WORD
    ensures var p := PayloadAt(top, Pow2(k));
            (NewTop(top, size, Pow2(k)) <= cap <==> p + size <= cap) <==> !(WORD <= p + size <= WORD + cap)
  {
    hide And, Pow2, Aligned;
    Placement(top, k);
    var p := PayloadAt(top, Pow2(k));
    if p + size >= WORD {
      assert (p + size) % WORD == p + size - WORD;
    }
  }

  lemma PayloadSixteen(top: nat, p: nat)
    requires Aligned(top, 3) && Aligned(p, 4) && top + HEADER <= p < top + HEADER + 16 && top < 4096
    ensures PayloadAt(top, 16) == p
  {
    hide And, Pow2, Aligned;
    Pow2Small();
    Eight();
    AlignUpLeast(top, 3);
    AlignUpLeast(top + HEADER, 4);
    var r := AlignUp(top + HEADER, 16);
    if r < p {
      AlignedApart(r, p, 4);
    }
  }

  /** For example, on an empty stack: a request of 2^64 - 16 bytes is accepted and leaves the top where it was. */
  lemma HugeRequestAccepted()
    ensures NewTop(0, WORD - 16, 16) == 0
  {
    hide And, Pow2, PayloadAt;
    assert Aligned(16, 4) by {
      assert Aligned(8, 3) && Aligned(4, 2) && Aligned(2, 1) && Aligned(1, 0);
    }
    ZeroAligned(3);
    PayloadSixteen(0, 16);
  }

  // ----- The stack as a value -----

  /** An allocation and the top it left behind. */
  datatype Frame = Frame(payload: nat, size: nat, end: nat)

  /** `base` is the top at the last rewind; the frames above it can still be freed in reverse order. */
  datatype Stack = Stack(cap: nat, base: nat, frames: seq<Frame>)

  function Top(s: Stack): (t: nat) {
    if s.frames == [] then s.base
    else s.frames[|s.frames| - 1].end
  }

  function Last(s: Stack): (p: int) {
    if s.frames == [] then NONE else s.frames[|s.frames| - 1].payload
  }

  /** The stack as it was before frame i. */
  function Below(s: Stack, i: nat): (r: Stack)
    requires i <= |s.frames|
  {
    s.(frames := s.frames[..i])
  }

  /** Frame f fits on a stack with that top: header above everything older, payload inside the memory. */
  predicate OnTop(top: nat, cap: nat, f: Frame) {
    top + HEADER <= f.payload && f.payload + f.size == f.end <= cap
  }

  /** Every frame's header lies above everything older, and the frame inside the memory. */
  ghost predicate Ordered(s: Stack) {
    s.base <= s.cap && forall i :: 0 <= i < |s.frames| ==> OnTop(Top(Below(s, i)), s.cap, s.frames[i])
  }

  datatype Request = Push(size: nat, alignBits: nat) | Pop | Rewind(marker: nat)

  /** What callers owe: 64-bit sizes, an alignment that leaves room in the address space, something to free, and
      a mark that is not above the top. */
  predicate Legal(s: Stack, q: Request) {
    match q
    case Push(size, k) => size < WORD && k <= 64 && s.cap + 24 + Pow2(k) <= WORD
    case Pop => s.frames != []
    case Rewind(m) => m <= Top(s)
  }

  function Step(s: Stack, q: Request): (r: Stack)
    requires Legal(s, q)
  {
    match q
    case Push(size, k) =>
      Pow2Bound(k);
      var p, t := PayloadAt(Top(s), Pow2(k)), NewTop(Top(s), size, Pow2(k));
      if t > s.cap then s else s.(frames := s.frames + [Frame(p, size, t)])
    case Pop => Below(s, |s.frames| - 1)
    case Rewind(m) => s.(base := m, frames := [])
  }

  /** The end of the payload wraps to a value within the capacity. */
  predicate Wraps(s: Stack, q: Request)
    requires Legal(s, q)
  {
    match q
    case Push(size, k) =>
      Pow2Bound(k);
      WORD <= PayloadAt(Top(s), Pow2(k)) + size <= WORD + s.cap
    case Pop => false
    case Rewind(m) => false
  }

  lemma Pow2Bound(k: nat)
    requires k <= 64
    ensures 1 <= Pow2(k) <= WORD
  {
    WordIsPow2();
    Pow2Mono(k, 64);
  }

  lemma TopInside(s: Stack)
    requires Ordered(s)
    ensures Top(s) <= s.cap
  {
  }

  lemma BelowBelow(s: Stack, i: nat, j: nat)
    requires i <= j <= |s.frames|
    ensures Below(Below(s, j), i) == Below(s, i)
  {
    assert s.frames[..j][..i] == s.frames[..i];
  }

  lemma PushOrdered(s: Stack, f: Frame)
    requires Ordered(s) && OnTop(Top(s), s.cap, f)
    ensures Ordered(s.(frames := s.frames + [f])) && Below(s.(frames := s.frames + [f]), |s.frames|) == s
  {
    var r := s.(frames := s.frames + [f]);
    forall i | 0 <= i < |r.frames| ensures OnTop(Top(Below(r, i)), r.cap, r.frames[i]) {
      assert r.frames[..i] == s.frames[..i];
      if i == |s.frames| {
        assert s.frames[..i] == s.frames;
      }
    }
    assert r.frames[..|s.frames|] == s.frames;
  }

  lemma PopOrdered(s: Stack, n: nat)
    requires Ordered(s) && n <= |s.frames|
    ensures Ordered(Below(s, n))
  {
    forall i | 0 <= i < n ensures Below(Below(s, n), i) == Below(s, i) {
      BelowBelow(s, i, n);
    }
  }

  /** A request keeps the stack in order if and only if it is not a push whose end wraps to a value within the
      capacity. */
  lemma StepOrderedIff(s: Stack, q: Request)
    requires Ordered(s) && Legal(s, q)
    ensures Ordered(Step(s, q)) <==> !Wraps(s, q)
  {
    hide PayloadAt, Pow2;
    match q {
      case Push(size, k) =>
        TopInside(s);
        Placement(Top(s), k);
        Pow2Bound(k);
        CheckExactIff(Top(s), size, k, s.cap);
        var p, t := PayloadAt(Top(s), Pow2(k)), NewTop(Top(s), size, Pow2(k));
        if t <= s.cap {
          if p + size <= s.cap {
            PushOrdered(s, Frame(p, size, t));
          } else {
            LastOutOfOrder(s, Frame(p, size, t));
          }
        }
      case Pop => PopOrdered(s, |s.frames| - 1);
      case Rewind(m) => TopInside(s);
    }
  }

  lemma LastOutOfOrder(s: Stack, f: Frame)
    requires f.payload + f.size != f.end
    ensures !Ordered(s.(frames := s.frames + [f]))
  {
    assert (s.frames + [f])[|s.frames|] == f;
  }

  /** No header overlaps an earlier payload, nor any payload a later header. */
  lemma {:induction false} HeadersApart(s: Stack, i: nat, j: nat)
    requires Ordered(s) && i < j < |s.frames|
    ensures s.frames[i].payload + s.frames[i].size + HEADER <= s.frames[j].payload
    decreases j
  {
    assert s.frames[..j][j - 1] == s.frames[j - 1];
    if i < j - 1 {
      HeadersApart(s, i, j - 1);
    }
  }

  // ----- Headers in memory -----

  ghost predicate HeaderRight(s: Stack, m: seq<int>, i: nat)
    requires i < |s.frames|
  {
    var p := s.frames[i].payload;
    HEADER <= p <= |m| && m[p - 16] == Top(Below(s, i)) && m[p - 8] == Last(Below(s, i))
  }

  ghost predicate HeadersRight(s: Stack, m: seq<int>) {
    forall i :: 0 <= i < |s.frames| ==> HeaderRight(s, m, i)
  }

  ghost predicate InPayload(s: Stack, x: nat) {
    exists j :: 0 <= j < |s.frames| && s.frames[j].payload <= x < s.frames[j].payload + s.frames[j].size
  }

  lemma HeaderOutside(s: Stack, i: nat, x: nat)
    requires Ordered(s) && i < |s.frames| && x < s.frames[i].payload <= x + HEADER
    ensures !InPayload(s, x)
  {
    forall j | 0 <= j < |s.frames| ensures !(s.frames[j].payload <= x < s.frames[j].payload + s.frames[j].size) {
      if j < i {
        HeadersApart(s, j, i);
      } else if i < j {
        HeadersApart(s, i, j);
      }
    }
  }

  /** Whatever callers write into their payloads, every header stays right. */
  lemma PayloadWritesHarmless(s: Stack, m: seq<int>, n: seq<int>)
    requires Ordered(s) && HeadersRight(s, m) && |n| == |m|
    requires forall x :: 0 <= x < |m| && m[x] != n[x] ==> InPayload(s, x)
    ensures HeadersRight(s, n)
  {
    hide Ordered, InPayload;
    forall i | 0 <= i < |s.frames| ensures HeaderRight(s, n, i) {
      assert HeaderRight(s, m, i);
      var p := s.frames[i].payload;
      HeaderOutside(s, i, p - 16);
      HeaderOutside(s, i, p - 8);
    }
  }

  /** A header written above the top leaves the older ones right. */
  lemma PushHeaders(s: Stack, m: seq<int>, f: Frame)
    requires Ordered(s) && HeadersRight(s, m) && Top(s) + HEADER <= f.payload <= |m|
    ensures HeadersRight(s.(frames := s.frames + [f]), m[f.payload - 16 := Top(s)][f.payload - 8 := Last(s)])
  {
    var r, n := s.(frames := s.frames + [f]), m[f.payload - 16 := Top(s)][f.payload - 8 := Last(s)];
    forall i | 0 <= i < |r.frames| ensures HeaderRight(r, n, i) {
      assert r.frames[..i] == s.frames[..i];
      if i == |s.frames| {
        assert s.frames[..i] == s.frames;
      } else {
        assert HeaderRight(s, m, i);
        FrameBelowTop(s, i);
      }
    }
  }

  lemma FrameBelowTop(s: Stack, i: nat)
    requires Ordered(s) && i < |s.frames|
    ensures s.frames[i].payload <= Top(s)
  {
    if i < |s.frames| - 1 {
      HeadersApart(s, i, |s.frames| - 1);
    }
  }

  lemma PopHeaders(s: Stack, m: seq<int>, n: nat)
    requires HeadersRight(s, m) && n <= |s.frames|
    ensures HeadersRight(Below(s, n), m)
  {
    forall i | 0 <= i < n ensures HeaderRight(Below(s, n), m, i) {
      assert HeaderRight(s, m, i);
      BelowBelow(s, i, n);
    }
  }

  // ----- Runs -----

  /** How many of the first n frames are still there to be freed. */
  function Kept(n: nat, q: Request): (r: nat) {
    if q.Rewind? then 0 else n
  }

  /** Requests none of which frees one of the first n frames. Each is made to a stack that is in order, so a push that
      wraps is the last. */
  ghost predicate RunAbove(s: Stack, n: nat, qs: seq<Request>)
    decreases |qs|
  {
    && n <= |s.frames|
    && (qs == [] || (Ordered(s) && Legal(s, qs[0]) && RunAbove(Step(s, qs[0]), Kept(n, qs[0]), qs[1..])))
  }

  ghost function Run(s: Stack, n: nat, qs: seq<Request>): (r: Stack)
    requires RunAbove(s, n, qs)
    decreases |qs|
  {
    if qs == [] then s else Run(Step(s, qs[0]), Kept(n, qs[0]), qs[1..])
  }

  /** Some push of the run wraps to a value within the capacity. */
  ghost predicate SomeWraps(s: Stack, n: nat, qs: seq<Request>)
    requires RunAbove(s, n, qs)
    decreases |qs|
  {
    qs != [] && (Wraps(s, qs[0]) || SomeWraps(Step(s, qs[0]), Kept(n, qs[0]), qs[1..]))
  }

  /** The stack is in order after a run, which ends with its first wrapped push if there is one, if and only if no push
      of the run wrapped. */
  lemma {:induction false} RunOrderedIff(s: Stack, n: nat, qs: seq<Request>)
    requires Ordered(s) && RunAbove(s, n, qs)
    ensures Ordered(Run(s, n, qs)) <==> !SomeWraps(s, n, qs)
    decreases |qs|
  {
    hide Ordered, Step, Wraps, Legal;
    if qs != [] {
      StepOrderedIff(s, qs[0]);
      if Ordered(Step(s, qs[0])) {
        RunOrderedIff(Step(s, qs[0]), Kept(n, qs[0]), qs[1..]);
      }
    }
  }

  predicate NoRewind(qs: seq<Request>) {
    forall i :: 0 <= i < |qs| ==> !qs[i].Rewind?
  }

  /** Whatever is pushed and popped above them, the older frames stay. */
  lemma {:induction false} OlderFramesStay(s: Stack, n: nat, qs: seq<Request>)
    requires RunAbove(s, n, qs) && NoRewind(qs)
    ensures var r := Run(s, n, qs);
            r.cap == s.cap && r.base == s.base && n <= |r.frames| && r.frames[..n] == s.frames[..n]
    decreases |qs|
  {
    hide Ordered, PayloadAt;
    if qs != [] {
      var t := Step(s, qs[0]);
      assert t.frames[..n] == s.frames[..n];
      OlderFramesStay(t, n, qs[1..]);
    }
  }

  /** A balanced run of pushes and pops restores the top, the last payload and every frame. */
  lemma BalancedRestores(s: Stack, qs: seq<Request>)
    requires NoRewind(qs) && RunAbove(s, |s.frames|, qs) && |Run(s, |s.frames|, qs).frames| == |s.frames|
    ensures var r := Run(s, |s.frames|, qs); r == s && Top(r) == Top(s) && Last(r) == Last(s)
  {
    OlderFramesStay(s, |s.frames|, qs);
    var r := Run(s, |s.frames|, qs);
    assert r.frames == r.frames[..|s.frames|] == s.frames[..|s.frames|] == s.frames;
  }

  // ----- Marks -----

  /** The end of the payload wraps to a value below the mark. */
  predicate Sinks(s: Stack, q: Request, mark: nat)
    requires Legal(s, q)
  {
    match q
    case Push(size, k) =>
      Pow2Bound(k);
      WORD <= PayloadAt(Top(s), Pow2(k)) + size < WORD + mark
    case Pop => false
    case Rewind(m) => false
  }

  ghost predicate SomeSinks(s: Stack, n: nat, qs: seq<Request>, mark: nat)
    requires RunAbove(s, n, qs)
    decreases |qs|
  {
    qs != [] && (Sinks(s, qs[0], mark) || SomeSinks(Step(s, qs[0]), Kept(n, qs[0]), qs[1..], mark))
  }

  /** Rewinds inside the run go to marks taken later. */
  predicate RewindsTo(qs: seq<Request>, mark: nat) {
    forall i :: 0 <= i < |qs| && qs[i].Rewind? ==> qs[i].marker >= mark
  }

  lemma StepMark(s: Stack, n: nat, q: Request, mark: nat)
    requires Ordered(s) && Legal(s, q) && n <= |s.frames| && mark <= Top(Below(s, n))
    requires Kept(n, q) <= |Step(s, q).frames| && (q.Rewind? ==> q.marker >= mark)
    ensures !Wraps(s, q) ==> mark <= Top(Below(Step(s, q), Kept(n, q))) && !Sinks(s, q, mark)
    ensures Wraps(s, q) ==> (mark <= Top(Step(s, q)) <==> !Sinks(s, q, mark))
  {
    hide Ordered, PayloadAt, Pow2;
    TopInside(s);
    MarkBelowTop(s, n);
    match q {
      case Push(size, k) =>
        Pow2Bound(k);
        Placement(Top(s), k);
        CheckExactIff(Top(s), size, k, s.cap);
        assert Step(s, q).frames[..n] == s.frames[..n];
      case Pop => assert Step(s, q).frames[..n] == s.frames[..n];
      case Rewind(m) =>
    }
  }

  lemma MarkBelowTop(s: Stack, n: nat)
    requires Ordered(s) && n <= |s.frames|
    ensures Top(Below(s, n)) <= Top(s)
  {
    if n < |s.frames| {
      TopBelow(s, n);
    } else {
      assert s.frames[..n] == s.frames;
    }
  }

  lemma {:induction false} MarkKept(s: Stack, n: nat, qs: seq<Request>, mark: nat)
    requires Ordered(s) && RunAbove(s, n, qs) && mark <= Top(Below(s, n)) && RewindsTo(qs, mark)
    ensures mark <= Top(Run(s, n, qs)) <==> !SomeSinks(s, n, qs, mark)
    decreases |qs|
  {
    if qs == [] {
      MarkBelowTop(s, n);
    } else {
      assert forall i :: 0 <= i < |qs[1..]| ==> qs[1..][i] == qs[i + 1];
      hide Ordered, Step, Wraps, Sinks, Legal, Top, Below;
      StepOrderedIff(s, qs[0]);
      StepMark(s, n, qs[0], mark);
      if !Wraps(s, qs[0]) {
        MarkKept(Step(s, qs[0]), Kept(n, qs[0]), qs[1..], mark);
      }
    }
  }

  /** Mark, activity, rewind. Let a run, which ends with its first wrapped push if there is one, free nothing older than
      the mark and rewind only to later marks. Then the mark is at or below the top, so that the stack can be rewound to
      it, if and only if no push of the run wrapped to a value below the mark. */
  lemma MarkStaysIff(s: Stack, qs: seq<Request>)
    requires Ordered(s) && RunAbove(s, |s.frames|, qs) && RewindsTo(qs, Top(s))
    ensures Legal(Run(s, |s.frames|, qs), Rewind(Top(s))) <==> !SomeSinks(s, |s.frames|, qs, Top(s))
    ensures !SomeSinks(s, |s.frames|, qs, Top(s)) ==> Top(Step(Run(s, |s.frames|, qs), Rewind(Top(s)))) == Top(s)
  {
    assert s.frames[..|s.frames|] == s.frames;
    MarkKept(s, |s.frames|, qs, Top(s));
  }

  /** For example: 184 bytes on an empty stack, a mark at 200, then a push of 2^64 - 150 bytes, which is accepted and
      leaves the top at 74. */
  lemma MarkLost()
    ensures var e := Stack(4096, 0, []);
            && Legal(e, Push(184, 4))
            && var s := Step(e, Push(184, 4));
               && Top(s) == 200 && Ordered(s) && RunAbove(s, |s.frames|, [Push(WORD - 150, 4)])
               && Top(Run(s, |s.frames|, [Push(WORD - 150, 4)])) == 74
  {
    hide And, Pow2, PayloadAt;
    Pow2Small();
    var e := Stack(4096, 0, []);
    assert Aligned(16, 4) && Aligned(200, 3) && Aligned(224, 4) by {
      assert Aligned(8, 3) && Aligned(4, 2) && Aligned(2, 1) && Aligned(1, 0);
      assert Aligned(100, 2) && Aligned(50, 1) && Aligned(25, 0);
      assert Aligned(112, 3) && Aligned(56, 2) && Aligned(28, 1) && Aligned(14, 0);
    }
    ZeroAligned(3);
    hide Aligned;
    PayloadSixteen(0, 16);
    PayloadSixteen(200, 224);
    var s := Step(e, Push(184, 4));
    assert s == Stack(4096, 0, [Frame(16, 184, 200)]);
    assert s.frames[..0] == [];
    assert [Push(WORD - 150, 4)][1..] == [];
  }

  // ----- The allocator -----

  class Allocator {
    const cap: nat
    const mem: array<int>  // the word stored at each byte offset
    var top: nat
    var last: int
    var used: nat
    var peak: nat
    var allocCalls: nat
    var freeCalls: nat
    var failed: nat
    ghost var model: Stack

    ghost predicate Valid()
      reads this, mem
    {
      && model.cap == cap == mem.Length && Ordered(model) && HeadersRight(model, mem[..])
      && top == Top(model) && last == Last(model) && used == top <= peak
    }

    constructor (cap: nat)
      ensures Valid() && fresh(mem) && model == Stack(cap, 0, [])
    {
      this.cap := cap;
      mem := new int[cap];
      top, last, used, peak, allocCalls, freeCalls, failed := 0, NONE, 0, 0, 0, 0, 0;
      model := Stack(cap, 0, []);
    }

    /** st_allocate. Nothing below the old top is written. The stack stays in order if and only if the end of the
        payload does not wrap to a value within the capacity. */
    method Allocate(size: nat, alignment: nat, ghost k: nat) returns (p: Option<nat>)
      requires Valid() && Legal(model, Push(size, k)) && alignment == Pow2(k) && 1 <= alignment <= WORD
      modifies this, mem
      ensures model == Step(old(model), Push(size, k)) && top == Top(model) && last == Last(model) && used == top
      ensures Valid() <==> !Wraps(old(model), Push(size, k))
      ensures p == if old(NewTop(top, size, alignment)) <= cap then Some(old(PayloadAt(top, alignment))) else None
      ensures Valid() ==> (p.Some? <==> old(PayloadAt(top, alignment)) + size <= cap)
      ensures p.Some? ==> Aligned(p.value, k) && last == p.value
      ensures forall x :: 0 <= x < old(top) ==> x < cap && mem[x] == old(mem[x])
      ensures allocCalls == old(allocCalls) + 1 && freeCalls == old(freeCalls)
      ensures failed == old(failed) + (if p.None? then 1 else 0)
      ensures peak == if used > old(peak) then used else old(peak)
    {
      hide Ordered, HeadersRight, PayloadAt, Aligned, Pow2;
      allocCalls := allocCalls + 1;
      TopInside(model);
      Placement(top, k);
      CheckExactIff(top, size, k, cap);
      StepOrderedIff(model, Push(size, k));
      var payload := PayloadAt(top, alignment);
      var newTop := (payload + size) % WORD;
      if newTop > cap {
        failed := failed + 1;
        return None;
      }
      PushFrame(payload, size, newTop);
      return Some(payload);
    }

    /** Writes the header, as far as it lies inside the memory, and moves the top. */
    method PushFrame(payload: nat, size: nat, newTop: nat)
      requires Valid() && top + HEADER <= payload && newTop <= cap
      modifies this`top, this`last, this`used, this`peak, this`model, mem
      ensures model == old(model).(frames := old(model).frames + [Frame(payload, size, newTop)])
      ensures top == newTop == used && last == payload && peak == if used > old(peak) then used else old(peak)
      ensures top == Top(model) && last == Last(model)
      ensures newTop == payload + size ==> Valid()
      ensures forall x :: 0 <= x < old(top) ==> x < cap && mem[x] == old(mem[x])
    {
      hide Ordered, HeadersRight, Top, Last, Below;
      ghost var s, m := model, mem[..];
      TopInside(s);
      PushTop(s, Frame(payload, size, newTop));
      if payload - 16 < cap {
        mem[payload - 16] := top;
      }
      if payload - 8 < cap {
        mem[payload - 8] := last;
      }
      model := s.(frames := s.frames + [Frame(payload, size, newTop)]);
      top, last := newTop, payload;
      used := top;
      if top > peak {
        peak := top;
      }
      if newTop == payload + size {
        PushOrdered(s, Frame(payload, size, newTop));
        PushHeaders(s, m, Frame(payload, size, newTop));
        assert mem[..] == m[payload - 16 := Top(s)][payload - 8 := Last(s)];
      }
    }

    /** st_deallocate: the newest payload is popped; any other pointer is ignored. */
    method Deallocate(p: Option<nat>)
      requires Valid()
      modifies this
      ensures Valid()
      ensures model == if p.Some? && p.value == old(last) then Step(old(model), Pop) else old(model)
      ensures freeCalls == old(freeCalls) + (if p.None? then 0 else 1)
      ensures allocCalls == old(allocCalls) && failed == old(failed)
      ensures peak == old(peak)
    {
      hide Ordered;
      if p.None? {
        return;
      }
      freeCalls := freeCalls + 1;
      if p.value != last {
        return;
      }
      ghost var s, n := model, |model.frames| - 1;
      PopOrdered(s, n);
      PopHeaders(s, mem[..], n);
      assert HeaderRight(s, mem[..], n);
      hide HeadersRight;
      model := Below(s, n);
      TopBelow(s, n);
      top := mem[p.value - 16];
      used := top;
      last := mem[p.value - 8];
    }

    /** hf_stack_mark */
    method Mark() returns (m: nat)
      requires Valid()
      ensures m == Top(model)
    {
      m := top;
    }

    /** hf_stack_rewind: back to a mark at or below the top; the frames above the mark are gone and the ones
        below it can no longer be freed singly. */
    method Rewind(marker: nat)
      requires Valid() && marker <= top
      modifies this
      ensures Valid() && model == Step(old(model), Request.Rewind(marker)) && top == marker && last == NONE
      ensures allocCalls == old(allocCalls) && freeCalls == old(freeCalls) && failed == old(failed)
      ensures peak == old(peak)
    {
      TopInside(model);
      top := marker;
      used := top;
      last := NONE;
      model := Stack(cap, marker, []);
    }
  }

  lemma PushTop(s: Stack, f: Frame)
    ensures var r := s.(frames := s.frames + [f]); Top(r) == f.end && Last(r) == f.payload
  {
  }

  lemma TopBelow(s: Stack, n: nat)
    requires Ordered(s) && n < |s.frames|
    ensures Top(Below(s, n)) <= s.frames[n].payload <= Top(s)
  {
    FrameBelowTop(s, n);
  }
}
