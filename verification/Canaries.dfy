/** The guard bytes of the debug heap: four canary bytes before and after every payload, and what writing near them
    comes to. Memory is the byte stored at each address. */
module Canaries {
  import Checksum

  const HEAD: nat := 12  // canary and size
  const CANARY: seq<nat> := [0xEF, 0xBE, 0xAD, 0xDE]
  const FILL: nat := 0xAB
  const POISON: nat := 0xCD

  /** The memory after writing data from address a on. */
  function Put(m: map<nat, nat>, a: nat, data: seq<nat>): (r: map<nat, nat>)
    decreases |data|
  {
    if data == [] then m else Put(m[a := data[0]], a + 1, data[1..])
  }

  ghost predicate SameAt(m: map<nat, nat>, r: map<nat, nat>, i: nat) {
    (i in m <==> i in r) && (i in m ==> m[i] == r[i])
  }

  lemma {:induction false} PutAt(m: map<nat, nat>, a: nat, data: seq<nat>, i: nat)
    ensures var r := Put(m, a, data);
            if a <= i < a + |data| then i in r && r[i] == data[i - a] else SameAt(m, r, i)
    decreases |data|
  {
    if data != [] {
      PutAt(m[a := data[0]], a + 1, data[1..], i);
    }
  }

  function Repeat(v: nat, n: nat): (s: seq<nat>)
    ensures |s| == n
  {
    seq(n, i => v)
  }

  /** write_guards, and the fill pattern of a new payload. */
  function Guarded(m: map<nat, nat>, raw: nat, size: nat): (r: map<nat, nat>) {
    var g := Put(Put(m, raw, CANARY), raw + 4, Checksum.LittleEndian(size, 8));
    Put(Put(g, raw + HEAD + size, CANARY), raw + HEAD, Repeat(FILL, size))
  }

  /** The bytes from address a on are the canary. */
  predicate Reads(m: map<nat, nat>, a: nat) {
    forall i :: a <= i < a + 4 ==> i in m && m[i] == CANARY[i - a]
  }

  /** verify_block: both canaries are there. */
  predicate Intact(m: map<nat, nat>, raw: nat, size: nat) {
    Reads(m, raw) && Reads(m, raw + HEAD + size)
  }

  /** What a new block holds: canaries around the size word, the fill pattern and nothing else changed. */
  lemma GuardedAt(m: map<nat, nat>, raw: nat, size: nat, i: nat)
    ensures var r := Guarded(m, raw, size);
            && (raw <= i < raw + 4 ==> i in r && r[i] == [0xEF, 0xBE, 0xAD, 0xDE][i - raw])
            && (raw + HEAD + size <= i < raw + HEAD + size + 4 ==>
                  i in r && r[i] == [0xEF, 0xBE, 0xAD, 0xDE][i - (raw + HEAD + size)])
            && (raw + 4 <= i < raw + HEAD ==> i in r && r[i] == Checksum.ByteAt(size, i - (raw + 4)))
            && (raw + HEAD <= i < raw + HEAD + size ==> i in r && r[i] == 0xAB)
            && (!(raw <= i < raw + HEAD + size + 4) ==> SameAt(m, r, i))
  {
    hide Put;
    if raw + 4 <= i < raw + HEAD {
      Checksum.BytesOf(size, 8, i - (raw + 4));
    }
    var a := Put(m, raw, CANARY);
    var b := Put(a, raw + 4, Checksum.LittleEndian(size, 8));
    var c := Put(b, raw + HEAD + size, CANARY);
    PutAt(m, raw, CANARY, i);
    PutAt(a, raw + 4, Checksum.LittleEndian(size, 8), i);
    PutAt(b, raw + HEAD + size, CANARY, i);
    PutAt(c, raw + HEAD, Repeat(FILL, size), i);
  }

  /** A new block is intact. */
  lemma GuardedIntact(m: map<nat, nat>, raw: nat, size: nat)
    ensures Intact(Guarded(m, raw, size), raw, size)
  {
    hide Guarded;
    forall i: nat {
      GuardedAt(m, raw, size, i);
    }
  }

  /** Any write, of any length and anywhere, is noticed if and only if it changes a guard byte. */
  lemma DamageSeenIff(m: map<nat, nat>, raw: nat, size: nat, a: nat, data: seq<nat>)
    requires Intact(m, raw, size)
    ensures var tail := raw + HEAD + size;
            !Intact(Put(m, a, data), raw, size) <==>
            exists i :: a <= i < a + |data| && (raw <= i < raw + 4 || tail <= i < tail + 4) &&
              i in m && data[i - a] != m[i]
  {
    hide Put;
    var r := Put(m, a, data);
    forall i: nat ensures if a <= i < a + |data| then i in r && r[i] == data[i - a] else SameAt(m, r, i) {
      PutAt(m, a, data, i);
    }
    var tail := raw + HEAD + size;
    if i :| a <= i < a + |data| && (raw <= i < raw + 4 || tail <= i < tail + 4) && i in m && data[i - a] != m[i] {
      assert i in r && r[i] != m[i];
    }
    if !Intact(r, raw, size) {
      var e := if Reads(r, raw) then raw + HEAD + size else raw;
      var i :| e <= i < e + 4 && !(i in r && r[i] == CANARY[i - e]);
      assert i in m && m[i] == CANARY[i - e];
      assert a <= i < a + |data| && (raw <= i < raw + 4 || tail <= i < tail + 4) && data[i - a] != m[i];
    }
  }

  lemma SameIntact(m: map<nat, nat>, r: map<nat, nat>, raw: nat, size: nat)
    requires forall i: nat :: raw <= i < raw + size + 16 ==> SameAt(m, r, i)
    ensures Intact(m, raw, size) == Intact(r, raw, size)
  {
    SameReads(m, r, raw);
    SameReads(m, r, raw + HEAD + size);
  }

  lemma SameReads(m: map<nat, nat>, r: map<nat, nat>, a: nat)
    requires forall i: nat :: a <= i < a + 4 ==> SameAt(m, r, i)
    ensures Reads(m, a) == Reads(r, a)
  {
    assert SameAt(m, r, a) && SameAt(m, r, a + 1) && SameAt(m, r, a + 2) && SameAt(m, r, a + 3);
    assert Reads(m, a) ==> Reads(r, a) by {
      assert Reads(m, a) ==> forall i :: a <= i < a + 4 ==> SameAt(m, r, i);
    }
  }

  /** Allocating or freeing a block elsewhere leaves the guards as they are. */
  lemma OthersUndisturbed(m: map<nat, nat>, raw: nat, size: nat, other: nat, otherSize: nat, v: nat)
    requires raw + size + 16 <= other || other + otherSize + 16 <= raw
    ensures Intact(Guarded(m, other, otherSize), raw, size) == Intact(m, raw, size)
    ensures Intact(Put(m, other + HEAD, Repeat(v, otherSize)), raw, size) == Intact(m, raw, size)
  {
    hide Put, Guarded, Intact;
    var g, p := Guarded(m, other, otherSize), Put(m, other + HEAD, Repeat(v, otherSize));
    forall i: nat | raw <= i < raw + size + 16 ensures SameAt(m, g, i) && SameAt(m, p, i) {
      GuardedAt(m, other, otherSize, i);
      PutAt(m, other + HEAD, Repeat(v, otherSize), i);
    }
    SameIntact(m, g, raw, size);
    SameIntact(m, p, raw, size);
  }
}
