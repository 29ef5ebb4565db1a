/** The checksum of log records and watermark slots: xor a byte, multiply by an odd prime, modulo 2^64. */
module Checksum {
  import opened Powers
  import opened Platform

  const BASIS: nat := 1469598103934665603  // the code's own start value
  const PRIME: nat := 1099511628211

  function Mix(h: nat, b: nat): (r: nat)
    ensures r < WORD
  {
    (Xor(h, b) * PRIME) % WORD
  }

  function HashFrom(h: nat, data: seq<nat>): (r: nat)
    decreases |data|
  {
    if data == [] then h else HashFrom(Mix(h, data[0]), data[1..])
  }

  function Hash(data: seq<nat>): (r: nat) {
    HashFrom(BASIS, data)
  }

  method Fnv1a(data: seq<nat>) returns (h: nat)
    ensures h == Hash(data) && (data == [] ==> h == 1469598103934665603)
  {
    h := BASIS;
    for i := 0 to |data|
      invariant HashFrom(h, data[i..]) == Hash(data)
    {
      h := Xor(h, data[i]);
      h := (h * PRIME) % WORD;
    }
  }

  // ----- Each round is a bijection -----

  lemma {:induction false} XorCancel(h: nat, g: nat, b: nat)
    requires Xor(h, b) == Xor(g, b)
    ensures h == g
    decreases h + g + b
  {
    if h != 0 || g != 0 || b != 0 {
      XorDigit(h, b);
      XorDigit(g, b);
      XorCancel(h / 2, g / 2, b / 2);
    }
  }

  lemma {:induction false} XorSame(h: nat, b: nat, c: nat)
    requires Xor(h, b) == Xor(h, c)
    ensures b == c
    decreases h + b + c
  {
    if h != 0 || b != 0 || c != 0 {
      XorDigit(h, b);
      XorDigit(h, c);
      XorSame(h / 2, b / 2, c / 2);
    }
  }

  lemma XorDigit(x: nat, y: nat)
    ensures Xor(x, y) / 2 == Xor(x / 2, y / 2) && Xor(x, y) % 2 == (if x % 2 != y % 2 then 1 else 0)
  {
  }

  lemma {:induction false} XorZero(h: nat)
    ensures Xor(h, 0) == h
  {
    if h != 0 {
      XorZero(h / 2);
    }
  }

  const INVERSE: nat := 14886173955864302971

  /** Multiplying by the prime is undone by multiplying by its inverse, so it loses nothing modulo 2^64. */
  lemma PrimeCancel(x: nat, y: nat)
    requires x < WORD && y < WORD && (x * PRIME) % WORD == (y * PRIME) % WORD
    ensures x == y
  {
    UndoPrime(x);
    UndoPrime(y);
  }

  lemma UndoPrime(x: nat)
    requires x < WORD
    ensures (((x * PRIME) % WORD) * INVERSE) % WORD == x
  {
    assert PRIME * INVERSE == 887285111055 * WORD + 1;
    ProductUndone(x, PRIME, INVERSE, 887285111055);
  }

  lemma MixCancelHash(h: nat, g: nat, b: nat)
    requires h < WORD && g < WORD && b < 256 && Mix(h, b) == Mix(g, b)
    ensures h == g
  {
    WordIsPow2();
    XorBound(h, b, 64);
    XorBound(g, b, 64);
    PrimeCancel(Xor(h, b), Xor(g, b));
    XorCancel(h, g, b);
  }

  lemma MixCancelByte(h: nat, b: nat, c: nat)
    requires h < WORD && b < 256 && c < 256 && Mix(h, b) == Mix(h, c)
    ensures b == c
  {
    WordIsPow2();
    XorBound(h, b, 64);
    XorBound(h, c, 64);
    PrimeCancel(Xor(h, b), Xor(h, c));
    XorSame(h, b, c);
  }

  predicate Bytes(data: seq<nat>) {
    forall i :: 0 <= i < |data| ==> data[i] < 256
  }

  /** Different hash states stay different under equal input. */
  lemma {:induction false} HashKeepsApart(h: nat, g: nat, data: seq<nat>)
    requires h < WORD && g < WORD && h != g && Bytes(data)
    ensures HashFrom(h, data) != HashFrom(g, data)
    decreases |data|
  {
    if data != [] {
      if Mix(h, data[0]) == Mix(g, data[0]) {
        MixCancelHash(h, g, data[0]);
      }
      HashKeepsApart(Mix(h, data[0]), Mix(g, data[0]), data[1..]);
    }
  }

  /** Changing exactly one byte always changes the checksum. */
  lemma {:induction false} OneByteDetected(h: nat, a: seq<nat>, k: nat, v: nat)
    requires h < WORD && Bytes(a) && k < |a| && v < 256 && v != a[k]
    ensures HashFrom(h, a) != HashFrom(h, a[k := v])
    decreases k
  {
    var b := a[k := v];
    if k == 0 {
      if Mix(h, a[0]) == Mix(h, v) {
        MixCancelByte(h, a[0], v);
      }
      assert b[1..] == a[1..];
      HashKeepsApart(Mix(h, a[0]), Mix(h, v), a[1..]);
    } else {
      OneByteDetected(Mix(h, a[0]), a[1..], k - 1, v);
      assert b[1..] == a[1..][k - 1 := v];
    }
  }

  /** The checksum of any stored bytes rejects the same bytes with exactly one of them changed. */
  lemma CorruptByteDetected(a: seq<nat>, b: seq<nat>, k: nat)
    requires Bytes(a) && Bytes(b) && |a| == |b| && k < |a| && a[k] != b[k]
    requires forall i :: 0 <= i < |a| && i != k ==> a[i] == b[i]
    ensures Hash(a) != Hash(b)
  {
    assert b == a[k := b[k]];
    OneByteDetected(BASIS, a, k, b[k]);
  }

  // ----- Fixed values -----

  lemma StartXorA()
    ensures Xor(BASIS, 97) == 1469598103934665698
  {
    hide Xor;
    XorZero(11481235186989575);
    XorDigit(22962470373979150, 1);
    assert Xor(22962470373979150, 1) == 22962470373979151;
    XorDigit(45924940747958300, 3);
    assert Xor(45924940747958300, 3) == 45924940747958303;
    XorDigit(91849881495916600, 6);
    assert Xor(91849881495916600, 6) == 91849881495916606;
    XorDigit(183699762991833200, 12);
    assert Xor(183699762991833200, 12) == 183699762991833212;
    XorDigit(367399525983666400, 24);
    assert Xor(367399525983666400, 24) == 367399525983666424;
    XorDigit(734799051967332801, 48);
    assert Xor(734799051967332801, 48) == 734799051967332849;
    XorDigit(1469598103934665603, 97);
    assert Xor(1469598103934665603, 97) == 1469598103934665698;
  }

  /** What the code returns for no bytes, for a zero byte and for the letter a. */
  lemma FixedValues()
    ensures Hash([]) == 1469598103934665603
    ensures Hash([0]) == 4953163356653287321
    ensures Hash([97]) == 4953267810257967366
  {
    hide Xor;
    XorZero(BASIS);
    StartXorA();
    OneRound(0);
    OneRound(97);
  }

  lemma OneRound(b: nat)
    ensures Hash([b]) == (Xor(BASIS, b) * PRIME) % WORD
  {
    hide Xor;
    assert HashFrom(Mix(BASIS, b), []) == Mix(BASIS, b);
    assert [b][1..] == [];
  }

  // ----- Records and slots as bytes -----

  /** The low `len` bytes of x, least significant first. */
  function LittleEndian(x: nat, len: nat): (s: seq<nat>)
    ensures |s| == len && Bytes(s)
  {
    if len == 0 then [] else [x % 256] + LittleEndian(x / 256, len - 1)
  }

  /** meta_crc: the sequence number and the used count. */
  function MetaCrc(seqNo: nat, used: nat): (c: nat) {
    Hash(LittleEndian(seqNo, 8) + LittleEndian(used, 8))
  }

  /** wal_crc: the sequence number, the operation and the block index. */
  function WalCrc(seqNo: nat, op: nat, index: nat): (c: nat) {
    Hash(LittleEndian(seqNo, 8) + LittleEndian(op, 4) + LittleEndian(index, 4))
  }

  /** rec_crc of the C++ pool: the sequence number, then the operation above the block index in one word. */
  function RecCrc(seqNo: nat, op: nat, index: nat): (c: nat) {
    Hash(LittleEndian(seqNo, 8) + LittleEndian(index, 4) + LittleEndian(op, 4))
  }

  // ----- One corrupt byte in a record or a slot -----

  /** Byte k of x, the least significant first. */
  function ByteAt(x: nat, k: nat): (b: nat) {
    if k == 0 then x % 256 else ByteAt(x / 256, k - 1)
  }

  /** x and y differ in byte k and in no other of the first `len`. */
  ghost predicate OneByteApart(x: nat, y: nat, len: nat, k: nat) {
    k < len && ByteAt(x, k) != ByteAt(y, k) && forall j: nat :: j < len && j != k ==> ByteAt(x, j) == ByteAt(y, j)
  }

  lemma {:induction false} BytesOf(x: nat, len: nat, k: nat)
    requires k < len
    ensures LittleEndian(x, len)[k] == ByteAt(x, k)
  {
    if k > 0 {
      BytesOf(x / 256, len - 1, k - 1);
    }
  }

  /** Two numbers one byte apart give byte sequences one byte apart, whatever stands around them. */
  lemma FieldApart(before: seq<nat>, x: nat, y: nat, len: nat, after: seq<nat>, k: nat)
    requires Bytes(before) && Bytes(after) && OneByteApart(x, y, len, k)
    ensures Hash(before + LittleEndian(x, len) + after) != Hash(before + LittleEndian(y, len) + after)
  {
    hide HashFrom, ByteAt, LittleEndian;
    var a, b := before + LittleEndian(x, len) + after, before + LittleEndian(y, len) + after;
    var n := |before|;
    forall j: nat | j < len
      ensures a[n + j] == ByteAt(x, j) && b[n + j] == ByteAt(y, j)
    {
      BytesOf(x, len, j);
      BytesOf(y, len, j);
    }
    forall i | 0 <= i < |a| && i != n + k ensures a[i] == b[i] {
      if n <= i < n + len {
        assert a[n + (i - n)] == ByteAt(x, i - n) && b[n + (i - n)] == ByteAt(y, i - n);
      }
    }
    CorruptByteDetected(a, b, n + k);
  }

  /** A log record with one byte of its sequence number, operation or block index corrupted fails its check, in the C
      pool and in the C++ pool. */
  lemma CorruptRecordDetected(seqNo: nat, op: nat, index: nat, v: nat, k: nat)
    ensures OneByteApart(seqNo, v, 8, k) ==>
              WalCrc(seqNo, op, index) != WalCrc(v, op, index) && RecCrc(seqNo, op, index) != RecCrc(v, op, index)
    ensures OneByteApart(op, v, 4, k) ==>
              WalCrc(seqNo, op, index) != WalCrc(seqNo, v, index) && RecCrc(seqNo, op, index) != RecCrc(seqNo, v, index)
    ensures OneByteApart(index, v, 4, k) ==>
              WalCrc(seqNo, op, index) != WalCrc(seqNo, op, v) && RecCrc(seqNo, op, index) != RecCrc(seqNo, op, v)
  {
    hide Hash, LittleEndian, OneByteApart;
    var s, o, i := LittleEndian(seqNo, 8), LittleEndian(op, 4), LittleEndian(index, 4);
    if OneByteApart(seqNo, v, 8, k) {
      FieldApart([], seqNo, v, 8, o + i, k);
      FieldApart([], seqNo, v, 8, i + o, k);
      var t := LittleEndian(v, 8);
      assert [] + s + (o + i) == s + o + i && [] + t + (o + i) == t + o + i;
      assert [] + s + (i + o) == s + i + o && [] + t + (i + o) == t + i + o;
    }
    if OneByteApart(op, v, 4, k) {
      var t := LittleEndian(v, 4);
      FieldApart(s, op, v, 4, i, k);
      FieldApart(s + i, op, v, 4, [], k);
      assert s + i + o + [] == s + i + o && s + i + t + [] == s + i + t;
    }
    if OneByteApart(index, v, 4, k) {
      var t := LittleEndian(v, 4);
      FieldApart(s + o, index, v, 4, [], k);
      FieldApart(s, index, v, 4, o, k);
      assert s + o + i + [] == s + o + i && s + o + t + [] == s + o + t;
    }
  }

  /** A watermark slot with one byte of its sequence number or of its used count corrupted fails its check. */
  lemma CorruptSlotDetected(seqNo: nat, used: nat, v: nat, k: nat)
    ensures OneByteApart(seqNo, v, 8, k) ==> MetaCrc(seqNo, used) != MetaCrc(v, used)
    ensures OneByteApart(used, v, 8, k) ==> MetaCrc(seqNo, used) != MetaCrc(seqNo, v)
  {
    hide Hash, LittleEndian, OneByteApart;
    var s, u, t := LittleEndian(seqNo, 8), LittleEndian(used, 8), LittleEndian(v, 8);
    if OneByteApart(seqNo, v, 8, k) {
      FieldApart([], seqNo, v, 8, u, k);
      assert [] + s + u == s + u && [] + t + u == t + u;
    }
    if OneByteApart(used, v, 8, k) {
      FieldApart(s, used, v, 8, [], k);
      assert s + u + [] == s + u && s + t + [] == s + t;
    }
  }

  /** For example: an allocation whose operation is corrupted into a free. */
  lemma CorruptOperationDetected(seqNo: nat, index: nat)
    ensures WalCrc(seqNo, 1, index) != WalCrc(seqNo, 2, index) && RecCrc(seqNo, 1, index) != RecCrc(seqNo, 2, index)
  {
    hide WalCrc, RecCrc;
    forall j: nat | 0 < j < 4 ensures ByteAt(1, j) == ByteAt(2, j) {
      assert ByteAt(1, j) == ByteAt(0, j - 1) && ByteAt(2, j) == ByteAt(0, j - 1);
    }
    CorruptRecordDetected(seqNo, 1, index, 2, 0);
  }

  lemma {:induction false} ZeroBytes(len: nat)
    ensures forall i :: 0 <= i < len ==> LittleEndian(0, len)[i] == 0
  {
    if len > 0 {
      ZeroBytes(len - 1);
    }
  }

  lemma {:induction false} OddStaysOdd(h: nat, data: seq<nat>)
    requires h % 2 == 1 && forall i :: 0 <= i < |data| ==> data[i] == 0
    ensures HashFrom(h, data) % 2 == 1
    decreases |data|
  {
    if data != [] {
      XorZero(h);
      OddTimes(h);
      OddStaysOdd(Mix(h, 0), data[1..]);
    }
  }

  lemma OddProduct(h: nat)
    requires h % 2 == 1
    ensures (h * PRIME) % 2 == 1
  {
    var k := h / 2;
    assert h * PRIME == 2 * (k * PRIME + PRIME / 2) + 1;
  }

  lemma OddRemainder(p: nat)
    requires p % 2 == 1
    ensures (p % WORD) % 2 == 1
  {
    var q := p / WORD;
    LessEven(p, p % WORD, HALF * q);
  }

  lemma LessEven(p: nat, r: nat, k: nat)
    requires p % 2 == 1 && r == p - 2 * k
    ensures r % 2 == 1
  {
    assert r == 2 * (p / 2 - k) + 1;
  }

  lemma OddTimes(h: nat)
    requires h % 2 == 1
    ensures ((h * PRIME) % WORD) % 2 == 1
  {
    OddProduct(h);
    OddRemainder(h * PRIME);
  }

  /** A slot that was never written (all bytes zero, checksum included) is rejected: its checksum is odd. */
  lemma NeverWrittenRejected()
    ensures MetaCrc(0, 0) != 0 && WalCrc(0, 0, 0) != 0
  {
    ZeroBytes(8);
    ZeroBytes(4);
    OddStaysOdd(BASIS, LittleEndian(0, 8) + LittleEndian(0, 8));
    OddStaysOdd(BASIS, LittleEndian(0, 8) + LittleEndian(0, 4) + LittleEndian(0, 4));
  }
}
