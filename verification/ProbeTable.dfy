/** An open-addressing table as a sequence of entries: linear probing from the key's hash, and why a
    probe that meets a hole has seen enough. */
module ProbeTable {
  import opened Powers
  import opened Platform

  /** A slot of the table; user 0 is the null key of an unoccupied slot. */
  datatype Entry = Entry(user: nat, raw: nat, size: nat, freed: bool)

  const VACANT := Entry(0, 0, 0, false)

  const MIX: nat := 0xff51afd7ed558ccd

  lemma {:induction false} AndAtMost(x: nat, y: nat)
    ensures And(x, y) <= y
    decreases x + y
  {
    if x > 0 || y > 0 {
      AndAtMost(x / 2, y / 2);
    }
  }

  /** The mixing of dh_hash, on 64-bit words. */
  function Mixed(p: nat): (x: nat) {
    var x := (Xor(p, Shr(p, 33)) * MIX) % WORD;
    Xor(x, Shr(x, 33))
  }

  /** dh_hash */
  function Hash(p: nat, cap: nat): (i: nat)
    requires cap > 0
    ensures i < cap
  {
    AndAtMost(Mixed(p), cap - 1);
    And(Mixed(p), cap - 1)
  }

  lemma {:induction false} SameBits(x: nat, y: nat)
    requires forall k: nat :: Bit(x, k) == Bit(y, k)
    ensures x == y
    decreases x + y
  {
    if x > 0 || y > 0 {
      assert Bit(x, 0) == Bit(y, 0);
      forall k: nat ensures Bit(x / 2, k) == Bit(y / 2, k) {
        assert Bit(x, k + 1) == Bit(y, k + 1);
      }
      SameBits(x / 2, y / 2);
    }
  }

  lemma {:induction false} NoHighBits(x: nat, w: nat, k: nat)
    requires x < Pow2(w) && w <= k
    ensures !Bit(x, k)
  {
    if w == 0 {
      ZeroBits(k);
    } else {
      NoHighBits(x / 2, w - 1, k - 1);
    }
  }

  /** Bit k of x ^ (x >> s) and the bits of x above it give bit k of x. */
  lemma {:induction false} FoldBit(x: nat, y: nat, s: nat, w: nat, k: nat)
    requires s > 0 && x < Pow2(w) && y < Pow2(w) && Xor(x, Shr(x, s)) == Xor(y, Shr(y, s))
    ensures Bit(x, k) == Bit(y, k)
    decreases w - k
  {
    hide Xor, Shr, Bit, Pow2;
    if k >= w {
      NoHighBits(x, w, k);
      NoHighBits(y, w, k);
    } else {
      FoldBit(x, y, s, w, k + s);
      XorBits(x, Shr(x, s), k);
      XorBits(y, Shr(y, s), k);
      ShrBits(x, s, k);
      ShrBits(y, s, k);
    }
  }

  lemma FoldInjective(x: nat, y: nat, s: nat)
    requires s > 0 && x < WORD && y < WORD && Xor(x, Shr(x, s)) == Xor(y, Shr(y, s))
    ensures x == y
  {
    hide Xor, Shr, Bit, Pow2;
    WordIsPow2();
    forall k: nat ensures Bit(x, k) == Bit(y, k) {
      FoldBit(x, y, s, 64, k);
    }
    SameBits(x, y);
  }

  lemma MixProductInjective(x: nat, y: nat)
    requires x < WORD && y < WORD && (x * MIX) % WORD == (y * MIX) % WORD
    ensures x == y
  {
    assert MIX * 5725274745694666757 == 5710046619856821070 * WORD + 1;
    ProductUndone(x, MIX, 5725274745694666757, 5710046619856821070);
    ProductUndone(y, MIX, 5725274745694666757, 5710046619856821070);
  }

  lemma {:induction false} ShrLess(x: nat, s: nat)
    ensures Shr(x, s) <= x
  {
    if s > 0 {
      ShrLess(x / 2, s - 1);
    }
  }

  /** Before it is cut to the size of the table, the hash tells all 64-bit pointers apart. */
  lemma MixedInjective(p: nat, q: nat)
    requires p < WORD && q < WORD && Mixed(p) == Mixed(q)
    ensures p == q
  {
    hide Xor, Shr, Pow2;
    WordIsPow2();
    var x, y := Xor(p, Shr(p, 33)), Xor(q, Shr(q, 33));
    ShrLess(p, 33);
    ShrLess(q, 33);
    XorBound(p, Shr(p, 33), 64);
    XorBound(q, Shr(q, 33), 64);
    FoldInjective((x * MIX) % WORD, (y * MIX) % WORD, 33);
    MixProductInjective(x, y);
    FoldInjective(p, q, 33);
  }

  /** Cutting keeps the low bits. */
  lemma {:induction false} LowBits(x: nat, w: nat, k: nat)
    ensures Bit(And(x, Pow2(w) - 1), k) <==> k < w && Bit(x, k)
  {
    if w == 0 {
      AndAtMost(x, 0);
      ZeroBits(k);
    } else {
      assert (Pow2(w) - 1) / 2 == Pow2(w - 1) - 1 && (Pow2(w) - 1) % 2 == 1;
      assert And(x, Pow2(w) - 1) / 2 == And(x / 2, Pow2(w - 1) - 1);
      if k > 0 {
        LowBits(x / 2, w - 1, k - 1);
      }
    }
  }

  lemma {:induction false} AndWrap(k: nat)
    ensures And(Pow2(k), Pow2(k) - 1) == 0
  {
    if k > 0 {
      AndWrap(k - 1);
      assert (Pow2(k) - 1) / 2 == Pow2(k - 1) - 1;
    }
  }

  /** The m-th slot of the probe that starts at h. */
  function Slot(h: nat, m: nat, cap: nat): (i: nat)
    requires h < cap && m <= cap
    ensures i < cap
  {
    if h + m < cap then h + m else h + m - cap
  }

  /** When the probe that starts at h gets to slot j. */
  function Dist(h: nat, j: nat, cap: nat): (m: nat)
    requires h < cap && j < cap
    ensures m < cap && Slot(h, m, cap) == j
  {
    if h <= j then j - h else j + cap - h
  }

  /** Masking with a power of two steps through the table cyclically. */
  lemma NextSlot(h: nat, m: nat, k: nat)
    requires h < Pow2(k) && m < Pow2(k)
    ensures And(Slot(h, m, Pow2(k)) + 1, Pow2(k) - 1) == Slot(h, m + 1, Pow2(k))
  {
    var i := Slot(h, m, Pow2(k));
    if i + 1 < Pow2(k) {
      AndLowMask(i + 1, k);
    } else {
      AndWrap(k);
    }
  }

  // ----- Well-formed tables -----

  /** `at` gives each key its slot, and every occupied slot is given. */
  ghost predicate Located(t: seq<Entry>, at: map<nat, nat>) {
    && (forall u :: u in at ==> u != 0 && at[u] < |t| && t[at[u]].user == u)
    && (forall j :: 0 <= j < |t| && t[j].user != 0 ==> t[j].user in at && at[t[j].user] == j)
  }

  ghost predicate Clean(t: seq<Entry>) {
    forall j :: 0 <= j < |t| && t[j].user == 0 ==> !t[j].freed
  }

  /** The first n slots of u's probe are occupied by other keys. */
  ghost predicate Passed(t: seq<Entry>, u: nat, n: nat)
    requires |t| > 0 && n <= |t|
  {
    forall m :: 0 <= m < n ==> t[Slot(Hash(u, |t|), m, |t|)].user != 0 && t[Slot(Hash(u, |t|), m, |t|)].user != u
  }

  /** No hole between a key's hash and its slot. */
  ghost predicate Chained(t: seq<Entry>, at: map<nat, nat>) {
    |t| > 0 && forall u :: u in at && at[u] < |t| ==> Passed(t, u, Dist(Hash(u, |t|), at[u], |t|))
  }

  ghost predicate Table(t: seq<Entry>, at: map<nat, nat>) {
    Located(t, at) && Clean(t) && Chained(t, at)
  }

  ghost function Entries(t: seq<Entry>, at: map<nat, nat>): (m: map<nat, Entry>)
    requires Located(t, at)
    ensures m.Keys == at.Keys
  {
    map u | u in at :: t[at[u]]
  }

  lemma TableFacts(t: seq<Entry>, at: map<nat, nat>)
    requires Table(t, at)
    ensures Located(t, at) && |t| > 0
  {
  }

  lemma SameSize(t: seq<Entry>, at: map<nat, nat>)
    requires Located(t, at)
    ensures |Entries(t, at)| == |at|
  {
    assert |Entries(t, at).Keys| == |at.Keys|;
  }

  lemma VacantTable(t: seq<Entry>)
    requires |t| > 0 && forall j :: 0 <= j < |t| ==> t[j] == VACANT
    ensures Table(t, map[]) && Entries(t, map[]) == map[]
  {
  }

  // ----- Probing -----

  /** The probe for a known key passes nothing but other keys until it gets to the key's slot. */
  lemma KnownAhead(t: seq<Entry>, at: map<nat, nat>, u: nat, n: nat)
    requires Table(t, at) && u in at && n <= |t| && Passed(t, u, n)
    ensures n <= Dist(Hash(u, |t|), at[u], |t|)
    ensures t[Slot(Hash(u, |t|), n, |t|)].user != 0
  {
    hide Hash;
    var d := Dist(Hash(u, |t|), at[u], |t|);
    assert t[Slot(Hash(u, |t|), d, |t|)].user == u;
    assert Passed(t, u, d);
  }

  /** A probe that passed n other keys and then meets a hole proves the key absent. */
  lemma AbsentAtHole(t: seq<Entry>, at: map<nat, nat>, u: nat, n: nat)
    requires Table(t, at) && n < |t| && Passed(t, u, n) && t[Slot(Hash(u, |t|), n, |t|)].user == 0
    ensures u !in at
  {
    hide Hash;
    if u in at {
      KnownAhead(t, at, u, n);
    }
  }

  /** So does a whole lap of other keys. */
  lemma AbsentAfterLap(t: seq<Entry>, at: map<nat, nat>, u: nat)
    requires Table(t, at) && Passed(t, u, |t|)
    ensures u !in at
  {
    hide Hash;
    if u in at {
      KnownAhead(t, at, u, |t|);
    }
  }

  lemma PassNone(t: seq<Entry>, u: nat)
    requires |t| > 0
    ensures Passed(t, u, 0)
  {
  }

  lemma PassOne(t: seq<Entry>, u: nat, n: nat)
    requires n < |t| && Passed(t, u, n)
    requires var e := t[Slot(Hash(u, |t|), n, |t|)]; e.user != 0 && e.user != u
    ensures Passed(t, u, n + 1)
  {
    hide Hash;
  }

  // ----- Storing -----

  /** A new key in the hole its probe found. */
  lemma StoreNew(t: seq<Entry>, at: map<nat, nat>, n: nat, e: Entry)
    requires Table(t, at) && e.user != 0 && n < |t| && Passed(t, e.user, n)
    requires t[Slot(Hash(e.user, |t|), n, |t|)].user == 0
    ensures var j := Slot(Hash(e.user, |t|), n, |t|);
            && e.user !in at
            && Table(t[j := e], at[e.user := j])
            && Entries(t[j := e], at[e.user := j]) == Entries(t, at)[e.user := e]
  {
    hide Hash;
    AbsentAtHole(t, at, e.user, n);
    var u := e.user;
    var j := Slot(Hash(u, |t|), n, |t|);
    var r, a := t[j := e], at[u := j];
    StillLocated(t, at, j, e);
    forall v | v in a && a[v] < |r| ensures Passed(r, v, Dist(Hash(v, |t|), a[v], |t|)) {
      if v == u {
        LapDistinct(Hash(u, |t|), n, |t|);
        PassedKept(t, j, e, u, n);
      } else {
        assert Passed(t, v, Dist(Hash(v, |t|), at[v], |t|));
        PassedKept(t, j, e, v, Dist(Hash(v, |t|), at[v], |t|));
      }
    }
    hide Passed, Located;
    assert Entries(r, a) == Entries(t, at)[u := e];
  }

  lemma LapDistinct(h: nat, n: nat, cap: nat)
    requires h < cap && n < cap
    ensures Dist(h, Slot(h, n, cap), cap) == n
    ensures forall m :: 0 <= m < n ==> Slot(h, m, cap) != Slot(h, n, cap)
  {
  }

  lemma StillLocated(t: seq<Entry>, at: map<nat, nat>, j: nat, e: Entry)
    requires Located(t, at) && j < |t| && t[j].user == 0 && e.user != 0 && e.user !in at
    ensures Located(t[j := e], at[e.user := j])
    ensures Entries(t[j := e], at[e.user := j]) == Entries(t, at)[e.user := e]
  {
  }

  /** Filling a hole with another key breaks no probe. */
  lemma PassedKept(t: seq<Entry>, j: nat, e: Entry, v: nat, n: nat)
    requires j < |t| && n <= |t| && e.user != 0 && Passed(t, v, n)
    requires e.user != v || forall m :: 0 <= m < n ==> Slot(Hash(v, |t|), m, |t|) != j
    ensures Passed(t[j := e], v, n)
  {
    hide Hash;
    var r := t[j := e];
    forall m | 0 <= m < n ensures r[Slot(Hash(v, |t|), m, |t|)].user != 0 && r[Slot(Hash(v, |t|), m, |t|)].user != v {
      assert t[Slot(Hash(v, |t|), m, |t|)].user != 0;
    }
  }

  /** A known key keeps its slot. */
  lemma StoreKnown(t: seq<Entry>, at: map<nat, nat>, j: nat, e: Entry)
    requires Table(t, at) && j < |t| && e.user != 0 && t[j].user == e.user
    ensures Table(t[j := e], at) && Entries(t[j := e], at) == Entries(t, at)[e.user := e]
  {
    hide Hash;
    var r := t[j := e];
    assert Located(r, at);
    forall v | v in at && at[v] < |r| ensures Passed(r, v, Dist(Hash(v, |t|), at[v], |t|)) {
      SameUsersPassed(t, r, v, Dist(Hash(v, |t|), at[v], |t|));
    }
  }

  lemma SameUsersPassed(t: seq<Entry>, r: seq<Entry>, v: nat, n: nat)
    requires |t| == |r| && 0 < |t| && n <= |t| && Passed(t, v, n) && forall i :: 0 <= i < |t| ==> t[i].user == r[i].user
    ensures Passed(r, v, n)
  {
    hide Hash;
  }

  // ----- Room -----

  lemma SubsetSize<T>(a: set<T>, b: set<T>)
    requires a <= b
    ensures |a| <= |b|
  {
    assert b == a + (b - a);
  }

  lemma {:induction false} KeysOfPrefix(t: seq<Entry>, at: map<nat, nat>, n: nat)
    requires Located(t, at) && n <= |t| && forall j :: 0 <= j < n ==> t[j].user != 0
    ensures |set j | 0 <= j < n :: t[j].user| == n
  {
    if n > 0 {
      KeysOfPrefix(t, at, n - 1);
      var s := set j | 0 <= j < n - 1 :: t[j].user;
      var u := t[n - 1].user;
      forall j | 0 <= j < n - 1 ensures t[j].user != u {
        assert at[t[j].user] == j && at[u] == n - 1;
      }
      assert (set j | 0 <= j < n :: t[j].user) == s + {u};
    }
  }

  lemma FullTable(t: seq<Entry>, at: map<nat, nat>)
    requires Located(t, at) && forall j :: 0 <= j < |t| ==> t[j].user != 0
    ensures |t| <= |at|
  {
    KeysOfPrefix(t, at, |t|);
    SubsetSize(set j | 0 <= j < |t| :: t[j].user, at.Keys);
  }

  /** With fewer keys than slots there is a hole. */
  lemma HoleExists(t: seq<Entry>, at: map<nat, nat>) returns (j: nat)
    requires Located(t, at) && |at| < |t|
    ensures j < |t| && t[j].user == 0
  {
    if forall i :: 0 <= i < |t| ==> t[i].user != 0 {
      FullTable(t, at);
    }
    j :| 0 <= j < |t| && t[j].user == 0;
  }
}
