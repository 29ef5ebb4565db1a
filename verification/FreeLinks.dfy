/** The circular doubly linked free list as it lies in memory. The word at x + 16 of a free block links to
    the next block, the word at x + 24 to the previous one. */
module FreeLinks {
  import opened Seqs
  import opened FreeSpec

  function NextC(s: seq<nat>, i: nat): (n: nat)
    requires i < |s|
  {
    if i + 1 < |s| then s[i + 1] else s[0]
  }

  function PrevC(s: seq<nat>, i: nat): (n: nat)
    requires i < |s|
  {
    if i > 0 then s[i - 1] else s[|s| - 1]
  }

  ghost predicate NodeOk(s: seq<nat>, i: nat, mem: seq<int>)
    requires i < |s|
  {
    s[i] + 24 < |mem| && mem[s[i] + 16] == NextC(s, i) && mem[s[i] + 24] == PrevC(s, i)
  }

  /** Following next from any element visits the list in order and wraps around; prev mirrors it. */
  ghost predicate Circ(s: seq<nat>, mem: seq<int>) {
    forall i :: 0 <= i < |s| ==> NodeOk(s, i, mem)
  }

  function HeadOf(s: seq<nat>): (n: int) {
    if s == [] then NIL else s[0]
  }

  /** Block starts are at least a minimum block apart. */
  ghost predicate Spaced(nodes: set<nat>) {
    forall u, v :: u in nodes && v in nodes && u < v ==> u + MIN_BLOCK <= v
  }

  ghost predicate Within(s: seq<nat>, nodes: set<nat>) {
    forall i :: 0 <= i < |s| ==> s[i] in nodes
  }

  // ----- Insert after the head -----

  ghost function InsertMem(mem: seq<int>, s: seq<nat>, x: nat): (r: seq<int>)
    requires x + 24 < |mem| && (s != [] ==> s[0] + 24 < |mem| && NextC(s, 0) + 24 < |mem|)
    ensures |r| == |mem|
  {
    if s == [] then mem[x + 24 := x][x + 16 := x]
    else mem[x + 16 := NextC(s, 0)][x + 24 := s[0]][NextC(s, 0) + 24 := x][s[0] + 16 := x]
  }

  lemma InsertShift(s: seq<nat>, x: nat, k: nat)
    requires s != [] && 0 < k < |s|
    ensures var t := Inserted(s, x);
            && |t| == |s| + 1 && t[k + 1] == s[k] && NextC(t, k + 1) == NextC(s, k)
            && PrevC(t, k + 1) == if k == 1 then x else PrevC(s, k)
  {
  }

  lemma InsertCirc(s: seq<nat>, mem: seq<int>, x: nat, nodes: set<nat>)
    requires Circ(s, mem) && NoDup(s) && Within(s, nodes) && Spaced(nodes) && x in nodes && x !in s && x + 24 < |mem|
    ensures s != [] ==> s[0] + 24 < |mem| && NextC(s, 0) + 24 < |mem| && mem[s[0] + 16] == NextC(s, 0)
    ensures s != [] ==> s[0] in nodes && NextC(s, 0) in nodes
    ensures Circ(Inserted(s, x), InsertMem(mem, s, x))
  {
    if s == [] {
      InsertEmpty(mem, x);
    } else {
      InsertBounds(s, mem, nodes);
      assert NodeOk(s, 0, mem);
      hide InsertMem, Inserted, NodeOk;
      var t, m := Inserted(s, x), InsertMem(mem, s, x);
      InsertOrder(s, x);
      FrontWords(s, mem, x, nodes, m);
      InsertFront(s, t, mem, m, x);
      forall i | 0 <= i < |t| ensures NodeOk(t, i, m) {
        if i >= 2 {
          InsertRest(s, mem, x, nodes, i - 1);
        }
      }
    }
  }

  lemma InsertEmpty(mem: seq<int>, x: nat)
    requires x + 24 < |mem|
    ensures Circ(Inserted([], x), InsertMem(mem, [], x))
  {
  }

  lemma InsertOrder(s: seq<nat>, x: nat)
    requires s != []
    ensures var t := Inserted(s, x);
            && |t| == |s| + 1 && t[0] == s[0] && t[1] == x && t[|t| - 1] == (if |s| == 1 then x else s[|s| - 1])
            && (|s| > 1 ==> t[2] == s[1])
  {
  }

  /** The four words an insertion writes, and nothing else. */
  lemma InsertMemAt(mem: seq<int>, s: seq<nat>, x: nat, a: nat)
    requires x + 24 < |mem| && s != [] && s[0] + 24 < |mem| && NextC(s, 0) + 24 < |mem| && a < |mem|
    ensures InsertMem(mem, s, x)[a] ==
            if a == s[0] + 16 then x
            else if a == NextC(s, 0) + 24 then x
            else if a == x + 24 then s[0]
            else if a == x + 16 then NextC(s, 0)
            else mem[a]
  {
  }

  lemma InsertBounds(s: seq<nat>, mem: seq<int>, nodes: set<nat>)
    requires Circ(s, mem) && Within(s, nodes) && s != []
    ensures s[0] + 24 < |mem| && NextC(s, 0) + 24 < |mem| && mem[s[0] + 16] == NextC(s, 0)
    ensures s[0] in nodes && NextC(s, 0) in nodes && (|s| > 1 ==> s[1] + 24 < |mem|)
  {
    assert NodeOk(s, 0, mem);
    assert |s| > 1 ==> NodeOk(s, 1, mem);
  }

  /** The words of the head and of the new node after an insertion. */
  lemma FrontWords(s: seq<nat>, mem: seq<int>, x: nat, nodes: set<nat>, m: seq<int>)
    requires NoDup(s) && Within(s, nodes) && Spaced(nodes) && x in nodes && x !in s && x + 24 < |mem|
    requires s != [] && s[0] + 24 < |mem| && NextC(s, 0) + 24 < |mem| && m == InsertMem(mem, s, x)
    ensures m[s[0] + 16] == x && m[s[0] + 24] == (if |s| == 1 then x else mem[s[0] + 24])
    ensures m[x + 16] == NextC(s, 0) && m[x + 24] == s[0]
  {
    hide InsertMem;
    var n := NextC(s, 0);
    assert s[0] in s && n in s && s[0] in nodes && n in nodes;
    assert n == s[0] <==> |s| == 1;
    Gap(nodes, x, s[0]);
    Gap(nodes, x, n);
    InsertMemAt(mem, s, x, s[0] + 16);
    InsertMemAt(mem, s, x, s[0] + 24);
    InsertMemAt(mem, s, x, x + 16);
    InsertMemAt(mem, s, x, x + 24);
  }

  lemma InsertFront(s: seq<nat>, t: seq<nat>, mem: seq<int>, m: seq<int>, x: nat)
    requires s != [] && NodeOk(s, 0, mem) && |m| == |mem| && x + 24 < |m|
    requires |t| == |s| + 1 && t[0] == s[0] && t[1] == x && t[|t| - 1] == (if |s| == 1 then x else s[|s| - 1])
    requires |s| > 1 ==> t[2] == s[1]
    requires m[s[0] + 16] == x && m[s[0] + 24] == (if |s| == 1 then x else mem[s[0] + 24])
    requires m[x + 16] == NextC(s, 0) && m[x + 24] == s[0]
    ensures NodeOk(t, 0, m) && NodeOk(t, 1, m)
  {
  }

  lemma Gap(nodes: set<nat>, u: nat, v: nat)
    requires Spaced(nodes) && u in nodes && v in nodes && u != v
    ensures u + MIN_BLOCK <= v || v + MIN_BLOCK <= u
  {
  }

  lemma InsertRest(s: seq<nat>, mem: seq<int>, x: nat, nodes: set<nat>, k: nat)
    requires Circ(s, mem) && NoDup(s) && Within(s, nodes) && Spaced(nodes) && x in nodes && x !in s && x + 24 < |mem|
    requires 0 < k < |s| && s[0] + 24 < |mem| && s[1] + 24 < |mem|
    ensures |Inserted(s, x)| == |s| + 1 && NodeOk(Inserted(s, x), k + 1, InsertMem(mem, s, x))
  {
    hide Inserted, InsertMem;
    InsertShift(s, x, k);
    assert NodeOk(s, k, mem);
    InsertNode(s, mem, x, nodes, k);
  }

  /** A node other than the head keeps its words, except that the one after the head now points back to x. */
  lemma InsertNode(s: seq<nat>, mem: seq<int>, x: nat, nodes: set<nat>, k: nat)
    requires NoDup(s) && Within(s, nodes) && Spaced(nodes) && x in nodes && x !in s && x + 24 < |mem|
    requires 0 < k < |s| && NodeOk(s, k, mem) && s[0] + 24 < |mem| && s[1] + 24 < |mem|
    ensures var m := InsertMem(mem, s, x);
            m[s[k] + 16] == mem[s[k] + 16] && m[s[k] + 24] == if k == 1 then x else mem[s[k] + 24]
  {
    hide InsertMem;
    assert s[k] in nodes && s[0] in nodes && s[1] in nodes;
    assert s[k] != s[0] && (k > 1 ==> s[k] != s[1]) && s[k] != x;
    InsertMemAt(mem, s, x, s[k] + 16);
    InsertMemAt(mem, s, x, s[k] + 24);
  }

  // ----- Unlink -----

  ghost function UnlinkMem(mem: seq<int>, s: seq<nat>, i: nat): (r: seq<int>)
    requires i < |s| && NextC(s, i) + 24 < |mem| && PrevC(s, i) + 24 < |mem|
    ensures |r| == |mem|
  {
    mem[PrevC(s, i) + 16 := NextC(s, i)][NextC(s, i) + 24 := PrevC(s, i)]
  }

  function Without(s: seq<nat>, i: nat): (t: seq<nat>)
    requires i < |s|
  {
    s[..i] + s[i + 1..]
  }

  lemma WithoutShift(s: seq<nat>, i: nat, j: nat)
    requires NoDup(s) && i < |s| && j < |s| && i != j
    ensures var t, k := Without(s, i), if j < i then j else j - 1;
            && |t| == |s| - 1 && k < |t| && t[k] == s[j]
            && NextC(t, k) == (if NextC(s, j) == s[i] then NextC(s, i) else NextC(s, j))
            && PrevC(t, k) == (if PrevC(s, j) == s[i] then PrevC(s, i) else PrevC(s, j))
  {
    var t, k := Without(s, i), if j < i then j else j - 1;
    forall m | 0 <= m < |t| ensures t[m] == if m < i then s[m] else s[m + 1] {
    }
  }

  lemma UnlinkNode(s: seq<nat>, mem: seq<int>, i: nat, j: nat, nodes: set<nat>)
    requires NoDup(s) && Within(s, nodes) && Spaced(nodes) && i < |s| && j < |s| && i != j && NodeOk(s, j, mem)
    requires NextC(s, i) + 24 < |mem| && PrevC(s, i) + 24 < |mem|
    ensures var m := UnlinkMem(mem, s, i);
            && m[s[j] + 16] == (if NextC(s, j) == s[i] then NextC(s, i) else NextC(s, j))
            && m[s[j] + 24] == (if PrevC(s, j) == s[i] then PrevC(s, i) else PrevC(s, j))
  {
    assert s[j] in nodes && NextC(s, i) in nodes && PrevC(s, i) in nodes;
    assert PrevC(s, i) == s[j] <==> NextC(s, j) == s[i];
    assert NextC(s, i) == s[j] <==> PrevC(s, j) == s[i];
  }

  lemma UnlinkBounds(s: seq<nat>, mem: seq<int>, i: nat, nodes: set<nat>)
    requires Circ(s, mem) && Within(s, nodes) && i < |s|
    ensures s[i] + 24 < |mem| && mem[s[i] + 16] == NextC(s, i) && mem[s[i] + 24] == PrevC(s, i)
    ensures NextC(s, i) + 24 < |mem| && PrevC(s, i) + 24 < |mem| && NextC(s, i) in s && PrevC(s, i) in s
    ensures NextC(s, i) in nodes && PrevC(s, i) in nodes
  {
    assert NodeOk(s, i, mem);
    assert NodeOk(s, if i + 1 < |s| then i + 1 else 0, mem);
    assert NodeOk(s, if i > 0 then i - 1 else |s| - 1, mem);
  }

  lemma UnlinkCirc(s: seq<nat>, mem: seq<int>, i: nat, nodes: set<nat>)
    requires Circ(s, mem) && NoDup(s) && Within(s, nodes) && Spaced(nodes) && i < |s|
    requires NextC(s, i) + 24 < |mem| && PrevC(s, i) + 24 < |mem|
    ensures Circ(Without(s, i), UnlinkMem(mem, s, i))
  {
    hide UnlinkMem, Without, Spaced, Within;
    var t, m := Without(s, i), UnlinkMem(mem, s, i);
    assert |t| == |s| - 1 by {
      WithoutLength(s, i);
    }
    forall k | 0 <= k < |t| ensures NodeOk(t, k, m) {
      var j := if k < i then k else k + 1;
      assert NodeOk(s, j, mem);
      WithoutShift(s, i, j);
      UnlinkNode(s, mem, i, j, nodes);
    }
  }

  lemma WithoutLength(s: seq<nat>, i: nat)
    requires i < |s|
    ensures |Without(s, i)| == |s| - 1
  {
  }

  lemma AfterIs(s: seq<nat>, i: nat)
    requires NoDup(s) && i < |s|
    ensures IndexOf(s, s[i]) == i && After(s, s[i]) == NextC(s, i)
    ensures Remove<nat>(s, s[i]) == Without(s, i)
    ensures NextC(s, i) == s[i] <==> |s| == 1
  {
    hide Remove;
    RemoveAt(s, i);
    assert s[i] in s;
    var k := IndexOf(s, s[i]);
    assert k == i;
  }
}
