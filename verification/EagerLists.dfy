/** The doubly linked free lists of the C buddy allocator. A node lives in the first bytes of its
    free block: the word at x links to the next block, the word at x + 8 to the previous one. */
module EagerLists {
  import opened Seqs

  const NIL: int := -1

  function NextIn(s: seq<nat>, i: int): (n: int) {
    if 0 <= i && i + 1 < |s| then s[i + 1] else NIL
  }

  function PrevIn(s: seq<nat>, i: int): (n: int) {
    if 0 < i <= |s| then s[i - 1] else NIL
  }

  function HeadOf(s: seq<nat>): (n: int) {
    if s == [] then NIL else s[0]
  }

  ghost predicate NodeOk(s: seq<nat>, i: int, mem: seq<int>)
    requires 0 <= i < |s|
  {
    s[i] + 8 < |mem| && mem[s[i]] == NextIn(s, i) && mem[s[i] + 8] == PrevIn(s, i)
  }

  ghost predicate Linked(s: seq<nat>, head: int, mem: seq<int>) {
    head == HeadOf(s) && forall i :: 0 <= i < |s| ==> NodeOk(s, i, mem)
  }

  /** Every list is the chain hanging off its head, with matching back links. */
  ghost predicate LinkedAll(lists: seq<seq<nat>>, heads: seq<int>, mem: seq<int>) {
    |heads| == |lists| && forall o :: 0 <= o < |lists| ==> Linked(lists[o], heads[o], mem)
  }

  /** Block starts are far enough apart for both words of a node. */
  ghost predicate Spaced(nodes: set<nat>) {
    forall u, v :: u in nodes && v in nodes && u < v ==> u + 16 <= v
  }

  /** The lists hold nodes only, each at most once in all. */
  ghost predicate ListsIn(lists: seq<seq<nat>>, nodes: set<nat>) {
    && (forall o, z :: 0 <= o < |lists| && z in lists[o] ==> z in nodes)
    && (forall o :: 0 <= o < |lists| ==> NoDup(lists[o]))
    && (forall o, o', z :: 0 <= o < o' < |lists| && z in lists[o] ==> z !in lists[o'])
  }

  ghost predicate Unlisted(lists: seq<seq<nat>>, x: nat) {
    forall o :: 0 <= o < |lists| ==> x !in lists[o]
  }

  // ----- Push -----

  ghost function PushMem(mem: seq<int>, head: int, x: nat): (r: seq<int>)
    requires x + 8 < |mem| && (head != NIL ==> 0 <= head && head + 8 < |mem|)
    ensures |r| == |mem|
  {
    var m := mem[x + 8 := NIL][x := head];
    if head != NIL then m[head + 8 := x] else m
  }

  lemma PushOther(s: seq<nat>, h: int, mem: seq<int>, head: int, x: nat, nodes: set<nat>)
    requires Linked(s, h, mem) && Spaced(nodes) && x in nodes && x !in s && x + 8 < |mem|
    requires forall z :: z in s ==> z in nodes
    requires head != NIL ==> 0 <= head && head + 8 < |mem| && head in nodes && head !in s
    ensures Linked(s, h, PushMem(mem, head, x))
  {
    forall i | 0 <= i < |s| ensures NodeOk(s, i, PushMem(mem, head, x)) {
      assert NodeOk(s, i, mem);
      assert s[i] in s;
    }
  }

  lemma PushSame(s: seq<nat>, mem: seq<int>, x: nat, nodes: set<nat>)
    requires Linked(s, HeadOf(s), mem) && Spaced(nodes) && x in nodes && x !in s && x + 8 < |mem| && NoDup(s)
    requires forall z :: z in s ==> z in nodes
    ensures HeadOf(s) != NIL ==> HeadOf(s) + 8 < |mem|
    ensures Linked([x] + s, x, PushMem(mem, HeadOf(s), x))
  {
    assert s != [] ==> NodeOk(s, 0, mem);
    var t, m := [x] + s, PushMem(mem, HeadOf(s), x);
    forall i | 0 <= i < |t| ensures NodeOk(t, i, m) {
      if i == 0 {
        assert s != [] ==> s[0] in s;
      } else {
        PushNode(s, mem, x, nodes, i - 1);
      }
    }
  }

  lemma PushNode(s: seq<nat>, mem: seq<int>, x: nat, nodes: set<nat>, j: nat)
    requires Spaced(nodes) && x in nodes && x !in s && x + 8 < |mem| && NoDup(s) && j < |s|
    requires forall z :: z in s ==> z in nodes
    requires NodeOk(s, 0, mem) && NodeOk(s, j, mem)
    ensures NodeOk([x] + s, j + 1, PushMem(mem, s[0], x))
  {
    var t, m := [x] + s, PushMem(mem, s[0], x);
    assert t[j + 1] == s[j] && s[j] in s && s[0] in s;
    assert NextIn(t, j + 1) == NextIn(s, j);
    assert m[s[j]] == mem[s[j]];
    if j > 0 {
      assert s[0] != s[j] && t[j] == s[j - 1];
      assert m[s[j] + 8] == mem[s[j] + 8];
    }
  }

  lemma PushLinked(lists: seq<seq<nat>>, heads: seq<int>, mem: seq<int>, o: nat, x: nat, nodes: set<nat>)
    requires LinkedAll(lists, heads, mem) && ListsIn(lists, nodes) && Spaced(nodes)
    requires o < |lists| && x in nodes && Unlisted(lists, x) && x + 8 < |mem|
    ensures heads[o] != NIL ==> 0 <= heads[o] && heads[o] + 8 < |mem| && heads[o] in nodes
    ensures LinkedAll(lists[o := [x] + lists[o]], heads[o := x], PushMem(mem, heads[o], x))
  {
    var s := lists[o];
    assert Linked(s, heads[o], mem);
    PushSame(s, mem, x, nodes);
    assert s != [] ==> s[0] in s;
    forall k | 0 <= k < |lists| && k != o ensures Linked(lists[k], heads[k], PushMem(mem, heads[o], x)) {
      PushOther(lists[k], heads[k], mem, heads[o], x, nodes);
    }
  }

  // ----- Unlink -----

  ghost function UnlinkMem(mem: seq<int>, next: int, prev: int): (r: seq<int>)
    requires next != NIL ==> 0 <= next && next + 8 < |mem|
    requires prev != NIL ==> 0 <= prev < |mem|
    ensures |r| == |mem|
  {
    var m := if prev != NIL then mem[prev := next] else mem;
    if next != NIL then m[next + 8 := prev] else m
  }

  lemma UnlinkOther(s: seq<nat>, h: int, mem: seq<int>, next: int, prev: int, nodes: set<nat>)
    requires Linked(s, h, mem) && Spaced(nodes)
    requires forall z :: z in s ==> z in nodes
    requires next != NIL ==> 0 <= next && next + 8 < |mem| && next in nodes && next !in s
    requires prev != NIL ==> 0 <= prev && prev + 8 < |mem| && prev in nodes && prev !in s
    ensures Linked(s, h, UnlinkMem(mem, next, prev))
  {
    forall i | 0 <= i < |s| ensures NodeOk(s, i, UnlinkMem(mem, next, prev)) {
      assert NodeOk(s, i, mem);
      assert s[i] in s;
    }
  }

  lemma NeighboursOk(s: seq<nat>, mem: seq<int>, i: nat, nodes: set<nat>)
    requires i < |s| && Linked(s, HeadOf(s), mem)
    requires forall z :: z in s ==> z in nodes
    ensures NextIn(s, i) != NIL ==> NextIn(s, i) + 8 < |mem| && NextIn(s, i) in nodes && NextIn(s, i) in s
    ensures PrevIn(s, i) != NIL ==> PrevIn(s, i) + 8 < |mem| && PrevIn(s, i) in nodes && PrevIn(s, i) in s
  {
    if i > 0 {
      assert NodeOk(s, i - 1, mem);
    }
    if i + 1 < |s| {
      assert NodeOk(s, i + 1, mem);
    }
  }

  lemma UnlinkSame(s: seq<nat>, mem: seq<int>, i: nat, nodes: set<nat>)
    requires Linked(s, HeadOf(s), mem) && Spaced(nodes) && NoDup(s) && i < |s|
    requires forall z :: z in s ==> z in nodes
    requires NextIn(s, i) != NIL ==> NextIn(s, i) + 8 < |mem|
    requires PrevIn(s, i) != NIL ==> PrevIn(s, i) + 8 < |mem|
    ensures var t := s[..i] + s[i + 1..]; Linked(t, HeadOf(t), UnlinkMem(mem, NextIn(s, i), PrevIn(s, i)))
  {
    var t := s[..i] + s[i + 1..];
    var m := UnlinkMem(mem, NextIn(s, i), PrevIn(s, i));
    forall j | 0 <= j < |t| ensures NodeOk(t, j, m) {
      var j' := if j < i then j else j + 1;
      assert t[j] == s[j'];
      assert NodeOk(s, j', mem);
      assert s[j'] in s;
      UnlinkNode(s, mem, i, j', nodes);
    }
  }

  /** After unlinking position i, the words of position j hold what the shorter list needs. */
  lemma UnlinkNode(s: seq<nat>, mem: seq<int>, i: nat, j: nat, nodes: set<nat>)
    requires Spaced(nodes) && NoDup(s) && i < |s| && j < |s| && i != j
    requires forall z :: z in s ==> z in nodes
    requires NodeOk(s, j, mem)
    requires NextIn(s, i) != NIL ==> NextIn(s, i) + 8 < |mem|
    requires PrevIn(s, i) != NIL ==> PrevIn(s, i) + 8 < |mem|
    ensures var m := UnlinkMem(mem, NextIn(s, i), PrevIn(s, i));
            && m[s[j]] == (if j + 1 == i then NextIn(s, i) else NextIn(s, j))
            && m[s[j] + 8] == (if j == i + 1 then PrevIn(s, i) else PrevIn(s, j))
  {
    assert s[j] in s;
    if i > 0 {
      assert s[i - 1] in s;
    }
    if i + 1 < |s| {
      assert s[i + 1] in s;
    }
  }

  lemma UnlinkLinked(lists: seq<seq<nat>>, heads: seq<int>, mem: seq<int>, o: nat, i: nat, nodes: set<nat>)
    requires LinkedAll(lists, heads, mem) && ListsIn(lists, nodes) && Spaced(nodes)
    requires o < |lists| && i < |lists[o]|
    ensures var s := lists[o];
            var next, prev := NextIn(s, i), PrevIn(s, i);
            && s[i] + 8 < |mem| && mem[s[i]] == next && mem[s[i] + 8] == prev
            && (next != NIL ==> next + 8 < |mem| && next in s && next in nodes)
            && (prev != NIL ==> prev + 8 < |mem| && prev in s && prev in nodes)
            && LinkedAll(lists[o := Remove<nat>(s, s[i])], if prev == NIL then heads[o := next] else heads,
                         UnlinkMem(mem, next, prev))
  {
    var s := lists[o];
    var next, prev := NextIn(s, i), PrevIn(s, i);
    assert Linked(s, heads[o], mem);
    assert NodeOk(s, i, mem);
    NeighboursOk(s, mem, i, nodes);
    UnlinkSame(s, mem, i, nodes);
    RemoveAt(s, i);
    forall k | 0 <= k < |lists| && k != o ensures Linked(lists[k], heads[k], UnlinkMem(mem, next, prev)) {
      UnlinkOther(lists[k], heads[k], mem, next, prev, nodes);
    }
  }
}
