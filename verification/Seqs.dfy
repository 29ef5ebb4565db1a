/** Sequence vocabulary shared by the allocators. */
module Seqs {

  datatype Option<+T> = None | Some(value: T)

  // ----- Maps -----

  lemma PutTwice<K, V>(m: map<K, V>, x: K, v: V, w: V)
    ensures m[x := v][x := w] == m[x := w]
  {
  }

  lemma PutSame<K, V>(m: map<K, V>, x: K)
    requires x in m
    ensures m[x := m[x]] == m && (m - {x})[x := m[x]] == m
  {
  }

  lemma PutRemove<K, V>(m: map<K, V>, x: K, v: V)
    ensures m[x := v] - {x} == m - {x}
    ensures x !in m ==> m - {x} == m
  {
  }

  // ----- Sequences -----

  ghost predicate NoDup<T>(s: seq<T>) {
    forall i, j :: 0 <= i < j < |s| ==> s[i] != s[j]
  }

  /** The sequence without the first occurrence of x. */
  function Remove<T(==)>(s: seq<T>, x: T): (r: seq<T>) {
    if s == [] then []
    else if s[0] == x then s[1..]
    else [s[0]] + Remove(s[1..], x)
  }

  /** Taking x out of a duplicate-free sequence leaves exactly the other elements, still without duplicates. */
  lemma {:induction false} RemoveExact<T>(s: seq<T>, x: T)
    requires NoDup(s)
    ensures NoDup(Remove(s, x))
    ensures forall y :: y in Remove(s, x) <==> y in s && y != x
  {
    if s != [] {
      RemoveExact(s[1..], x);
      var t := s[1..];
      assert forall y :: y in s <==> y == s[0] || y in t;
      assert s[0] !in t;
      if s[0] != x {
        var r := Remove(t, x);
        assert forall y :: y in Remove(s, x) <==> y == s[0] || y in r;
      }
    }
  }

  /** Removal is by position once the position is known. */
  lemma {:induction false} RemoveAt<T>(s: seq<T>, i: nat)
    requires NoDup(s) && i < |s|
    ensures Remove(s, s[i]) == s[..i] + s[i + 1..]
  {
    if i > 0 {
      RemoveAt(s[1..], i - 1);
      assert s[1..][i - 1] == s[i];
      assert s[..i] == [s[0]] + s[1..][..i - 1];
    }
  }

  lemma HeadIn<T>(s: seq<T>)
    requires s != []
    ensures s[0] in s
  {
  }

  lemma NoDupCons<T>(x: T, s: seq<T>)
    requires NoDup(s) && x !in s
    ensures NoDup([x] + s)
    ensures forall y :: y in [x] + s <==> y == x || y in s
  {
  }

  lemma TailSet<T>(xs: seq<T>)
    requires NoDup(xs) && xs != []
    ensures NoDup(xs[1..]) && forall x :: x in xs[1..] <==> x in xs && x != xs[0]
  {
  }

  /** A duplicate-free sequence with the members of a sequence of at most one element is that sequence. */
  lemma SingletonList<T>(s: seq<T>, t: seq<T>)
    requires NoDup(s) && |t| <= 1 && forall x :: x in s <==> x in t
    ensures s == t
  {
    if s != [] {
      var last := s[|s| - 1];
      assert s[0] in s && last in s;
      assert s[0] in t && last in t;
    } else if t != [] {
      HeadIn(t);
      assert false;
    }
  }
}
