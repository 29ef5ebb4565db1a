/** The lazy and the eager buddy allocators are indistinguishable to callers. */
module BuddyAgreement {
  import opened Platform
  import opened Seqs
  import opened BuddySpec
  import opened BuddyTheorems
  import opened BuddyTags
  import opened BuddyRuns
  import EagerLists
  import EagerBuddy
  import LazyStacks
  import LazyBuddy

  datatype Call = Malloc(size: nat, alignment: nat) | Dispose(ptr: nat)

  /** A call as the heap sees it. */
  function Meaning(c: Call, lo: nat): (q: Request) {
    match c
    case Malloc(s, a) => Want(OrderOf(Need(s, a), lo))
    case Dispose(p) => Give(if p >= HEADER then p - HEADER else 0)
  }

  predicate Proper(c: Call) {
    match c
    case Malloc(s, a) => s < WORD && a < WORD
    case Dispose(p) => p >= HEADER
  }

  function Meanings(cs: seq<Call>, lo: nat): (qs: seq<Request>)
    ensures |qs| == |cs|
  {
    if cs == [] then [] else [Meaning(cs[0], lo)] + Meanings(cs[1..], lo)
  }

  ghost function Answer(b: Buddy, c: Call): (p: Option<nat>)
    requires Inv(b) && Legal(b, Meaning(c, b.lo))
  {
    match c
    case Malloc(s, a) =>
      var x := Alloc(b, OrderOf(Need(s, a), b.lo)).1;
      if x.Some? then Some(x.value + HEADER) else None
    case Dispose(p) => None
  }

  /** The pointers a run hands out, in order. */
  ghost function Answers(b: Buddy, cs: seq<Call>): (ps: seq<Option<nat>>)
    requires Inv(b) && LegalRun(b, Meanings(cs, b.lo))
    decreases |cs|
  {
    if cs == [] then []
    else
      assert Meanings(cs, b.lo)[1..] == Meanings(cs[1..], b.lo);
      [Answer(b, cs[0])] + Answers(Step(b, Meaning(cs[0], b.lo)), cs[1..])
  }

  lemma RunStep(b: Buddy, cs: seq<Call>)
    requires Inv(b) && cs != [] && LegalRun(b, Meanings(cs, b.lo))
    ensures var q := Meaning(cs[0], b.lo);
            && Legal(b, q) && Step(b, q).lo == b.lo
            && LegalRun(Step(b, q), Meanings(cs[1..], b.lo))
            && Run(b, Meanings(cs, b.lo)) == Run(Step(b, q), Meanings(cs[1..], b.lo))
            && Answers(b, cs) == [Answer(b, cs[0])] + Answers(Step(b, q), cs[1..])
  {
    assert Meanings(cs, b.lo)[1..] == Meanings(cs[1..], b.lo);
  }

  /** One call, given to both allocators. */
  method Both(c: EagerBuddy.Heap, r: LazyBuddy.Heap, call: Call) returns (fromC: Option<nat>, fromRust: Option<nat>)
    requires c.Valid() && r.Valid() && c.model == r.model
    requires {c, c.mem, c.heads, c.tags} !! {r, r.mem, r.tags}
    requires Proper(call) && Legal(c.model, Meaning(call, c.lo))
    modifies c, c.mem, c.heads, c.tags, r, r.mem, r.tags
    ensures c.Valid() && r.Valid()
    ensures fromC == fromRust == Answer(old(c.model), call)
    ensures c.model == r.model == Step(old(c.model), Meaning(call, c.lo)) && c.model.lo == c.lo
  {
    hide Inv, EagerLists.LinkedAll, TagsAgree, OrdersStored, LazyStacks.Lazily, Canonical, UsedMap, UsedBytes;
    match call {
      case Malloc(size, alignment) =>
        fromC := c.Allocate(size, alignment);
        fromRust := r.Allocate(size, alignment);
      case Dispose(ptr) =>
        c.Deallocate(Some(ptr));
        r.Deallocate(ptr);
        fromC, fromRust := None, None;
    }
  }

  /** Fed the same calls from the same heap, both allocators return the same pointers and
      end in the same heap, which is the one the specification predicts. */
  method Lockstep(c: EagerBuddy.Heap, r: LazyBuddy.Heap, cs: seq<Call>)
    returns (fromC: seq<Option<nat>>, fromRust: seq<Option<nat>>)
    requires c.Valid() && r.Valid() && c.model == r.model
    requires {c, c.mem, c.heads, c.tags} !! {r, r.mem, r.tags}
    requires (forall i :: 0 <= i < |cs| ==> Proper(cs[i])) && LegalRun(c.model, Meanings(cs, c.lo))
    modifies c, c.mem, c.heads, c.tags, r, r.mem, r.tags
    ensures c.Valid() && r.Valid()
    ensures fromC == fromRust == Answers(old(c.model), cs)
    ensures c.model == r.model == Run(old(c.model), Meanings(cs, c.lo))
    decreases |cs|
  {
    hide LegalRun, Run, Answers, Meanings, Step, Answer, Legal;
    hide Inv, EagerLists.LinkedAll, TagsAgree, OrdersStored, LazyStacks.Lazily, Canonical, UsedMap, UsedBytes;
    if cs == [] {
      RunDone(c.model, cs);
      return [], [];
    }
    RunStep(c.model, cs);
    var p, q := Both(c, r, cs[0]);
    var ps, qs := Lockstep(c, r, cs[1..]);
    return [p] + ps, [q] + qs;
  }

  lemma RunDone(b: Buddy, cs: seq<Call>)
    requires Inv(b) && cs == []
    ensures LegalRun(b, Meanings(cs, b.lo)) && Run(b, Meanings(cs, b.lo)) == b && Answers(b, cs) == []
  {
  }
}
