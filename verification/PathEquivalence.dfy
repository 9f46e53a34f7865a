/**
 What a mutator reads after one collection, and why a second collection loses objects.

 Copies keep the pointers of their originals, and originals are forwarded. So the
 pointers a mutator follows lead alternately to a copy and to an original.
 */
module PathEquivalence {
  import opened FatPtrs
  import opened Heaps
  import opened Evacuation
  import opened Retention
  import opened Collections

  // Where object k is found at the end of a walk of n fields.
  function Place(visited: map<nat, nat>, k: nat, n: nat): nat
    requires k in visited
  {
    if n % 2 == 0 then visited[k] else k
  }

  // A field slot of a copy still holds what the original's slot held at the start.
  lemma CopiedField(m0: Memory, t0: Table, e: Evac, k: nat, o: nat)
    requires CopiesFaithful(m0, t0, e) && k in e.visited && k in t0 && o + 16 <= t0[k].size
    ensures IsSlot(e.mem, e.visited[k] + o) == IsSlot(m0, k + o)
    ensures Target(e.mem, e.visited[k] + o) == Target(m0, k + o)
  {
    hide IsSlot, Target;
    var a := e.visited[k];
    assert SameBytes(m0, k, e.mem, a, t0[k].size);
    forall i | k + o <= i < k + o + 16
      ensures At(m0, i) == At(e.mem, i + (a + o - (k + o)))
    {
      assert At(m0, i) == At(e.mem, i + (a - k));
    }
    SlotFrame(m0, k + o, e.mem, a + o);
  }

  // Every walk through the old graph can be repeated after the collection, and ends at the same
  // object: at its copy after an even number of fields, at the original after an odd number.
  lemma {:induction false} WalkParity(
      c: Config, to: Space, m0: Memory, t0: Table, roots: seq<nat>, e: Evac, root: nat, offsets: seq<nat>)
    requires Heap(c, to, m0, t0, e) && Graph(c, to, m0, t0, roots, roots, e, [])
    requires ValidWalk(m0, t0, roots, root, offsets)
    ensures var k := Walk(m0, root, offsets);
      k in e.visited && Walk(e.mem, root, offsets) == Place(e.visited, k, |offsets|)
    decreases |offsets|
  {
    hide IsSlot, Target, FieldSlot, Fixed, RootPlace, Sound, StackFine, SlotsKept, UnvisitedUntouched;
    hide OnlyForwarded, CopiesFaithful;
    WalkVisited(c, to, m0, t0, roots, e, root, offsets);
    if offsets == [] {
      assert Settled(m0, t0, e, root);
    } else {
      var front, o := offsets[..|offsets| - 1], offsets[|offsets| - 1];
      WalkParity(c, to, m0, t0, roots, e, root, front);
      var j := Walk(m0, root, front);
      assert j in t0 && o + 16 <= t0[j].size && IsSlot(m0, j + o) by { FieldFits(m0, t0, j, j + o); }
      CopiedField(m0, t0, e, j, o);
      assert Settled(m0, t0, e, j + o);
    }
  }

  // The n bytes at k' read as the object at k did, except, when k' is the original itself, inside
  // the pointer words of fields whose target has been copied.
  ghost predicate SamePayload(
    c: Config, m0: Memory, t0: Table, roots: seq<nat>, visited: map<nat, nat>, k: nat, m1: Memory, k': nat, n: nat)
  {
    forall i {:trigger At(m0, i)} :: k <= i < k + n ==>
      At(m1, i + (k' - k)) == At(m0, i) || (k' == k && InForwardedSlot(c, m0, t0, roots, visited, i))
  }

  // Every field slot of k is a slot at k' and names the same object or its copy.
  ghost predicate SameFields(m0: Memory, t0: Table, visited: map<nat, nat>, k: nat, m1: Memory, k': nat) {
    forall b: nat {:trigger FieldSlot(m0, t0, k, b)} :: FieldSlot(m0, t0, k, b) ==>
      IsSlot(m1, k' + (b - k)) && SlotValue(visited, Target(m0, b), Target(m1, k' + (b - k)))
  }

  // Path equivalence across one collection: any walk of the old graph leads, after the collection,
  // to the same object and reads the same payload there.
  lemma PathsRead(c: Config, s: State, roots: seq<nat>, root: nat, offsets: seq<nat>)
    requires Invariant(c, s) && RootPlaces(c, |s.mem|, roots) && Fits(c, OfOriginal, s, roots)
    requires ValidWalk(s.mem, s.table, roots, root, offsets)
    ensures var visited := Evacuate(c, OfOriginal, s, roots).e.visited;
      var m1 := Collect(c, OfOriginal, s, roots).mem;
      var k := Walk(s.mem, root, offsets); var k' := Walk(m1, root, offsets);
      && k in visited && k' == Place(visited, k, |offsets|)
      && SamePayload(c, s.mem, s.table, roots, visited, k, m1, k', s.table[k].size)
      && SameFields(s.mem, s.table, visited, k, m1, k')
  {
    hide IsSlot, Target, Heap, Graph, Evacuate, Collect, RootPlaces, WellPlaced, TableOfCopies, SamePayload;
    hide SameFields, FieldSlot;
    EndHeap(c, s, roots);
    CollectionOutcome(c, OfOriginal, s, roots);
    var e := Evacuate(c, OfOriginal, s, roots).e;
    WalkParity(c, s.active.Other(), s.mem, s.table, roots, e, root, offsets);
    var k := Walk(s.mem, root, offsets);
    if |offsets| % 2 == 0 {
      ReadsCopy(c, s.active.Other(), s.mem, s.table, roots, e, k);
    } else {
      GraphFrame(c, s.active.Other(), s.mem, s.table, roots, roots, e, []);
      ReadsOriginal(c, s.active.Other(), s.mem, s.table, roots, e, k);
    }
  }

  lemma ReadsCopy(c: Config, to: Space, m0: Memory, t0: Table, roots: seq<nat>, e: Evac, k: nat)
    requires Heap(c, to, m0, t0, e) && k in e.visited && k in t0
    ensures SamePayload(c, m0, t0, roots, e.visited, k, e.mem, e.visited[k], t0[k].size)
    ensures SameFields(m0, t0, e.visited, k, e.mem, e.visited[k])
  {
    hide IsSlot, Target, Fixed, SlotsKept, UnvisitedUntouched, OnlyForwarded, FieldSlot, InForwardedSlot;
    var a := e.visited[k];
    assert SameBytes(m0, k, e.mem, a, t0[k].size);
    forall b: nat | FieldSlot(m0, t0, k, b)
      ensures IsSlot(e.mem, a + (b - k)) && Target(e.mem, a + (b - k)) == Target(m0, b)
    {
      FieldFits(m0, t0, k, b);
      CopiedField(m0, t0, e, k, b - k);
    }
  }

  lemma ReadsOriginal(c: Config, to: Space, m0: Memory, t0: Table, roots: seq<nat>, e: Evac, k: nat)
    requires Heap(c, to, m0, t0, e) && OnlyForwarded(c, to, m0, t0, roots, e) && k in e.visited && k in t0
    ensures SamePayload(c, m0, t0, roots, e.visited, k, e.mem, k, t0[k].size)
    ensures SameFields(m0, t0, e.visited, k, e.mem, k)
  {
    hide IsSlot, Target, Fixed, CopiesFaithful, UnvisitedUntouched, FieldSlot, InForwardedSlot;
    OriginalPlace(c, to, m0, t0, e, k);
    forall b: nat | FieldSlot(m0, t0, k, b)
      ensures IsSlot(e.mem, b) && SlotValue(e.visited, Target(m0, b), Target(e.mem, b))
    {
      FieldOff(c, to, m0, t0, e, k, b);
    }
  }

  // ---- What the documentation asks of forwarding ----

  // "Forwards the pointer and all members": every field of a copy names a copy whenever the
  // original's field named a managed object.
  ghost predicate MembersForwarded(s: State, visited: map<nat, nat>, m1: Memory) {
    forall k, b: nat :: k in visited && FieldSlot(s.mem, s.table, k, b) && Target(s.mem, b) in s.table ==>
      Target(s.mem, b) in visited && Target(m1, visited[k] + (b - k)) == visited[Target(s.mem, b)]
  }

  // No reachable object points to a managed object.
  ghost predicate FlatGraph(s: State, roots: seq<nat>) {
    forall k, b: nat :: Reachable(s.mem, s.table, roots, k) && FieldSlot(s.mem, s.table, k, b) ==>
      Target(s.mem, b) !in s.table
  }

  // The source meets its documentation exactly when there is nothing to forward inside objects.
  lemma MembersForwardedIff(c: Config, s: State, roots: seq<nat>)
    requires Invariant(c, s) && RootPlaces(c, |s.mem|, roots) && Fits(c, OfOriginal, s, roots)
    ensures var e := Evacuate(c, OfOriginal, s, roots).e;
      MembersForwarded(s, e.visited, Collect(c, OfOriginal, s, roots).mem) <==> FlatGraph(s, roots)
  {
    hide IsSlot, Target, Heap, Graph, Evacuate, Collect, RootPlaces, WellPlaced, TableOfCopies, FieldSlot, Reachable;
    EndHeap(c, s, roots);
    CollectionOutcome(c, OfOriginal, s, roots);
    var e := Evacuate(c, OfOriginal, s, roots).e;
    forall k, b: nat | k in e.visited && FieldSlot(s.mem, s.table, k, b) && Target(s.mem, b) in s.table
      ensures Target(s.mem, b) in e.visited && Target(e.mem, e.visited[k] + (b - k)) != e.visited[Target(s.mem, b)]
      ensures Reachable(s.mem, s.table, roots, k)
    {
      RetainedIffReachable(c, s.active.Other(), s.mem, s.table, roots, e, k);
      MemberNotForwarded(c, s.active.Other(), s.mem, s.table, roots, e, k, b);
    }
    forall k | Reachable(s.mem, s.table, roots, k)
      ensures k in e.visited
    {
      RetainedIffReachable(c, s.active.Other(), s.mem, s.table, roots, e, k);
    }
  }

  lemma MemberNotForwarded(c: Config, to: Space, m0: Memory, t0: Table, roots: seq<nat>, e: Evac, k: nat, b: nat)
    requires Heap(c, to, m0, t0, e) && Graph(c, to, m0, t0, roots, roots, e, [])
    requires k in e.visited && FieldSlot(m0, t0, k, b) && Target(m0, b) in t0
    ensures Target(m0, b) in e.visited
    ensures Target(e.mem, e.visited[k] + (b - k)) == Target(m0, b) != e.visited[Target(m0, b)]
  {
    hide IsSlot, Target, Fixed, FieldSlot, StackFine, Sound, SlotsKept, UnvisitedUntouched, OnlyForwarded;
    hide CopiesFaithful;
    FieldFits(m0, t0, k, b);
    CopiedField(m0, t0, e, k, b - k);
    assert Settled(m0, t0, e, b);
    CopyBounds(c, to, m0, t0, e, Target(m0, b));
  }
}
