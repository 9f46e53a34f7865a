/**
 Two collections in a row, as the source does them: which edges are left after the first
 one, and what the second one keeps.
 */
module TwoCollections {
  import opened Bits
  import opened FatPtrs
  import opened Heaps
  import opened Ledgers
  import opened Evacuation
  import opened Retention
  import opened Collections
  import opened PathEquivalence
  import opened EvacuationOrder

  // No object and no root holds a pointer into the space that is about to become to-space.
  ghost predicate NoStalePointers(c: Config, s: State, roots: seq<nat>) {
    && (forall k, b: nat :: k in s.table && k <= b && b + 16 <= k + s.table[k].size && IsSlot(s.mem, b) ==>
         !c.InSpace(s.active.Other(), Target(s.mem, b)))
    && (forall r :: r in roots && IsSlot(s.mem, r) ==> !c.InSpace(s.active.Other(), Target(s.mem, r)))
  }

  // Some root slot itself names k.
  ghost predicate NamedByRoot(m: Memory, roots: seq<nat>, k: nat) {
    exists r :: r in roots && IsSlot(m, r) && Target(m, r) == k
  }

  ghost predicate NoEdges(m: Memory, t: Table) {
    forall a, b: nat :: FieldSlot(m, t, a, b) ==> Target(m, b) !in t
  }

  // ---- Edges after one collection ----

  // Byte o of object j starts a slot pattern, at a place where the scan of j's copy looks, that holds
  // the address some copy has been given: a pointer from an earlier collection, or from nowhere.
  ghost predicate StaleField(m0: Memory, t0: Table, visited: map<nat, nat>, j: nat, o: nat) {
    && j in visited && j in t0 && (visited[j] + o) % 8 == 0 && o + 16 < t0[j].size
    && IsSlot(m0, j + o) && IsCopy(visited, Target(m0, j + o))
  }

  ghost predicate StaleRoot(m0: Memory, visited: map<nat, nat>, r: nat) {
    IsSlot(m0, r) && IsCopy(visited, Target(m0, r))
  }

  // After a collection the only edges between managed objects are those stale fields make.
  lemma EdgesAfter(c: Config, s: State, roots: seq<nat>, j: nat, o: nat)
    requires Invariant(c, s) && RootPlaces(c, |s.mem|, roots) && Fits(c, OfOriginal, s, roots)
    requires j in Evacuate(c, OfOriginal, s, roots).e.visited
    ensures var visited := Evacuate(c, OfOriginal, s, roots).e.visited; var s1 := Collect(c, OfOriginal, s, roots);
      FieldSlot(s1.mem, s1.table, visited[j], visited[j] + o) && Target(s1.mem, visited[j] + o) in s1.table
      <==> StaleField(s.mem, s.table, visited, j, o)
  {
    hide IsSlot, Target, Heap, Graph, Evacuate, Collect, RootPlaces, WellPlaced, Fits, TableOfCopies, IsCopy;
    EndHeap(c, s, roots);
    CollectionOutcome(c, OfOriginal, s, roots);
    var e := Evacuate(c, OfOriginal, s, roots).e;
    var s1 := Collect(c, OfOriginal, s, roots);
    CopyEntry(s.table, e.visited, s1.table, j);
    if o + 16 < s.table[j].size {
      assert CopiesFaithful(s.mem, s.table, e) by { HeapFaithful(c, s.active.Other(), s.mem, s.table, e); }
      CopiedField(s.mem, s.table, e, j, o);
      ManagedIsCopy(s.table, e.visited, s1.table, Target(s1.mem, e.visited[j] + o));
    }
  }

  lemma ManagedIsCopy(t0: Table, visited: map<nat, nat>, t: Table, a: nat)
    requires TableOfCopies(t0, visited, t)
    ensures a in t <==> IsCopy(visited, a)
  {}

  lemma HeapFaithful(c: Config, to: Space, m0: Memory, t0: Table, e: Evac)
    requires Heap(c, to, m0, t0, e)
    ensures CopiesFaithful(m0, t0, e)
  {}

  // So no managed object points to a managed object exactly when no retained object has a stale field.
  lemma NoEdgesAfter(c: Config, s: State, roots: seq<nat>)
    requires Invariant(c, s) && RootPlaces(c, |s.mem|, roots) && Fits(c, OfOriginal, s, roots)
    ensures var visited := Evacuate(c, OfOriginal, s, roots).e.visited; var s1 := Collect(c, OfOriginal, s, roots);
      NoEdges(s1.mem, s1.table) <==> forall j: nat, o: nat :: !StaleField(s.mem, s.table, visited, j, o)
  {
    hide IsSlot, Target, Evacuate, Collect, RootPlaces, WellPlaced, Inside, TableOfCopies, FieldSlot, StaleField;
    hide Invariant, HalfDone;
    var visited := Evacuate(c, OfOriginal, s, roots).e.visited;
    var s1 := Collect(c, OfOriginal, s, roots);
    CollectionOutcome(c, OfOriginal, s, roots);
    forall j: nat, o: nat | j in visited && StaleField(s.mem, s.table, visited, j, o)
      ensures FieldSlot(s1.mem, s1.table, visited[j], visited[j] + o) && Target(s1.mem, visited[j] + o) in s1.table
    {
      EdgesAfter(c, s, roots, j, o);
    }
    forall j: nat, o: nat | StaleField(s.mem, s.table, visited, j, o)
      ensures j in visited
    {
      StaleVisited(s.mem, s.table, visited, j, o);
    }
    forall a, b: nat | FieldSlot(s1.mem, s1.table, a, b) && Target(s1.mem, b) in s1.table
      ensures exists j: nat, o: nat :: StaleField(s.mem, s.table, visited, j, o)
    {
      var j := CopiedFrom(s.table, visited, s1.table, s1.mem, a, b);
      EdgesAfter(c, s, roots, j, b - a);
    }
  }

  lemma StaleVisited(m0: Memory, t0: Table, visited: map<nat, nat>, j: nat, o: nat)
    requires StaleField(m0, t0, visited, j, o)
    ensures j in visited
  {}

  // The original whose copy is a.
  lemma CopiedFrom(t0: Table, visited: map<nat, nat>, t1: Table, m1: Memory, a: nat, b: nat) returns (k: nat)
    requires TableOfCopies(t0, visited, t1) && FieldSlot(m1, t1, a, b)
    ensures k in visited && visited[k] == a && a <= b
  {
    hide IsSlot;
    k :| k in visited && visited[k] == a;
  }

  // Without pointers into the next to-space there is nothing stale.
  lemma CleanIsNotStale(c: Config, s: State, roots: seq<nat>)
    requires Invariant(c, s) && RootPlaces(c, |s.mem|, roots) && Fits(c, OfOriginal, s, roots)
    requires NoStalePointers(c, s, roots)
    ensures var visited := Evacuate(c, OfOriginal, s, roots).e.visited;
      && (forall j: nat, o: nat :: !StaleField(s.mem, s.table, visited, j, o))
      && (forall r :: r in roots ==> !StaleRoot(s.mem, visited, r))
  {
    hide IsSlot, Target, Heap, Graph, Evacuate, RootPlaces, WellPlaced, Fits, NoStalePointers;
    EndHeap(c, s, roots);
    var to, e := s.active.Other(), Evacuate(c, OfOriginal, s, roots).e;
    HeapFixed(c, to, s.mem, s.table, e);
    forall a | IsCopy(e.visited, a)
      ensures c.InSpace(to, a)
    {
      var k :| k in e.visited && e.visited[k] == a;
      CopyInTo(c, to, s.mem, s.table, e, k);
    }
    CleanFields(c, s, roots, e.visited);
  }

  lemma CleanFields(c: Config, s: State, roots: seq<nat>, visited: map<nat, nat>)
    requires NoStalePointers(c, s, roots)
    requires forall a :: IsCopy(visited, a) ==> c.InSpace(s.active.Other(), a)
    ensures forall j: nat, o: nat :: !StaleField(s.mem, s.table, visited, j, o)
    ensures forall r :: r in roots ==> !StaleRoot(s.mem, visited, r)
  {
    hide IsSlot, Target, IsCopy;
    forall j: nat, o: nat
      ensures !StaleField(s.mem, s.table, visited, j, o)
    {
      NotStale(c, s, roots, j, o);
    }
  }

  lemma NotStale(c: Config, s: State, roots: seq<nat>, k: nat, o: nat)
    requires NoStalePointers(c, s, roots)
    ensures k in s.table && o + 16 <= s.table[k].size && IsSlot(s.mem, k + o) ==>
      !c.InSpace(s.active.Other(), Target(s.mem, k + o))
  {
    hide IsSlot, Target;
  }

  // ---- The second collection ----

  // Without edges only the objects the roots name are reachable.
  lemma FlatReach(m: Memory, t: Table, roots: seq<nat>, k: nat)
    requires NoEdges(m, t)
    ensures Reachable(m, t, roots, k) <==> k in t && NamedByRoot(m, roots, k)
  {
    hide IsSlot, Target, FieldSlot;
    if k in t && NamedByRoot(m, roots, k) {
      NamedReaches(m, t, roots, k);
    }
    if Reachable(m, t, roots, k) {
      var root, offsets :| ValidWalk(m, t, roots, root, offsets) && Walk(m, root, offsets) == k;
      FlatWalk(m, t, roots, root, offsets);
    }
  }

  lemma NamedReaches(m: Memory, t: Table, roots: seq<nat>, k: nat)
    requires k in t && NamedByRoot(m, roots, k)
    ensures Reachable(m, t, roots, k)
  {
    hide IsSlot, Target, Reachable;
    var r :| r in roots && IsSlot(m, r) && Target(m, r) == k;
    RootReaches(m, t, roots, r);
  }

  lemma FlatWalk(m: Memory, t: Table, roots: seq<nat>, root: nat, offsets: seq<nat>)
    requires NoEdges(m, t) && ValidWalk(m, t, roots, root, offsets)
    ensures offsets == [] && root in roots && IsSlot(m, root) && Walk(m, root, offsets) in t
  {
    hide IsSlot, Target, FieldSlot;
  }

  // A root that named an object names its copy after the collection.
  lemma RootNamesCopy(c: Config, s: State, roots: seq<nat>, e: Evac, k: nat)
    requires Heap(c, s.active.Other(), s.mem, s.table, e)
    requires Graph(c, s.active.Other(), s.mem, s.table, roots, roots, e, [])
    requires k in e.visited && NamedByRoot(s.mem, roots, k)
    ensures NamedByRoot(e.mem, roots, e.visited[k])
  {
    hide IsSlot, Target, FieldSlot, StackFine, Sound, Fixed, CopiesFaithful, UnvisitedUntouched, OnlyForwarded;
    var to := s.active.Other();
    CopyBounds(c, to, s.mem, s.table, e, k);
    var r :| r in roots && IsSlot(s.mem, r) && Target(s.mem, r) == k;
    RootOff(c, to, |s.mem|, roots, r);
    assert Settled(s.mem, s.table, e, r);
  }

  // A root that names a copy named the original, or was stale.
  lemma RootNamedOriginal(c: Config, s: State, roots: seq<nat>, e: Evac, k: nat)
    requires Heap(c, s.active.Other(), s.mem, s.table, e)
    requires Graph(c, s.active.Other(), s.mem, s.table, roots, roots, e, [])
    requires k in e.visited && NamedByRoot(e.mem, roots, e.visited[k])
    requires forall r :: r in roots ==> !StaleRoot(s.mem, e.visited, r)
    ensures NamedByRoot(s.mem, roots, k)
  {
    hide IsSlot, Target, FieldSlot, StackFine, Sound, Fixed, CopiesFaithful, UnvisitedUntouched, OnlyForwarded;
    var to := s.active.Other();
    var r :| r in roots && IsSlot(e.mem, r) && Target(e.mem, r) == e.visited[k];
    RootOff(c, to, |s.mem|, roots, r);
    var t := Target(s.mem, r);
    if t != k {
      assert IsCopy(e.visited, e.visited[k]);
      assert t in e.visited && e.visited[t] == e.visited[k];
      CopiesDistinct(c, to, s.mem, s.table, e, t, k);
    }
  }

  lemma CopyInTo(c: Config, to: Space, m0: Memory, t0: Table, e: Evac, k: nat)
    requires Fixed(c, to, m0, t0, e) && k in e.visited
    ensures c.InSpace(to, e.visited[k])
  {
    hide IsPow2, AlignedTo, CopiesApart, NothingElse, Accounted;
    assert CopyPlaced(c, to, t0[k], e.visited[k], e.next);
  }

  lemma CopiesDistinct(c: Config, to: Space, m0: Memory, t0: Table, e: Evac, j: nat, k: nat)
    requires Fixed(c, to, m0, t0, e) && j in e.visited && k in e.visited && j != k
    ensures e.visited[j] != e.visited[k]
  {
    hide IsPow2, AlignedTo, CopiesKept, NothingElse, Accounted;
  }

  // An object a root names survives any two collections that complete.
  lemma NamedSurvivesTwice(c: Config, s: State, roots: seq<nat>, k: nat)
    requires Invariant(c, s) && RootPlaces(c, |s.mem|, roots) && Fits(c, OfOriginal, s, roots)
    requires Fits(c, OfOriginal, Collect(c, OfOriginal, s, roots), roots)
    requires k in s.table && NamedByRoot(s.mem, roots, k)
    ensures var v1 := Evacuate(c, OfOriginal, s, roots).e.visited;
      k in v1 && v1[k] in Evacuate(c, OfOriginal, Collect(c, OfOriginal, s, roots), roots).e.visited
  {
    hide IsSlot, Target, Heap, Graph, Evacuate, Collect, RootPlaces, TableOfCopies, Reachable, WellPlaced, Fits;
    hide NamedByRoot;
    var s1 := Collect(c, OfOriginal, s, roots);
    var e := Evacuate(c, OfOriginal, s, roots).e;
    EndHeap(c, s, roots);
    CollectionOutcome(c, OfOriginal, s, roots);
    ExactRetention(c, s, roots);
    NamedReaches(s.mem, s.table, roots, k);
    ExactRetention(c, s1, roots);
    CopyEntry(s.table, e.visited, s1.table, k);
    RootNamesCopy(c, s, roots, e, k);
    NamedReaches(s1.mem, s1.table, roots, e.visited[k]);
  }

  // Where nothing is stale nothing else does: whatever was reachable only through another object is lost.
  lemma SurvivesTwice(c: Config, s: State, roots: seq<nat>, k: nat)
    requires Invariant(c, s) && RootPlaces(c, |s.mem|, roots) && Fits(c, OfOriginal, s, roots)
    requires Fits(c, OfOriginal, Collect(c, OfOriginal, s, roots), roots)
    requires var visited := Evacuate(c, OfOriginal, s, roots).e.visited;
      && (forall j: nat, o: nat :: !StaleField(s.mem, s.table, visited, j, o))
      && (forall r :: r in roots ==> !StaleRoot(s.mem, visited, r))
    requires Reachable(s.mem, s.table, roots, k)
    ensures var v1 := Evacuate(c, OfOriginal, s, roots).e.visited;
      var s1 := Collect(c, OfOriginal, s, roots);
      var v2 := Evacuate(c, OfOriginal, s1, roots).e.visited;
      k in v1 && (v1[k] in v2 <==> NamedByRoot(s.mem, roots, k))
  {
    hide IsSlot, Target, Heap, Graph, Evacuate, Collect, RootPlaces, TableOfCopies, Reachable, WellPlaced, Fits;
    hide NoEdges, NamedByRoot, StaleField, StaleRoot;
    var s1 := Collect(c, OfOriginal, s, roots);
    var e := Evacuate(c, OfOriginal, s, roots).e;
    EndHeap(c, s, roots);
    CollectionOutcome(c, OfOriginal, s, roots);
    RetainedIffReachable(c, s.active.Other(), s.mem, s.table, roots, e, k);
    NoEdgesAfter(c, s, roots);
    ExactRetention(c, s1, roots);
    CopyEntry(s.table, e.visited, s1.table, k);
    FlatReach(s1.mem, s1.table, roots, e.visited[k]);
    if NamedByRoot(s.mem, roots, k) {
      RootNamesCopy(c, s, roots, e, k);
    }
    if NamedByRoot(s1.mem, roots, e.visited[k]) {
      RootNamedOriginal(c, s, roots, e, k);
    }
  }

  // ---- In general ----

  // From a root slot through stale fields to object k: the edges the first collection leaves.
  ghost predicate StaleWalk(
    m0: Memory, t0: Table, roots: seq<nat>, visited: map<nat, nat>, root: nat, offsets: seq<nat>, k: nat)
    decreases |offsets|
  {
    && k in visited
    && if offsets == [] then root in roots && IsSlot(m0, root) && SlotValue(visited, k, Target(m0, root))
       else
         var front, o := offsets[..|offsets| - 1], offsets[|offsets| - 1];
         exists j: nat :: StaleWalk(m0, t0, roots, visited, root, front, j) && StaleStep(m0, t0, visited, j, o, k)
  }

  // Object j has a stale field at o that holds the address of k's copy.
  ghost predicate StaleStep(m0: Memory, t0: Table, visited: map<nat, nat>, j: nat, o: nat, k: nat) {
    StaleField(m0, t0, visited, j, o) && k in visited && Target(m0, j + o) == visited[k]
  }

  // A root names the copy of k after the collection exactly when it named k, or, stale, that copy.
  lemma RootAfter(c: Config, to: Space, s: State, roots: seq<nat>, e: Evac, root: nat, k: nat)
    requires Heap(c, to, s.mem, s.table, e) && Graph(c, to, s.mem, s.table, roots, roots, e, [])
    requires root in roots && k in e.visited
    ensures IsSlot(e.mem, root) == IsSlot(s.mem, root)
    ensures IsSlot(s.mem, root) ==>
      (Target(e.mem, root) == e.visited[k] <==> SlotValue(e.visited, k, Target(s.mem, root)))
  {
    hide IsSlot, Target, FieldSlot, StackFine, Sound, Fixed, CopiesFaithful, UnvisitedUntouched, OnlyForwarded, Inside;
    RootOff(c, to, |s.mem|, roots, root);
    assert Settled(s.mem, s.table, e, root);
    CopyBounds(c, to, s.mem, s.table, e, k);
    var t := Target(s.mem, root);
    if IsSlot(s.mem, root) && t in e.visited && t != k {
      CopyBounds(c, to, s.mem, s.table, e, t);
      CopiesDistinct(c, to, s.mem, s.table, e, t, k);
    }
  }

  // The walks of the second collection are exactly those from roots through stale fields.
  lemma {:induction false} WalksAfter(c: Config, s: State, roots: seq<nat>, root: nat, offsets: seq<nat>, k: nat)
    requires Invariant(c, s) && RootPlaces(c, |s.mem|, roots) && Fits(c, OfOriginal, s, roots)
    requires k in Evacuate(c, OfOriginal, s, roots).e.visited
    ensures var visited := Evacuate(c, OfOriginal, s, roots).e.visited; var s1 := Collect(c, OfOriginal, s, roots);
      ValidWalk(s1.mem, s1.table, roots, root, offsets) && Walk(s1.mem, root, offsets) == visited[k]
      <==> StaleWalk(s.mem, s.table, roots, visited, root, offsets, k)
    decreases |offsets|
  {
    hide IsSlot, Target, Heap, Graph, Evacuate, Collect, RootPlaces, WellPlaced, Inside, TableOfCopies, FieldSlot;
    hide StaleField, HalfDone, SlotValue;
    EndHeap(c, s, roots);
    CollectionOutcome(c, OfOriginal, s, roots);
    var visited := Evacuate(c, OfOriginal, s, roots).e.visited;
    var s1 := Collect(c, OfOriginal, s, roots);
    CopyEntry(s.table, visited, s1.table, k);
    if offsets == [] {
      if root in roots {
        RootAfter(c, s.active.Other(), s, roots, Evacuate(c, OfOriginal, s, roots).e, root, k);
      }
    } else {
      var front, o := offsets[..|offsets| - 1], offsets[|offsets| - 1];
      if ValidWalk(s1.mem, s1.table, roots, root, offsets) && Walk(s1.mem, root, offsets) == visited[k] {
        var j := CopyAtWalk(s.table, visited, s1, roots, root, front);
        WalksAfter(c, s, roots, root, front, j);
        StepAfter(c, s, roots, j, o, k);
      }
      if StaleWalk(s.mem, s.table, roots, visited, root, offsets, k) {
        var j: nat :| StaleWalk(s.mem, s.table, roots, visited, root, front, j)
          && StaleStep(s.mem, s.table, visited, j, o, k);
        StaleVisited(s.mem, s.table, visited, j, o);
        WalksAfter(c, s, roots, root, front, j);
        StepAfter(c, s, roots, j, o, k);
      }
    }
  }

  lemma CopyAtWalk(t0: Table, visited: map<nat, nat>, s1: State, roots: seq<nat>, root: nat, offsets: seq<nat>)
    returns (j: nat)
    requires TableOfCopies(t0, visited, s1.table) && ValidWalk(s1.mem, s1.table, roots, root, offsets)
    ensures j in visited && Walk(s1.mem, root, offsets) == visited[j]
  {
    hide IsSlot, Target, FieldSlot;
    assert IsCopy(visited, Walk(s1.mem, root, offsets));
    j :| j in visited && visited[j] == Walk(s1.mem, root, offsets);
  }

  lemma StepAfter(c: Config, s: State, roots: seq<nat>, j: nat, o: nat, k: nat)
    requires Invariant(c, s) && RootPlaces(c, |s.mem|, roots) && Fits(c, OfOriginal, s, roots)
    requires j in Evacuate(c, OfOriginal, s, roots).e.visited && k in Evacuate(c, OfOriginal, s, roots).e.visited
    ensures var visited := Evacuate(c, OfOriginal, s, roots).e.visited; var s1 := Collect(c, OfOriginal, s, roots);
      FieldSlot(s1.mem, s1.table, visited[j], visited[j] + o) && Target(s1.mem, visited[j] + o) == visited[k]
      <==> StaleStep(s.mem, s.table, visited, j, o, k)
  {
    hide IsSlot, Target, Heap, Graph, Evacuate, Collect, RootPlaces, WellPlaced, Inside, TableOfCopies, IsCopy;
    hide HalfDone;
    EndHeap(c, s, roots);
    CollectionOutcome(c, OfOriginal, s, roots);
    var e := Evacuate(c, OfOriginal, s, roots).e;
    var s1 := Collect(c, OfOriginal, s, roots);
    EdgesAfter(c, s, roots, j, o);
    CopyEntry(s.table, e.visited, s1.table, j);
    CopyEntry(s.table, e.visited, s1.table, k);
    if o + 16 < s.table[j].size {
      assert CopiesFaithful(s.mem, s.table, e) by { HeapFaithful(c, s.active.Other(), s.mem, s.table, e); }
      CopiedField(s.mem, s.table, e, j, o);
    }
  }

  // Whatever the heap holds: an object survives two collections exactly when a root names it, or a stale
  // root or a chain of stale fields from such a root happens to name its copy.
  lemma SurvivesTwiceExactly(c: Config, s: State, roots: seq<nat>, k: nat)
    requires Invariant(c, s) && RootPlaces(c, |s.mem|, roots) && Fits(c, OfOriginal, s, roots)
    requires Fits(c, OfOriginal, Collect(c, OfOriginal, s, roots), roots)
    requires k in Evacuate(c, OfOriginal, s, roots).e.visited
    ensures var v1 := Evacuate(c, OfOriginal, s, roots).e.visited;
      v1[k] in Evacuate(c, OfOriginal, Collect(c, OfOriginal, s, roots), roots).e.visited
      <==> exists root, offsets :: StaleWalk(s.mem, s.table, roots, v1, root, offsets, k)
  {
    hide IsSlot, Target, Evacuate, Collect, RootPlaces, TableOfCopies, WellPlaced, Inside, HalfDone;
    hide ValidWalk, Walk, StaleWalk;
    var s1 := Collect(c, OfOriginal, s, roots);
    var v1 := Evacuate(c, OfOriginal, s, roots).e.visited;
    CollectionOutcome(c, OfOriginal, s, roots);
    ExactRetention(c, s1, roots);
    if v1[k] in Evacuate(c, OfOriginal, s1, roots).e.visited {
      var root, offsets :| ValidWalk(s1.mem, s1.table, roots, root, offsets) && Walk(s1.mem, root, offsets) == v1[k];
      WalksAfter(c, s, roots, root, offsets, k);
    }
    if exists root, offsets :: StaleWalk(s.mem, s.table, roots, v1, root, offsets, k) {
      var root, offsets :| StaleWalk(s.mem, s.table, roots, v1, root, offsets, k);
      WalksAfter(c, s, roots, root, offsets, k);
    }
  }

  // Room for the reachable objects is room for every later collection from the same roots.
  lemma LiveSlackAfter(c: Config, s: State, roots: seq<nat>)
    requires Invariant(c, s) && RootPlaces(c, |s.mem|, roots) && LiveSlack(c, s.mem, s.table, roots)
    ensures var s1 := Collect(c, OfOriginal, s, roots); LiveSlack(c, s1.mem, s1.table, roots)
  {
    hide Sum, TableOfCopies, WellPlaced, Evacuate, Collect, RootPlaces, Reachable, Fits;
    LiveSlackFits(c, s, roots);
    ExactRetention(c, s, roots);
    var visited := Evacuate(c, OfOriginal, s, roots).e.visited;
    var s1 := Collect(c, OfOriginal, s, roots);
    CopiesOfKeys(s.table, visited, s1.table);
    assert visited.Keys == Live(s.mem, s.table, roots);
    SumOfCopies(s.table, visited, s1.table, true);
    SumMonotone(s1.table, Live(s1.mem, s1.table, roots), s1.table.Keys, true);
  }

  lemma CopiesOfKeys(t0: Table, visited: map<nat, nat>, t: Table)
    requires TableOfCopies(t0, visited, t)
    ensures visited.Keys <= t0.Keys
  {}
}
