/**
 The copy-scanning variant over whole runs: collections and allocations leave the
 object graph a mutator sees unchanged.
 */
module VariantRuns {
  import opened Bits
  import opened FatPtrs
  import opened Heaps
  import opened Ledgers
  import opened Evacuation
  import opened Retention
  import opened Collections
  import opened CopyScanning
  import opened CopyRetention
  import opened Runs

  // ---- The graph as seen through walks ----

  // Byte i of the object at the end of a walk lies in the pointer word of a field the walk can go on through.
  ghost predicate OnEdge(m: Memory, t: Table, roots: seq<nat>, root: nat, offsets: seq<nat>, i: int) {
    exists o: nat :: ValidWalk(m, t, roots, root, offsets + [o]) && o + 8 <= i < o + 16
  }

  // Both graphs have this walk or neither; its ends agree in size, alignment and payload.
  ghost predicate SameEnd(m0: Memory, t0: Table, m1: Memory, t1: Table, roots: seq<nat>, root: nat, offsets: seq<nat>) {
    && (ValidWalk(m0, t0, roots, root, offsets) <==> ValidWalk(m1, t1, roots, root, offsets))
    && (ValidWalk(m0, t0, roots, root, offsets) ==>
         var k, a := Walk(m0, root, offsets), Walk(m1, root, offsets);
         && k in t0 && a in t1 && t0[k] == t1[a]
         && SameBut(m0, t0, roots, root, offsets, k, m1, a, t0[k].size))
  }

  ghost predicate SameBut(
      m0: Memory, t0: Table, roots: seq<nat>, root: nat, offsets: seq<nat>, k: nat, m1: Memory, a: nat, n: nat)
  {
    forall i {:trigger At(m0, i)} :: k <= i < k + n ==>
      At(m1, i + (a - k)) == At(m0, i) || OnEdge(m0, t0, roots, root, offsets, i - k)
  }

  // Two walks meet in one graph exactly when they meet in the other.
  ghost predicate SameMeet(
      m0: Memory, t0: Table, m1: Memory, roots: seq<nat>, root: nat, offsets: seq<nat>, root': nat,
      offsets': seq<nat>)
  {
    ValidWalk(m0, t0, roots, root, offsets) && ValidWalk(m0, t0, roots, root', offsets') ==>
      (Walk(m0, root, offsets) == Walk(m0, root', offsets') <==> Walk(m1, root, offsets) == Walk(m1, root', offsets'))
  }

  // The two heaps hold the same rooted graph: same walks, same sharing and cycles, same payload.
  ghost predicate SameGraph(m0: Memory, t0: Table, m1: Memory, t1: Table, roots: seq<nat>) {
    && (forall root, offsets {:trigger ValidWalk(m0, t0, roots, root, offsets)} {:trigger ValidWalk(m1, t1, roots,
         root, offsets)} ::
         SameEnd(m0, t0, m1, t1, roots, root, offsets))
    && (forall root, offsets, root', offsets' {:trigger Walk(m0, root, offsets), Walk(m0, root', offsets')} ::
         SameMeet(m0, t0, m1, roots, root, offsets, root', offsets'))
  }

  lemma SameGraphRefl(m: Memory, t: Table, roots: seq<nat>)
    ensures SameGraph(m, t, m, t, roots)
  {
    hide ValidWalk, Walk, OnEdge;
    forall root, offsets
      ensures SameEnd(m, t, m, t, roots, root, offsets)
    {
      WalkEnds(m, t, roots, root, offsets);
    }
    forall root, offsets, root', offsets'
      ensures SameMeet(m, t, m, roots, root, offsets, root', offsets')
    {
    }
  }

  lemma WalkEnds(m: Memory, t: Table, roots: seq<nat>, root: nat, offsets: seq<nat>)
    ensures ValidWalk(m, t, roots, root, offsets) ==> Walk(m, root, offsets) in t
  {
    hide FieldSlot, IsSlot, Target;
  }

  lemma SameGraphTrans(m0: Memory, t0: Table, m1: Memory, t1: Table, m2: Memory, t2: Table, roots: seq<nat>)
    requires SameGraph(m0, t0, m1, t1, roots) && SameGraph(m1, t1, m2, t2, roots)
    ensures SameGraph(m0, t0, m2, t2, roots)
  {
    hide ValidWalk, Walk, SameEnd, SameMeet;
    forall root, offsets
      ensures SameEnd(m0, t0, m2, t2, roots, root, offsets)
    {
      assert SameEnd(m0, t0, m1, t1, roots, root, offsets) by { GraphEnd(m0, t0, m1, t1, roots, root, offsets); }
      assert SameEnd(m1, t1, m2, t2, roots, root, offsets) by { GraphEnd(m1, t1, m2, t2, roots, root, offsets); }
      SameEndTrans(m0, t0, m1, t1, m2, t2, roots, root, offsets);
    }
    forall root, offsets, root', offsets'
      ensures SameMeet(m0, t0, m2, roots, root, offsets, root', offsets')
    {
      GraphEnd(m0, t0, m1, t1, roots, root, offsets);
      GraphEnd(m0, t0, m1, t1, roots, root', offsets');
      GraphMeet(m0, t0, m1, t1, roots, root, offsets, root', offsets');
      GraphMeet(m1, t1, m2, t2, roots, root, offsets, root', offsets');
      SameMeetTrans(m0, t0, m1, t1, m2, roots, root, offsets, root', offsets');
    }
  }

  lemma GraphEnd(m0: Memory, t0: Table, m1: Memory, t1: Table, roots: seq<nat>, root: nat, offsets: seq<nat>)
    requires SameGraph(m0, t0, m1, t1, roots)
    ensures SameEnd(m0, t0, m1, t1, roots, root, offsets)
  {
    hide SameEnd, SameMeet;
    var b := ValidWalk(m0, t0, roots, root, offsets);
  }

  lemma GraphMeet(
      m0: Memory, t0: Table, m1: Memory, t1: Table, roots: seq<nat>, root: nat, offsets: seq<nat>, root': nat,
      offsets': seq<nat>)
    requires SameGraph(m0, t0, m1, t1, roots)
    ensures SameMeet(m0, t0, m1, roots, root, offsets, root', offsets')
  {
    hide SameEnd, SameMeet, Walk;
    var k, k' := Walk(m0, root, offsets), Walk(m0, root', offsets');
  }

  lemma SameMeetTrans(
      m0: Memory, t0: Table, m1: Memory, t1: Table, m2: Memory, roots: seq<nat>, root: nat, offsets: seq<nat>,
      root': nat, offsets': seq<nat>)
    requires SameEnd(m0, t0, m1, t1, roots, root, offsets) && SameEnd(m0, t0, m1, t1, roots, root', offsets')
    requires SameMeet(m0, t0, m1, roots, root, offsets, root', offsets')
    requires SameMeet(m1, t1, m2, roots, root, offsets, root', offsets')
    ensures SameMeet(m0, t0, m2, roots, root, offsets, root', offsets')
  {
    hide ValidWalk, Walk, SameBut;
  }

  lemma SameEndTrans(
      m0: Memory, t0: Table, m1: Memory, t1: Table, m2: Memory, t2: Table, roots: seq<nat>, root: nat,
      offsets: seq<nat>)
    requires SameGraph(m0, t0, m1, t1, roots)
    requires SameEnd(m0, t0, m1, t1, roots, root, offsets) && SameEnd(m1, t1, m2, t2, roots, root, offsets)
    ensures SameEnd(m0, t0, m2, t2, roots, root, offsets)
  {
    hide ValidWalk, Walk, SameGraph, OnEdge, At;
    if ValidWalk(m0, t0, roots, root, offsets) {
      var k, a, b := Walk(m0, root, offsets), Walk(m1, root, offsets), Walk(m2, root, offsets);
      forall i | k <= i < k + t0[k].size
        ensures At(m2, i + (b - k)) == At(m0, i) || OnEdge(m0, t0, roots, root, offsets, i - k)
      {
        assert At(m1, i + (a - k)) == At(m0, i) || OnEdge(m0, t0, roots, root, offsets, i - k);
        assert At(m2, i + (a - k) + (b - a)) == At(m1, i + (a - k))
          || OnEdge(m1, t1, roots, root, offsets, i + (a - k) - a);
        EdgeBack(m0, t0, m1, t1, roots, root, offsets, i - k);
      }
    }
  }

  lemma EdgeBack(m0: Memory, t0: Table, m1: Memory, t1: Table, roots: seq<nat>, root: nat, offsets: seq<nat>, i: int)
    requires SameGraph(m0, t0, m1, t1, roots)
    ensures OnEdge(m1, t1, roots, root, offsets, i) ==> OnEdge(m0, t0, roots, root, offsets, i)
  {
    hide ValidWalk, SameMeet, SameGraph;
    if OnEdge(m1, t1, roots, root, offsets, i) {
      var o: nat :| ValidWalk(m1, t1, roots, root, offsets + [o]) && o + 8 <= i < o + 16;
      GraphEnd(m0, t0, m1, t1, roots, root, offsets + [o]);
      EndValid(m0, t0, m1, t1, roots, root, offsets + [o]);
    }
  }

  lemma EndValid(m0: Memory, t0: Table, m1: Memory, t1: Table, roots: seq<nat>, root: nat, offsets: seq<nat>)
    requires SameEnd(m0, t0, m1, t1, roots, root, offsets)
    ensures ValidWalk(m0, t0, roots, root, offsets) <==> ValidWalk(m1, t1, roots, root, offsets)
  {
    hide ValidWalk, Walk, SameBut;
  }

  // ---- What a collection and an allocation need and keep ----

  ghost predicate CleanSlot(c: Config, m: Memory, t: Table, b: nat) {
    IsSlot(m, b) ==> Target(m, b) in t || !c.Contains(Target(m, b))
  }

  // Every pointer a walk can meet names a managed object or lies outside the heap.
  ghost predicate CleanPointers(c: Config, m: Memory, t: Table, roots: seq<nat>) {
    && (forall r :: r in roots ==> CleanSlot(c, m, t, r))
    && (forall k: nat, b: nat :: Reachable(m, t, roots, k) && FieldSlot(m, t, k, b) ==> CleanSlot(c, m, t, b))
  }

  // The final state of a collection that scans copies.
  ghost predicate Forwarded(c: Config, to: Space, m0: Memory, t0: Table, roots: seq<nat>, e: Evac, t1: Table) {
    && CopyHeap(c, to, m0, t0, e) && PointersAligned(m0, t0, roots) && CopyGraph(c, m0, t0, roots, roots, e, [])
    && TableOfCopies(t0, e.visited, t1)
  }

  // A settled slot names the copy of what its source named, or what its source named if that was not managed.
  lemma SettledValue(c: Config, to: Space, m0: Memory, t0: Table, e: Evac, s: nat, src: nat)
    requires Fixed(c, to, m0, t0, e) && ValuesKept(c, m0, t0, e) && Plays(c, m0, t0, e.visited, s, src)
    requires SettledAs(m0, t0, e, s, src)
    ensures IsSlot(e.mem, s) == IsSlot(m0, src)
    ensures IsSlot(m0, src) && Target(m0, src) in t0 ==>
      Target(m0, src) in e.visited && Target(e.mem, s) == e.visited[Target(m0, src)]
    ensures IsSlot(m0, src) && Target(m0, src) !in t0 ==> Target(e.mem, s) == Target(m0, src)
  {
    hide IsSlot, Target, Fixed, Plays;
    assert ValueKept(m0, e, s, src);
    if Target(m0, src) in e.visited {
      CopyBounds(c, to, m0, t0, e, Target(m0, src));
    }
  }

  lemma ForwardedRoot(c: Config, to: Space, m0: Memory, t0: Table, roots: seq<nat>, e: Evac, t1: Table, r: nat)
    requires Forwarded(c, to, m0, t0, roots, e, t1) && r in roots
    ensures IsSlot(e.mem, r) == IsSlot(m0, r)
    ensures IsSlot(m0, r) && Target(m0, r) in t0 ==>
      Target(m0, r) in e.visited && Target(e.mem, r) == e.visited[Target(m0, r)]
    ensures IsSlot(m0, r) && Target(m0, r) !in t0 ==> Target(e.mem, r) == Target(m0, r)
  {
    hide IsSlot, Target, Fixed, Plays, OriginalsUntouched, CopiesPayload, ValuesKept, SettledAs;
    hide CopyStackFine, Sound, TableOfCopies, PointersAligned;
    RootPlays(c, m0, t0, roots, e.visited, r);
    assert SettledAs(m0, t0, e, r, r);
    SettledValue(c, to, m0, t0, e, r, r);
  }

  lemma ForwardedField(c: Config, to: Space, m0: Memory, t0: Table, roots: seq<nat>, e: Evac, t1: Table, k: nat, s: nat)
    requires Forwarded(c, to, m0, t0, roots, e, t1) && CopyField(t0, e.visited, k, s)
    ensures var src := Source(e.visited, k, s);
      && Reachable(m0, t0, roots, k)
      && IsSlot(e.mem, s) == IsSlot(m0, src)
      && (IsSlot(m0, src) ==> FieldSlot(m0, t0, k, src))
      && (IsSlot(m0, src) && Target(m0, src) in t0 ==>
           Target(m0, src) in e.visited && Target(e.mem, s) == e.visited[Target(m0, src)])
      && (IsSlot(m0, src) && Target(m0, src) !in t0 ==> Target(e.mem, s) == Target(m0, src))
  {
    hide IsSlot, Target, Fixed, Plays, OriginalsUntouched, CopiesPayload, ValuesKept, SettledAs;
    hide CopyStackFine, TableOfCopies, PointersAligned, Reachable;
    var src := Source(e.visited, k, s);
    FieldPlays(c, m0, t0, e.visited, k, s);
    assert SettledAs(m0, t0, e, s, src);
    SettledValue(c, to, m0, t0, e, s, src);
    if IsSlot(m0, src) {
      FieldOfOriginal(c, to, m0, t0, roots, e, k, s);
    }
  }

  // No slot of a copy, and no root, still names an object that was copied.
  lemma NoOldNames(c: Config, to: Space, m0: Memory, t0: Table, roots: seq<nat>, e: Evac, t1: Table, k: nat, s: nat)
    requires Forwarded(c, to, m0, t0, roots, e, t1) && CopyField(t0, e.visited, k, s) && IsSlot(e.mem, s)
    ensures Target(e.mem, s) !in t0
  {
    hide IsSlot, Target, CopyGraph, CopyField, TableOfCopies, PointersAligned, Fixed, VariantMemory, Reachable;
    ForwardedField(c, to, m0, t0, roots, e, t1, k, s);
    var t := Target(m0, Source(e.visited, k, s));
    if t in e.visited {
      CopyBounds(c, to, m0, t0, e, t);
    }
  }

  // ---- Walks forth and back ----

  lemma {:induction false} WalkForth(
      c: Config, to: Space, m0: Memory, t0: Table, roots: seq<nat>, e: Evac, t1: Table, root: nat,
      offsets: seq<nat>)
    requires Forwarded(c, to, m0, t0, roots, e, t1) && ValidWalk(m0, t0, roots, root, offsets)
    ensures Walk(m0, root, offsets) in e.visited
    ensures ValidWalk(e.mem, t1, roots, root, offsets)
      && Walk(e.mem, root, offsets) == e.visited[Walk(m0, root, offsets)]
    decreases |offsets|
  {
    hide IsSlot, Target, CopyHeap, CopyGraph, PointersAligned, TableOfCopies, FieldSlot, Reachable;
    if offsets == [] {
      ForwardedRoot(c, to, m0, t0, roots, e, t1, root);
    } else {
      var front, o := offsets[..|offsets| - 1], offsets[|offsets| - 1];
      WalkForth(c, to, m0, t0, roots, e, t1, root, front);
      var j := Walk(m0, root, front);
      FieldForth(c, to, m0, t0, roots, e, t1, j, o);
    }
    CopyEntry(t0, e.visited, t1, Walk(m0, root, offsets));
  }

  lemma FieldForth(c: Config, to: Space, m0: Memory, t0: Table, roots: seq<nat>, e: Evac, t1: Table, j: nat, o: nat)
    requires Forwarded(c, to, m0, t0, roots, e, t1) && j in e.visited && FieldSlot(m0, t0, j, j + o)
    ensures FieldSlot(e.mem, t1, e.visited[j], e.visited[j] + o)
    ensures Target(m0, j + o) in t0 ==>
      Target(m0, j + o) in e.visited && Target(e.mem, e.visited[j] + o) == e.visited[Target(m0, j + o)]
    ensures Target(m0, j + o) !in t0 ==> Target(e.mem, e.visited[j] + o) == Target(m0, j + o)
  {
    hide IsSlot, Target, VariantMemory, CopyStackFine, CopyComplete, PointersAligned, TableOfCopies, Reachable, Fixed;
    assert Reachable(m0, t0, roots, j);
    CopyEntry(t0, e.visited, t1, j);
    FieldOfCopy(c, to, m0, t0, roots, e, j, j + o);
    ForwardedField(c, to, m0, t0, roots, e, t1, j, e.visited[j] + o);
  }

  lemma CopiesContained(c: Config, to: Space, m0: Memory, t0: Table, e: Evac, t1: Table, t: nat)
    requires Fixed(c, to, m0, t0, e) && TableOfCopies(t0, e.visited, t1) && t in t1
    ensures c.Contains(t)
  {
    hide Ledger, FromSpaceTable;
    var k :| k in e.visited && e.visited[k] == t;
    CopyBounds(c, to, m0, t0, e, k);
    ObjectNotEmpty(c, to, m0, t0, e, k);
  }

  lemma {:induction false} WalkBack(
      c: Config, to: Space, m0: Memory, t0: Table, roots: seq<nat>, e: Evac, t1: Table, root: nat,
      offsets: seq<nat>)
    requires Forwarded(c, to, m0, t0, roots, e, t1) && CleanPointers(c, m0, t0, roots)
    requires ValidWalk(e.mem, t1, roots, root, offsets)
    ensures ValidWalk(m0, t0, roots, root, offsets)
    decreases |offsets|
  {
    hide IsSlot, Target, Forwarded, CleanPointers, FieldSlot, Reachable;
    if offsets == [] {
      RootBack(c, to, m0, t0, roots, e, t1, root);
    } else {
      var front, o := offsets[..|offsets| - 1], offsets[|offsets| - 1];
      WalkBack(c, to, m0, t0, roots, e, t1, root, front);
      WalkForth(c, to, m0, t0, roots, e, t1, root, front);
      var j := Walk(m0, root, front);
      Reaches(m0, t0, roots, root, front);
      CleanFieldBack(c, to, m0, t0, roots, e, t1, j, o);
    }
  }

  lemma RootBack(c: Config, to: Space, m0: Memory, t0: Table, roots: seq<nat>, e: Evac, t1: Table, r: nat)
    requires Forwarded(c, to, m0, t0, roots, e, t1) && CleanPointers(c, m0, t0, roots)
    requires r in roots && IsSlot(e.mem, r) && Target(e.mem, r) in t1
    ensures IsSlot(m0, r) && Target(m0, r) in t0
  {
    hide IsSlot, Target, CopyHeap, CopyGraph, PointersAligned, TableOfCopies, FieldSlot, Reachable;
    HeapOf(c, to, m0, t0, e);
    CopiesContained(c, to, m0, t0, e, t1, Target(e.mem, r));
    ForwardedRoot(c, to, m0, t0, roots, e, t1, r);
    assert CleanSlot(c, m0, t0, r);
  }

  lemma CleanFieldBack(c: Config, to: Space, m0: Memory, t0: Table, roots: seq<nat>, e: Evac, t1: Table, j: nat, o: nat)
    requires Forwarded(c, to, m0, t0, roots, e, t1) && CleanPointers(c, m0, t0, roots) && Reachable(m0, t0, roots, j)
    requires j in e.visited && FieldSlot(e.mem, t1, e.visited[j], e.visited[j] + o)
    requires Target(e.mem, e.visited[j] + o) in t1
    ensures FieldSlot(m0, t0, j, j + o) && Target(m0, j + o) in t0
  {
    hide IsSlot, Target, Forwarded, CleanPointers, TableOfCopies, FieldSlot, Reachable, Fixed;
    assert Fixed(c, to, m0, t0, e) && TableOfCopies(t0, e.visited, t1) by {
      ForwardedHeap(c, to, m0, t0, roots, e, t1); }
    CopiesContained(c, to, m0, t0, e, t1, Target(e.mem, e.visited[j] + o));
    FieldBack(c, to, m0, t0, roots, e, t1, j, o);
    CleanField(c, m0, t0, roots, j, j + o);
  }

  lemma ForwardedHeap(c: Config, to: Space, m0: Memory, t0: Table, roots: seq<nat>, e: Evac, t1: Table)
    requires Forwarded(c, to, m0, t0, roots, e, t1)
    ensures Fixed(c, to, m0, t0, e) && VariantMemory(c, m0, t0, e) && TableOfCopies(t0, e.visited, t1)
  {
    hide Fixed, VariantMemory, TableOfCopies;
  }

  lemma CleanField(c: Config, m: Memory, t: Table, roots: seq<nat>, k: nat, b: nat)
    requires CleanPointers(c, m, t, roots) && Reachable(m, t, roots, k) && FieldSlot(m, t, k, b)
    ensures IsSlot(m, b) && (Target(m, b) in t || !c.Contains(Target(m, b)))
  {
    hide IsSlot, Target, Reachable;
    assert CleanSlot(c, m, t, b);
  }

  lemma HeapOf(c: Config, to: Space, m0: Memory, t0: Table, e: Evac)
    requires CopyHeap(c, to, m0, t0, e)
    ensures Fixed(c, to, m0, t0, e) && VariantMemory(c, m0, t0, e) && |e.mem| == |m0|
  {}

  lemma Reaches(m: Memory, t: Table, roots: seq<nat>, root: nat, offsets: seq<nat>)
    requires ValidWalk(m, t, roots, root, offsets)
    ensures Reachable(m, t, roots, Walk(m, root, offsets))
  {}

  lemma FieldBack(c: Config, to: Space, m0: Memory, t0: Table, roots: seq<nat>, e: Evac, t1: Table, j: nat, o: nat)
    requires Forwarded(c, to, m0, t0, roots, e, t1) && j in e.visited
    requires FieldSlot(e.mem, t1, e.visited[j], e.visited[j] + o)
    ensures FieldSlot(m0, t0, j, j + o)
    ensures Target(m0, j + o) in t0 ==>
      Target(m0, j + o) in e.visited && Target(e.mem, e.visited[j] + o) == e.visited[Target(m0, j + o)]
    ensures Target(m0, j + o) !in t0 ==> Target(e.mem, e.visited[j] + o) == Target(m0, j + o)
  {
    hide IsSlot, Target, CopyHeap, CopyGraph, PointersAligned, TableOfCopies, Reachable;
    CopyEntry(t0, e.visited, t1, j);
    assert CopyField(t0, e.visited, j, e.visited[j] + o);
    ForwardedField(c, to, m0, t0, roots, e, t1, j, e.visited[j] + o);
  }

  // ---- One collection ----

  lemma VisitedIffReachable(c: Config, to: Space, m0: Memory, t0: Table, roots: seq<nat>, e: Evac, t1: Table, k: nat)
    requires Forwarded(c, to, m0, t0, roots, e, t1)
    ensures k in e.visited <==> Reachable(m0, t0, roots, k)
  {
    hide IsSlot, Target, CopyHeap, CopyStackFine, CopyComplete, PointersAligned, TableOfCopies, ValidWalk;
    if Reachable(m0, t0, roots, k) {
      var root, offsets :| ValidWalk(m0, t0, roots, root, offsets) && Walk(m0, root, offsets) == k;
      WalkForth(c, to, m0, t0, roots, e, t1, root, offsets);
    }
  }

  lemma EndPayload(
      c: Config, to: Space, m0: Memory, t0: Table, roots: seq<nat>, e: Evac, t1: Table, root: nat,
      offsets: seq<nat>)
    requires Forwarded(c, to, m0, t0, roots, e, t1) && ValidWalk(m0, t0, roots, root, offsets)
    requires Walk(m0, root, offsets) in e.visited && Walk(m0, root, offsets) in t0
    ensures var k := Walk(m0, root, offsets);
      SameBut(m0, t0, roots, root, offsets, k, e.mem, e.visited[k], t0[k].size)
  {
    hide IsSlot, Target, Forwarded, ValidWalk, Walk, CopyField, OnEdge;
    var k := Walk(m0, root, offsets);
    var a := e.visited[k];
    ForwardedPayload(c, to, m0, t0, roots, e, t1, k);
    forall i | k <= i < k + t0[k].size
      ensures At(e.mem, i + (a - k)) == At(m0, i) || OnEdge(m0, t0, roots, root, offsets, i - k)
    {
      if At(e.mem, i + (a - k)) != At(m0, i + (a - k) - a + k) {
        var s: nat :| CopyField(t0, e.visited, k, s) && s + 8 <= i + (a - k) < s + 16
          && IsSlot(m0, s - a + k) && Target(m0, s - a + k) in e.visited;
        EdgeOfField(c, to, m0, t0, roots, e, t1, root, offsets, s, i - k);
      }
    }
  }

  lemma ForwardedPayload(c: Config, to: Space, m0: Memory, t0: Table, roots: seq<nat>, e: Evac, t1: Table, k: nat)
    requires Forwarded(c, to, m0, t0, roots, e, t1) && k in e.visited && k in t0
    ensures CopyPayload(m0, t0, e, k)
  {
    hide CopyGraph, PointersAligned, TableOfCopies, Fixed, ValuesKept, OriginalsUntouched, CopyPayload;
  }

  lemma EdgeOfField(
      c: Config, to: Space, m0: Memory, t0: Table, roots: seq<nat>, e: Evac, t1: Table, root: nat,
      offsets: seq<nat>, s: nat, i: int)
    requires Forwarded(c, to, m0, t0, roots, e, t1) && ValidWalk(m0, t0, roots, root, offsets)
    requires var k := Walk(m0, root, offsets);
      CopyField(t0, e.visited, k, s) && IsSlot(m0, s - e.visited[k] + k)
        && Target(m0, s - e.visited[k] + k) in e.visited
      && s + 8 <= e.visited[k] + i < s + 16
    ensures OnEdge(m0, t0, roots, root, offsets, i)
  {
    hide IsSlot, Target, Forwarded, ValidWalk, Walk, FieldSlot, Reachable;
    var k := Walk(m0, root, offsets);
    var src := Source(e.visited, k, s);
    ForwardedField(c, to, m0, t0, roots, e, t1, k, s);
    VisitedManaged(c, to, m0, t0, roots, e, t1, Target(m0, src));
    WalkFurther(m0, t0, roots, root, offsets, src - k);
  }

  lemma VisitedManaged(c: Config, to: Space, m0: Memory, t0: Table, roots: seq<nat>, e: Evac, t1: Table, k: nat)
    requires Forwarded(c, to, m0, t0, roots, e, t1) && k in e.visited
    ensures k in t0
  {
    hide CopyHeap, CopyGraph, PointersAligned;
  }

  // The space the copies are in holds the graph that was reachable, node for node.
  lemma Isomorphic(c: Config, to: Space, m0: Memory, t0: Table, roots: seq<nat>, e: Evac, t1: Table)
    requires Forwarded(c, to, m0, t0, roots, e, t1) && CleanPointers(c, m0, t0, roots)
    ensures SameGraph(m0, t0, e.mem, t1, roots)
  {
    hide Forwarded, CleanPointers, ValidWalk, Walk, SameBut;
    forall root, offsets
      ensures SameEnd(m0, t0, e.mem, t1, roots, root, offsets)
    {
      if ValidWalk(m0, t0, roots, root, offsets) {
        WalkForth(c, to, m0, t0, roots, e, t1, root, offsets);
        EndsAgree(c, to, m0, t0, roots, e, t1, Walk(m0, root, offsets));
        EndPayload(c, to, m0, t0, roots, e, t1, root, offsets);
      }
      if ValidWalk(e.mem, t1, roots, root, offsets) {
        WalkBack(c, to, m0, t0, roots, e, t1, root, offsets);
      }
    }
    forall root, offsets, root', offsets'
      ensures SameMeet(m0, t0, e.mem, roots, root, offsets, root', offsets')
    {
      if ValidWalk(m0, t0, roots, root, offsets) && ValidWalk(m0, t0, roots, root', offsets') {
        WalkForth(c, to, m0, t0, roots, e, t1, root, offsets);
        WalkForth(c, to, m0, t0, roots, e, t1, root', offsets');
        CopiesDiffer(c, to, m0, t0, roots, e, t1, Walk(m0, root, offsets), Walk(m0, root', offsets'));
      }
    }
  }

  lemma EndsAgree(c: Config, to: Space, m0: Memory, t0: Table, roots: seq<nat>, e: Evac, t1: Table, k: nat)
    requires Forwarded(c, to, m0, t0, roots, e, t1) && k in e.visited
    ensures k in t0 && e.visited[k] in t1 && t1[e.visited[k]] == t0[k]
  {
    hide CopyHeap, CopyGraph, PointersAligned, TableOfCopies;
    CopyEntry(t0, e.visited, t1, k);
  }

  lemma CopiesDiffer(c: Config, to: Space, m0: Memory, t0: Table, roots: seq<nat>, e: Evac, t1: Table, j: nat, k: nat)
    requires Forwarded(c, to, m0, t0, roots, e, t1) && j in e.visited && k in e.visited
    ensures j == k <==> e.visited[j] == e.visited[k]
  {
    hide CopyHeap, CopyGraph, PointersAligned;
  }

  // ---- Clean pointers and pointer alignment are kept ----

  lemma CollectClean(c: Config, to: Space, m0: Memory, t0: Table, roots: seq<nat>, e: Evac, t1: Table)
    requires Forwarded(c, to, m0, t0, roots, e, t1) && CleanPointers(c, m0, t0, roots)
    ensures CleanPointers(c, e.mem, t1, roots)
  {
    hide Forwarded, IsSlot, Target, FieldSlot, Reachable;
    forall r | r in roots
      ensures CleanSlot(c, e.mem, t1, r)
    {
      assert CleanSlot(c, m0, t0, r);
      ForwardedRoot(c, to, m0, t0, roots, e, t1, r);
      if IsSlot(m0, r) && Target(m0, r) in t0 {
        EndsAgree(c, to, m0, t0, roots, e, t1, Target(m0, r));
      }
    }
    forall a: nat, b: nat | Reachable(e.mem, t1, roots, a) && FieldSlot(e.mem, t1, a, b)
      ensures CleanSlot(c, e.mem, t1, b)
    {
      FieldClean(c, to, m0, t0, roots, e, t1, a, b);
    }
  }

  lemma ReachedFrom(
      c: Config, to: Space, m0: Memory, t0: Table, roots: seq<nat>, e: Evac, t1: Table, a: nat) returns (j: nat)
    requires Forwarded(c, to, m0, t0, roots, e, t1) && CleanPointers(c, m0, t0, roots) && Reachable(e.mem, t1, roots, a)
    ensures j in e.visited && e.visited[j] == a && Reachable(m0, t0, roots, j)
  {
    hide Forwarded, CleanPointers, ValidWalk, Walk;
    var root, offsets :| ValidWalk(e.mem, t1, roots, root, offsets) && Walk(e.mem, root, offsets) == a;
    WalkBack(c, to, m0, t0, roots, e, t1, root, offsets);
    WalkForth(c, to, m0, t0, roots, e, t1, root, offsets);
    j := Walk(m0, root, offsets);
  }

  lemma FieldClean(c: Config, to: Space, m0: Memory, t0: Table, roots: seq<nat>, e: Evac, t1: Table, a: nat, b: nat)
    requires Forwarded(c, to, m0, t0, roots, e, t1) && CleanPointers(c, m0, t0, roots)
    requires Reachable(e.mem, t1, roots, a) && FieldSlot(e.mem, t1, a, b)
    ensures CleanSlot(c, e.mem, t1, b)
  {
    hide Forwarded, CleanPointers, IsSlot, Target, FieldSlot, Reachable;
    var j := ReachedFrom(c, to, m0, t0, roots, e, t1, a);
    FieldFits(e.mem, t1, a, b);
    FieldBack(c, to, m0, t0, roots, e, t1, j, b - a);
    CleanField(c, m0, t0, roots, j, j + (b - a));
    if Target(m0, j + (b - a)) in t0 {
      EndsAgree(c, to, m0, t0, roots, e, t1, Target(m0, j + (b - a)));
    }
  }

  lemma CollectAligned(c: Config, to: Space, m0: Memory, t0: Table, roots: seq<nat>, e: Evac, t1: Table)
    requires Forwarded(c, to, m0, t0, roots, e, t1) && CleanPointers(c, m0, t0, roots)
    ensures PointersAligned(e.mem, t1, roots)
  {
    hide Forwarded, CleanPointers, NoPattern, Reachable;
    forall a | a in t1 && Reachable(e.mem, t1, roots, a)
      ensures t1[a].alignment % 8 == 0 || NoPattern(e.mem, a, t1[a].size)
    {
      var j := ReachedFrom(c, to, m0, t0, roots, e, t1, a);
      EndsAgree(c, to, m0, t0, roots, e, t1, j);
      AlignedOrBlank(c, to, m0, t0, roots, e, t1, j);
    }
  }

  lemma AlignedOrBlank(c: Config, to: Space, m0: Memory, t0: Table, roots: seq<nat>, e: Evac, t1: Table, j: nat)
    requires Forwarded(c, to, m0, t0, roots, e, t1) && j in e.visited && j in t0 && Reachable(m0, t0, roots, j)
    ensures t0[j].alignment % 8 == 0 || NoPattern(e.mem, e.visited[j], t0[j].size)
  {
    hide IsSlot, Target, CopyGraph, TableOfCopies, Reachable, Fixed, ValuesKept, OriginalsUntouched;
    if t0[j].alignment % 8 != 0 {
      assert NoPattern(m0, j, t0[j].size);
      assert CopyPayload(m0, t0, e, j);
      var a := e.visited[j];
      assert SameBytes(m0, j, e.mem, a, t0[j].size) by { BlankSame(m0, t0, e, j); }
      forall b: nat | a <= b && b + 16 <= a + t0[j].size
        ensures !IsSlot(e.mem, b)
      {
        ShiftedSlot(m0, j, e.mem, a, t0[j].size, b);
      }
    }
  }

  lemma BlankSame(m0: Memory, t0: Table, e: Evac, j: nat)
    requires j in e.visited && j in t0 && NoPattern(m0, j, t0[j].size) && CopyPayload(m0, t0, e, j)
    ensures SameBytes(m0, j, e.mem, e.visited[j], t0[j].size)
  {
    hide IsSlot, Target;
    var a := e.visited[j];
    forall i | j <= i < j + t0[j].size
      ensures At(m0, i) == At(e.mem, i + (a - j))
    {
      assert At(e.mem, i + (a - j)) == At(m0, i + (a - j) - a + j)
        || InForwardedField(m0, t0, e.visited, j, i + (a - j));
    }
  }

  // ---- A collection of a state ----

  lemma VariantStart(c: Config, s: State, roots: seq<nat>)
    requires Invariant(c, s) && RootPlaces(c, |s.mem|, roots)
    ensures CopyHeap(c, s.active.Other(), s.mem, s.table, Start(s))
    ensures CopyGraph(c, s.mem, s.table, roots, [], Start(s), [])
  {
    hide Ledger, FromSpaceTable, IsSlot, Target, RootPlace;
    StartLedger(c, s);
  }

  lemma VariantCollect(c: Config, s: State, roots: seq<nat>)
    requires Invariant(c, s) && RootPlaces(c, |s.mem|, roots) && Fits(c, OfCopy, s, roots)
    requires PointersAligned(s.mem, s.table, roots)
    ensures var o := Evacuate(c, OfCopy, s, roots); var s1 := Collect(c, OfCopy, s, roots);
      && o.Done? && s1.mem == o.e.mem && |s1.mem| == |s.mem|
      && Forwarded(c, s.active.Other(), s.mem, s.table, roots, o.e, s1.table)
  {
    hide CopyHeap, CopyGraph, ForwardRoots, Sum, RootPlace, WellPlaced, TableOfCopies, PointersAligned, LiveSlack;
    CollectionOutcome(c, OfCopy, s, roots);
    VariantStart(c, s, roots);
    CopyRoots(c, s.active.Other(), s.mem, s.table, roots, [], roots, Start(s));
  }

  // Room for the reachable objects is enough for the variant too.
  lemma VariantFits(c: Config, s: State, roots: seq<nat>)
    requires Invariant(c, s) && RootPlaces(c, |s.mem|, roots) && LiveSlack(c, s.mem, s.table, roots)
    requires PointersAligned(s.mem, s.table, roots)
    ensures Fits(c, OfCopy, s, roots)
  {
    hide CopyHeap, CopyGraph, ForwardRoots, Sum, RootPlace, WellPlaced, PointersAligned, Reachable;
    VariantStart(c, s, roots);
    CopyRoots(c, s.active.Other(), s.mem, s.table, roots, [], roots, Start(s));
  }

  // The variant also retains exactly the reachable objects, and leaves to-space closed: no slot that a
  // scan of a copy finds names a copied original.
  lemma VariantRetention(c: Config, s: State, roots: seq<nat>)
    requires Invariant(c, s) && RootPlaces(c, |s.mem|, roots) && Fits(c, OfCopy, s, roots)
    requires PointersAligned(s.mem, s.table, roots)
    ensures var o := Evacuate(c, OfCopy, s, roots); var s1 := Collect(c, OfCopy, s, roots);
      && o.Done?
      && (forall k :: k in o.e.visited <==> Reachable(s.mem, s.table, roots, k))
      && TableOfCopies(s.table, o.e.visited, s1.table)
      && (forall a: nat, b: nat :: FieldSlot(s1.mem, s1.table, a, b) ==> Target(s1.mem, b) !in s.table)
  {
    hide IsSlot, Target, Forwarded, Evacuate, Collect, PointersAligned, RootPlaces, WellPlaced, FieldSlot;
    hide Reachable, TableOfCopies;
    VariantCollect(c, s, roots);
    var to, e, s1 := s.active.Other(), Evacuate(c, OfCopy, s, roots).e, Collect(c, OfCopy, s, roots);
    ForwardedHeap(c, to, s.mem, s.table, roots, e, s1.table);
    forall k
      ensures k in e.visited <==> Reachable(s.mem, s.table, roots, k)
    {
      VisitedIffReachable(c, to, s.mem, s.table, roots, e, s1.table, k);
    }
    forall a: nat, b: nat | FieldSlot(s1.mem, s1.table, a, b)
      ensures Target(s1.mem, b) !in s.table
    {
      var k := FieldsOwner(s.table, e.visited, s1.mem, s1.table, a, b);
      NoOldNames(c, to, s.mem, s.table, roots, e, s1.table, k, b);
    }
  }

  lemma FieldsOwner(t0: Table, visited: map<nat, nat>, m1: Memory, t1: Table, a: nat, b: nat) returns (k: nat)
    requires TableOfCopies(t0, visited, t1) && FieldSlot(m1, t1, a, b)
    ensures CopyField(t0, visited, k, b) && IsSlot(m1, b)
  {
    hide IsSlot;
    assert IsCopy(visited, a);
    k :| k in visited && visited[k] == a;
  }

  // ---- Runs ----

  // A mutator may leave any memory that meets the conditions on pointers.
  datatype VariantOp = VariantAllocOp(size: nat, alignment: nat) | VariantCollectOp | VariantMutateOp(mem: Memory)

  ghost function VariantApply(c: Config, s: State, roots: seq<nat>, op: VariantOp): State {
    match op
    case VariantAllocOp(size, alignment) => Alloc(c, s, roots, size, alignment).s
    case VariantCollectOp => Collect(c, OfCopy, s, roots)
    case VariantMutateOp(mem) => s.(mem := mem)
  }

  ghost function VariantRun(c: Config, s: State, roots: seq<nat>, ops: seq<VariantOp>): State
    decreases |ops|
  {
    if ops == [] then s else VariantRun(c, VariantApply(c, s, roots, ops[0]), roots, ops[1..])
  }

  // Power-of-two alignments, collections that fit, and mutators that store pointers to managed objects.
  ghost predicate VariantOrderly(c: Config, s: State, roots: seq<nat>, ops: seq<VariantOp>)
    decreases |ops|
  {
    ops != [] ==>
      && (ops[0].VariantAllocOp? ==> IsPow2(ops[0].alignment))
      && (ops[0].VariantCollectOp? ==> Fits(c, OfCopy, s, roots))
      && (ops[0].VariantMutateOp? ==>
           && |ops[0].mem| == |s.mem|
           && CleanPointers(c, ops[0].mem, s.table, roots) && PointersAligned(ops[0].mem, s.table, roots))
      && VariantOrderly(c, VariantApply(c, s, roots, ops[0]), roots, ops[1..])
  }

  ghost predicate VariantInvariant(c: Config, s: State, roots: seq<nat>) {
    && RunInvariant(c, s) && RootPlaces(c, |s.mem|, roots)
    && CleanPointers(c, s.mem, s.table, roots) && PointersAligned(s.mem, s.table, roots)
  }

  lemma VariantCollectKeeps(c: Config, s: State, roots: seq<nat>)
    requires VariantInvariant(c, s, roots) && Fits(c, OfCopy, s, roots)
    ensures var s1 := Collect(c, OfCopy, s, roots);
      VariantInvariant(c, s1, roots) && SameGraph(s.mem, s.table, s1.mem, s1.table, roots)
  {
    hide Forwarded, CleanPointers, PointersAligned, SameGraph, Evacuate, Collect, RootPlaces, Sum, WellPlaced;
    var to, e, s1 := s.active.Other(), Evacuate(c, OfCopy, s, roots).e, Collect(c, OfCopy, s, roots);
    CollectKeeps(c, OfCopy, s, roots);
    VariantCollect(c, s, roots);
    Isomorphic(c, to, s.mem, s.table, roots, e, s1.table);
    CollectClean(c, to, s.mem, s.table, roots, e, s1.table);
    CollectAligned(c, to, s.mem, s.table, roots, e, s1.table);
  }

  // A new entry that no clean pointer names leaves the graph as it is.
  lemma {:induction false} NewEntryWalks(
      c: Config, m: Memory, t: Table, roots: seq<nat>, p: nat, d: MetaData, root: nat, offsets: seq<nat>)
    requires CleanPointers(c, m, t, roots) && p !in t && c.Contains(p)
    ensures ValidWalk(m, t, roots, root, offsets) <==> ValidWalk(m, t[p := d], roots, root, offsets)
    decreases |offsets|
  {
    hide IsSlot, Target, Reachable, CleanPointers;
    if offsets == [] {
      if root in roots {
        CleanRoot(c, m, t, roots, root);
      }
    } else {
      var front, o := offsets[..|offsets| - 1], offsets[|offsets| - 1];
      NewEntryWalks(c, m, t, roots, p, d, root, front);
      var j := Walk(m, root, front);
      if ValidWalk(m, t, roots, root, front) {
        WalkEnds(m, t, roots, root, front);
        Reaches(m, t, roots, root, front);
        if FieldSlot(m, t, j, j + o) {
          CleanField(c, m, t, roots, j, j + o);
        }
      }
    }
  }

  lemma CleanRoot(c: Config, m: Memory, t: Table, roots: seq<nat>, r: nat)
    requires CleanPointers(c, m, t, roots) && r in roots
    ensures IsSlot(m, r) ==> Target(m, r) in t || !c.Contains(Target(m, r))
  {
    hide IsSlot, Target, Reachable, FieldSlot;
    assert CleanSlot(c, m, t, r);
  }

  lemma NewEntryKeeps(c: Config, m: Memory, t: Table, roots: seq<nat>, p: nat, d: MetaData)
    requires CleanPointers(c, m, t, roots) && PointersAligned(m, t, roots) && p !in t && c.Contains(p)
    ensures SameGraph(m, t, m, t[p := d], roots)
    ensures CleanPointers(c, m, t[p := d], roots) && PointersAligned(m, t[p := d], roots)
  {
    hide IsSlot, Target, ValidWalk, Walk, NoPattern, OnEdge, CleanSlot, FieldSlot, SameGraph;
    var t1 := t[p := d];
    forall root, offsets
      ensures SameValidity(m, t, t1, roots, root, offsets)
    {
      NewEntryWalks(c, m, t, roots, p, d, root, offsets);
    }
    forall k
      ensures Reachable(m, t1, roots, k) ==> Reachable(m, t, roots, k) && k in t
    {
      if Reachable(m, t1, roots, k) {
        SameReachable(m, t, t1, roots, k);
        ReachableManaged(m, t, roots, k);
      }
    }
    NewEntryGraph(m, t, t1, roots, p, d);
    NewEntryClean(c, m, t, roots, p, d);
  }

  ghost predicate SameValidity(m: Memory, t: Table, t1: Table, roots: seq<nat>, root: nat, offsets: seq<nat>) {
    ValidWalk(m, t, roots, root, offsets) <==> ValidWalk(m, t1, roots, root, offsets)
  }

  lemma SameReachable(m: Memory, t: Table, t1: Table, roots: seq<nat>, k: nat)
    requires forall root, offsets :: SameValidity(m, t, t1, roots, root, offsets)
    requires Reachable(m, t1, roots, k)
    ensures Reachable(m, t, roots, k)
  {
    hide ValidWalk, Walk;
    var root, offsets :| ValidWalk(m, t1, roots, root, offsets) && Walk(m, root, offsets) == k;
    assert SameValidity(m, t, t1, roots, root, offsets);
  }

  lemma ReachableManaged(m: Memory, t: Table, roots: seq<nat>, k: nat)
    ensures Reachable(m, t, roots, k) ==> k in t
  {
    hide IsSlot, Target, FieldSlot, Walk;
  }

  lemma NewEntryGraph(m: Memory, t: Table, t1: Table, roots: seq<nat>, p: nat, d: MetaData)
    requires p !in t && t1 == t[p := d]
    requires forall root, offsets :: SameValidity(m, t, t1, roots, root, offsets)
    ensures SameGraph(m, t, m, t1, roots)
  {
    hide ValidWalk, Walk, OnEdge;
    forall root, offsets
      ensures SameEnd(m, t, m, t1, roots, root, offsets)
    {
      assert SameValidity(m, t, t1, roots, root, offsets);
      WalkEnds(m, t, roots, root, offsets);
    }
    forall root, offsets, root', offsets'
      ensures SameMeet(m, t, m, roots, root, offsets, root', offsets')
    {
    }
  }

  lemma NewEntryClean(c: Config, m: Memory, t: Table, roots: seq<nat>, p: nat, d: MetaData)
    requires CleanPointers(c, m, t, roots) && p !in t
    requires forall k: nat :: Reachable(m, t[p := d], roots, k) ==> Reachable(m, t, roots, k) && k in t
    ensures CleanPointers(c, m, t[p := d], roots)
  {
    hide IsSlot, Target, Reachable;
    var t1 := t[p := d];
    forall r | r in roots
      ensures CleanSlot(c, m, t1, r)
    {
      CleanRoot(c, m, t, roots, r);
    }
    forall k: nat, b: nat | Reachable(m, t1, roots, k) && FieldSlot(m, t1, k, b)
      ensures CleanSlot(c, m, t1, b)
    {
      CleanField(c, m, t, roots, k, b);
    }
  }

  lemma VariantAllocKeeps(c: Config, s: State, roots: seq<nat>, size: nat, alignment: nat)
    requires VariantInvariant(c, s, roots) && IsPow2(alignment)
    ensures var s1 := Alloc(c, s, roots, size, alignment).s;
      VariantInvariant(c, s1, roots) && SameGraph(s.mem, s.table, s1.mem, s1.table, roots)
  {
    hide CleanPointers, PointersAligned, SameGraph, Alloc, RunInvariant, Padding, IsPow2, RootPlaces;
    RunAlloc(c, s, roots, size, alignment);
    var r := Alloc(c, s, roots, size, alignment);
    if r.Allocated? {
      AllocContained(c, r.s, r.ptr);
      NewEntryKeeps(c, s.mem, s.table, roots, r.ptr, MetaData(size, alignment));
    } else {
      SameGraphRefl(s.mem, s.table, roots);
    }
  }

  lemma AllocContained(c: Config, s: State, p: nat)
    requires RunInvariant(c, s) && p in s.table
    ensures c.Contains(p)
  {
    hide IsPow2, AlignedTo, Apart;
  }

  lemma VariantMutateKeeps(c: Config, s: State, roots: seq<nat>, mem: Memory)
    requires VariantInvariant(c, s, roots) && |mem| == |s.mem|
    requires CleanPointers(c, mem, s.table, roots) && PointersAligned(mem, s.table, roots)
    ensures VariantInvariant(c, s.(mem := mem), roots)
  {
    hide CleanPointers, PointersAligned, WellPlaced;
  }

  // One operation keeps the conditions, and none but the mutator's changes the graph under the roots.
  lemma VariantApplyKeeps(c: Config, s: State, roots: seq<nat>, op: VariantOp)
    requires VariantInvariant(c, s, roots) && VariantOrderly(c, s, roots, [op])
    ensures var s1 := VariantApply(c, s, roots, op);
      && VariantInvariant(c, s1, roots)
      && (!op.VariantMutateOp? ==> SameGraph(s.mem, s.table, s1.mem, s1.table, roots))
  {
    hide VariantInvariant, SameGraph, Alloc, Collect, Fits, IsPow2, CleanPointers, PointersAligned;
    match op
    case VariantAllocOp(size, alignment) => VariantAllocKeeps(c, s, roots, size, alignment);
    case VariantCollectOp => VariantCollectKeeps(c, s, roots);
    case VariantMutateOp(mem) => VariantMutateKeeps(c, s, roots, mem);
  }

  lemma VariantFirst(c: Config, s: State, roots: seq<nat>, ops: seq<VariantOp>)
    requires ops != [] && VariantOrderly(c, s, roots, ops)
    ensures VariantOrderly(c, s, roots, [ops[0]])
    ensures VariantOrderly(c, VariantApply(c, s, roots, ops[0]), roots, ops[1..])
  {
    hide Fits, IsPow2, CleanPointers, PointersAligned, VariantApply;
  }

  // Scanning copies, the i-th operation of any run finds the conditions kept and, unless it is the
  // mutator's, leaves the graph under the roots as it was.
  lemma {:induction false} VariantRunKeeps(c: Config, s: State, roots: seq<nat>, ops: seq<VariantOp>, i: nat)
    requires VariantInvariant(c, s, roots) && VariantOrderly(c, s, roots, ops) && i < |ops|
    ensures var s1 := VariantRun(c, s, roots, ops[..i]); var s2 := VariantRun(c, s, roots, ops[..i + 1]);
      && VariantInvariant(c, s1, roots) && VariantInvariant(c, s2, roots)
      && (!ops[i].VariantMutateOp? ==> SameGraph(s1.mem, s1.table, s2.mem, s2.table, roots))
    decreases i
  {
    hide VariantInvariant, VariantOrderly, VariantApply, SameGraph;
    VariantFirst(c, s, roots, ops);
    VariantApplyKeeps(c, s, roots, ops[0]);
    var s1 := VariantApply(c, s, roots, ops[0]);
    if i == 0 {
      assert ops[..0] == [] && ops[..1] == [ops[0]] && [ops[0]][1..] == [];
    } else {
      VariantRunKeeps(c, s1, roots, ops[1..], i - 1);
      assert ops[..i][1..] == ops[1..][..i - 1] && ops[..i + 1][1..] == ops[1..][..i];
    }
  }

  // So without mutators any run of allocations and collections leaves the graph as it was.
  lemma {:induction false} VariantRunKeepsGraph(c: Config, s: State, roots: seq<nat>, ops: seq<VariantOp>)
    requires VariantInvariant(c, s, roots) && VariantOrderly(c, s, roots, ops)
    requires forall op :: op in ops ==> !op.VariantMutateOp?
    ensures var s1 := VariantRun(c, s, roots, ops); SameGraph(s.mem, s.table, s1.mem, s1.table, roots)
    decreases |ops|
  {
    hide VariantInvariant, VariantOrderly, VariantApply, SameGraph;
    if ops == [] {
      SameGraphRefl(s.mem, s.table, roots);
    } else {
      assert ops[0] in ops;
      VariantFirst(c, s, roots, ops);
      VariantApplyKeeps(c, s, roots, ops[0]);
      var s1 := VariantApply(c, s, roots, ops[0]);
      VariantRunKeepsGraph(c, s1, roots, ops[1..]);
      var s2 := VariantRun(c, s1, roots, ops[1..]);
      SameGraphTrans(s.mem, s.table, s1.mem, s1.table, s2.mem, s2.table, roots);
    }
  }

  // ---- Natural runs ----

  // No object asks for more alignment than its size, and mutators leave clean pointers. Nothing is said
  // about room.
  ghost predicate VariantLegal(c: Config, s: State, roots: seq<nat>, ops: seq<VariantOp>)
    decreases |ops|
  {
    ops != [] ==>
      && (ops[0].VariantAllocOp? ==>
           IsPow2(ops[0].alignment) && (ops[0].size > 0 ==> ops[0].alignment <= ops[0].size))
      && (ops[0].VariantMutateOp? ==>
           && |ops[0].mem| == |s.mem|
           && CleanPointers(c, ops[0].mem, s.table, roots) && PointersAligned(ops[0].mem, s.table, roots))
      && VariantLegal(c, VariantApply(c, s, roots, ops[0]), roots, ops[1..])
  }

  lemma NaturalVariantFits(c: Config, s: State, roots: seq<nat>)
    requires VariantInvariant(c, s, roots) && NaturalInvariant(c, s) && c.heapSize >= PAGE
    ensures Fits(c, OfCopy, s, roots)
  {
    hide NaturalInvariant, Fits, LiveSlack, CleanPointers, PointersAligned, WellPlaced, RootPlaces;
    NaturalSlack(c, s, roots);
    VariantFits(c, s, roots);
  }

  lemma NaturalMutate(c: Config, s: State, mem: Memory)
    requires NaturalInvariant(c, s) && |mem| == |s.mem|
    ensures NaturalInvariant(c, s.(mem := mem))
  {
    hide WellPlaced, Sum;
  }

  lemma NaturalVariantApply(c: Config, s: State, roots: seq<nat>, op: VariantOp)
    requires NaturalInvariant(c, s) && (op.VariantMutateOp? ==> |op.mem| == |s.mem|)
    requires op.VariantAllocOp? ==> IsPow2(op.alignment) && (op.size > 0 ==> op.alignment <= op.size)
    ensures NaturalInvariant(c, VariantApply(c, s, roots, op))
  {
    hide NaturalInvariant, Alloc, Collect, IsPow2;
    match op
    case VariantAllocOp(size, alignment) => NaturalAlloc(c, s, roots, size, alignment);
    case VariantCollectOp => NaturalCollect(c, OfCopy, s, roots);
    case VariantMutateOp(mem) => NaturalMutate(c, s, mem);
  }

  // In such a run every collection fits.
  lemma {:induction false} LegalIsOrderly(c: Config, s: State, roots: seq<nat>, ops: seq<VariantOp>)
    requires VariantInvariant(c, s, roots) && NaturalInvariant(c, s) && c.heapSize >= PAGE
    requires VariantLegal(c, s, roots, ops)
    ensures VariantOrderly(c, s, roots, ops)
    decreases |ops|
  {
    hide VariantInvariant, NaturalInvariant, Fits, IsPow2, CleanPointers, PointersAligned, VariantApply, SameGraph;
    if ops != [] {
      var s1 := VariantApply(c, s, roots, ops[0]);
      NaturalVariantFits(c, s, roots);
      NaturalVariantApply(c, s, roots, ops[0]);
      assert [ops[0]][1..] == [];
      assert VariantOrderly(c, s1, roots, []);
      VariantApplyKeeps(c, s, roots, ops[0]);
      LegalIsOrderly(c, s1, roots, ops[1..]);
    }
  }

  // So the graph survives any natural run, with no hypothesis on room.
  lemma NaturalVariantRunKeeps(c: Config, s: State, roots: seq<nat>, ops: seq<VariantOp>, i: nat)
    requires VariantInvariant(c, s, roots) && NaturalInvariant(c, s) && c.heapSize >= PAGE
    requires VariantLegal(c, s, roots, ops) && i < |ops|
    ensures var s1 := VariantRun(c, s, roots, ops[..i]); var s2 := VariantRun(c, s, roots, ops[..i + 1]);
      && VariantInvariant(c, s1, roots) && VariantInvariant(c, s2, roots)
      && (!ops[i].VariantMutateOp? ==> SameGraph(s1.mem, s1.table, s2.mem, s2.table, roots))
  {
    hide VariantInvariant, NaturalInvariant, VariantLegal, VariantOrderly, VariantRun, SameGraph;
    LegalIsOrderly(c, s, roots, ops);
    VariantRunKeeps(c, s, roots, ops, i);
  }

  lemma NaturalVariantRunKeepsGraph(c: Config, s: State, roots: seq<nat>, ops: seq<VariantOp>)
    requires VariantInvariant(c, s, roots) && NaturalInvariant(c, s) && c.heapSize >= PAGE
    requires VariantLegal(c, s, roots, ops) && forall op :: op in ops ==> !op.VariantMutateOp?
    ensures var s1 := VariantRun(c, s, roots, ops); SameGraph(s.mem, s.table, s1.mem, s1.table, roots)
  {
    hide VariantInvariant, NaturalInvariant, VariantLegal, VariantOrderly, VariantRun, SameGraph;
    LegalIsOrderly(c, s, roots, ops);
    VariantRunKeepsGraph(c, s, roots, ops);
  }
}
