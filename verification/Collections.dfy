/**
 One serial collection as the caller sees it: what is retained, where it goes, what
 the heap looks like afterwards, and what a mutator reads through its pointers.
 */
module Collections {
  import opened Bits
  import opened FatPtrs
  import AtomicCopy
  import opened Heaps
  import opened Ledgers
  import opened Evacuation
  import opened Retention

  function Start(s: State): Evac {
    Evac(s.mem, s.Next(s.active.Other()), s.table, map[])
  }

  lemma StartLedger(c: Config, s: State)
    requires Invariant(c, s)
    ensures FromSpaceTable(c, s.active.Other(), s.table) && Ledger(c, s.active.Other(), s.table, Start(s))
  {
    hide IsPow2, AlignedTo, Apart;
  }

  // The table is exactly the copies, with the metadata of their originals.
  ghost predicate TableOfCopies(t0: Table, visited: map<nat, nat>, t: Table) {
    && visited.Keys <= t0.Keys
    && (forall k :: k in visited ==> visited[k] in t && t[visited[k]] == t0[k])
    && (forall a :: a in t ==> IsCopy(visited, a))
    && (forall j, k :: j in visited && k in visited && j != k ==> visited[j] != visited[k])
  }

  lemma CopyEntry(t0: Table, visited: map<nat, nat>, t: Table, j: nat)
    requires TableOfCopies(t0, visited, t) && j in visited
    ensures j in t0 && visited[j] in t && t[visited[j]] == t0[j]
  {}

  // ---- The heap invariant survives, and a collection that fails ran out of room ----

  lemma SweepExact(c: Config, to: Space, m: nat, t0: Table, e: Evac)
    requires ValidConfig(c, m) && FromSpaceTable(c, to, t0) && Ledger(c, to, t0, e)
    ensures TableOfCopies(t0, e.visited, Sweep(c, to, e))
    ensures WellPlaced(c, to, Sweep(c, to, e), e.next)
  {
    hide Accounted, IsPow2, AlignedTo;
    SweepTable(c, to, m, t0, e);
  }

  lemma SweepTable(c: Config, to: Space, m: nat, t0: Table, e: Evac)
    requires ValidConfig(c, m) && FromSpaceTable(c, to, t0) && Ledger(c, to, t0, e)
    ensures TableOfCopies(t0, e.visited, Sweep(c, to, e))
  {
    hide Accounted, IsPow2, AlignedTo;
  }

  // A failed collection leaves each object either where it was or copied, nothing else and at least
  // one of them where it was, outside the space that is active now.
  ghost predicate HalfDone(c: Config, to: Space, t0: Table, e: Evac) {
    Books(c, to, t0, e) && exists k :: k in t0 && k in e.table && !c.InSpace(to, k)
  }

  lemma FaultHalfDone(c: Config, to: Space, size: nat, t0: Table, e: Evac)
    requires ValidConfig(c, size) && FromSpaceTable(c, to, t0) && Books(c, to, t0, e) && Full(c, t0, e)
    ensures HalfDone(c, to, t0, e)
  {
    hide IsPow2, AlignedTo, CopiesKept, CopiesApart, NothingElse, FillsWith;
    var v :| v in t0 && v !in e.visited;
  }

  lemma HalfDoneBreaks(c: Config, to: Space, t0: Table, e: Evac, s1: State)
    requires HalfDone(c, to, t0, e) && s1.active == to && s1.table == e.table
    ensures !Invariant(c, s1)
  {
    hide IsPow2, AlignedTo, Books, Apart;
    var k :| k in t0 && k in e.table && !c.InSpace(to, k);
  }

  lemma InvariantPlaced(c: Config, s: State)
    requires Invariant(c, s)
    ensures Placed(c, s)
  {
    hide IsPow2, AlignedTo, Apart;
  }

  // What a failed collection leaves, copies below the bump index and originals in the other space.
  lemma BooksPlaced(c: Config, to: Space, t0: Table, e: Evac, s1: State)
    requires ValidConfig(c, |s1.mem|) && FromSpaceTable(c, to, t0) && Books(c, to, t0, e)
    requires s1.active == to && s1.table == e.table && s1.Next(to) == e.next && s1.Next(to.Other()) == 0
    ensures Placed(c, s1)
  {
    hide IsPow2, AlignedTo, Apart, FromSpaceTable, Books;
    assert e.next <= c.heapSize by { BooksEnd(c, to, t0, e); }
    forall k | k in s1.table
      ensures Stands(c, s1, k)
    {
      EntryStands(c, to, t0, e, s1, k);
    }
    forall j, k | j in s1.table && k in s1.table && j != k
      ensures Apart(j, s1.table[j].size, k, s1.table[k].size)
    {
      EntriesApart(c, to, t0, e, j, k);
    }
  }

  lemma BooksEnd(c: Config, to: Space, t0: Table, e: Evac)
    requires Books(c, to, t0, e)
    ensures e.next <= c.heapSize
  {}

  // An entry of the table is an original or the copy of one.
  lemma EntryOrigin(c: Config, to: Space, t0: Table, e: Evac, k: nat) returns (j: nat)
    requires Books(c, to, t0, e) && k in e.table
    ensures j in t0 && e.table[k] == t0[j]
    ensures j == k || (j in e.visited && e.visited[j] == k && CopyPlaced(c, to, t0[j], k, e.next))
  {
    hide CopiesApart, CopyPlaced;
    if k in t0 {
      j := k;
    } else {
      assert IsCopy(e.visited, k);
      j :| j in e.visited && e.visited[j] == k;
    }
  }

  lemma EntryStands(c: Config, to: Space, t0: Table, e: Evac, s1: State, k: nat)
    requires ValidConfig(c, |s1.mem|) && FromSpaceTable(c, to, t0) && Books(c, to, t0, e) && k in e.table
    requires s1.active == to && s1.table == e.table && s1.Next(to) == e.next
    ensures Stands(c, s1, k)
  {
    hide IsPow2, AlignedTo, Apart, Books;
    var j := EntryOrigin(c, to, t0, e, k);
  }

  lemma EntriesApart(c: Config, to: Space, t0: Table, e: Evac, j: nat, k: nat)
    requires SpacesApart(c) && FromSpaceTable(c, to, t0) && Books(c, to, t0, e)
    requires j in e.table && k in e.table && j != k
    ensures Apart(j, e.table[j].size, k, e.table[k].size)
  {
    hide IsPow2, AlignedTo, OriginalsKept, CopiesKept, NothingElse;
    var i := EntryOrigin(c, to, t0, e, j);
    var l := EntryOrigin(c, to, t0, e, k);
  }

  // What any collection does to the bookkeeping, whatever the memory holds. It succeeds exactly when the
  // heap invariant holds afterwards; a failure means that the objects copied and one more fill a space.
  // Either way nothing managed in the space now active lies above its bump index.
  lemma CollectionOutcome(c: Config, scan: Scanning, s: State, roots: seq<nat>)
    requires Invariant(c, s)
    ensures var o := Evacuate(c, scan, s, roots); var s1 := Collect(c, scan, s, roots);
      && |s1.mem| == |s.mem| && s1.active == s.active.Other()
      && s1.mem == o.e.mem && s1.Next(s1.active) == o.e.next && s1.Next(s.active) == 0
      && Placed(c, s1) && (o.Done? <==> Invariant(c, s1))
      && (o.Faulted? ==>
           && OutOfRoom(o.fault) && Full(c, s.table, o.e)
           && s1.table == o.e.table && HalfDone(c, s1.active, s.table, o.e))
      && (o.Done? ==>
           && TableOfCopies(s.table, o.e.visited, s1.table)
           && Sum(s.table, o.e.visited.Keys, false) <= s1.Next(s1.active) <= Sum(s.table, o.e.visited.Keys, true))
  {
    hide Sum, Full, WellPlaced, TableOfCopies, Books, FromSpaceTable, ForwardRoots, Sweep, HalfDone, Placed;
    var to := s.active.Other();
    StartLedger(c, s);
    RootsLedger(c, to, scan, s.table, Start(s), roots);
    var o := Evacuate(c, scan, s, roots);
    if o.Done? {
      SweepExact(c, to, |s.mem|, s.table, o.e);
      InvariantPlaced(c, Collect(c, scan, s, roots));
    } else {
      BooksPlaced(c, to, s.table, o.e, Collect(c, scan, s, roots));
      FaultHalfDone(c, to, |s.mem|, s.table, o.e);
      HalfDoneBreaks(c, to, s.table, o.e, Collect(c, scan, s, roots));
    }
  }

  // With room for everything a collection cannot fail.
  lemma RoomyCompletes(c: Config, scan: Scanning, s: State, roots: seq<nat>)
    requires Invariant(c, s) && Roomy(c, s.table)
    ensures Evacuate(c, scan, s, roots).Done?
  {
    hide Invariant, Full, Roomy, HalfDone, TableOfCopies, Sum;
    CollectionOutcome(c, scan, s, roots);
    var o := Evacuate(c, scan, s, roots);
    if o.Faulted? {
      RoomyIsNotFull(c, s.table, o.e);
    }
  }

  // The collection completes, and none of its copies has written bytes behind the end of to-space.
  ghost predicate Fits(c: Config, scan: Scanning, s: State, roots: seq<nat>) {
    Evacuate(c, scan, s, roots).Done? && Inside(c, s.active.Other(), s.table, Evacuate(c, scan, s, roots).e)
  }

  // Copies weigh what their originals weighed.
  lemma {:induction false} SumOfCopies(t0: Table, visited: map<nat, nat>, t: Table, padded: bool)
    requires TableOfCopies(t0, visited, t)
    ensures Sum(t, t.Keys, padded) == Sum(t0, visited.Keys, padded)
    decreases |visited|
  {
    hide Weight;
    if visited.Keys == {} {
      assert t.Keys == {};
    } else {
      var k := Pick(visited.Keys);
      var v1, t1 := visited - {k}, t - {visited[k]};
      DropCopy(t0, visited, t, k);
      SumOfCopies(t0, v1, t1, padded);
      assert v1.Keys == visited.Keys - {k};
      SumRemove(t0, visited.Keys, k, padded);
      SumRemove(t, t.Keys, visited[k], padded);
      assert t1.Keys == t.Keys - {visited[k]};
      SumOfSubtable(t, t1, t1.Keys, padded);
    }
  }

  lemma DropCopy(t0: Table, visited: map<nat, nat>, t: Table, k: nat)
    requires TableOfCopies(t0, visited, t) && k in visited
    ensures TableOfCopies(t0, visited - {k}, t - {visited[k]})
  {
    var v1, t1 := visited - {k}, t - {visited[k]};
    forall a | a in t1
      ensures IsCopy(v1, a)
    {
      var j :| j in visited && visited[j] == a;
      assert j in v1 && v1[j] == a;
    }
  }

  lemma {:induction false} SumOfSubtable(t: Table, t1: Table, ks: set<nat>, padded: bool)
    requires ks <= t1.Keys && forall k :: k in t1 ==> k in t && t[k] == t1[k]
    ensures Sum(t, ks, padded) == Sum(t1, ks, padded)
    decreases |ks|
  {
    hide Weight;
    if ks != {} {
      SumOfSubtable(t, t1, ks - {Pick(ks)}, padded);
    }
  }

  // ---- Exact retention ----

  lemma StartHeap(c: Config, s: State, roots: seq<nat>)
    requires Invariant(c, s)
    ensures Heap(c, s.active.Other(), s.mem, s.table, Start(s))
    ensures Graph(c, s.active.Other(), s.mem, s.table, roots, [], Start(s), [])
  {
    hide Ledger, FromSpaceTable, IsSlot, Target, RootPlace, InForwardedSlot;
    StartLedger(c, s);
  }

  lemma EndHeap(c: Config, s: State, roots: seq<nat>)
    requires Invariant(c, s) && RootPlaces(c, |s.mem|, roots) && Fits(c, OfOriginal, s, roots)
    ensures var o := Evacuate(c, OfOriginal, s, roots);
      && o.Done?
      && Heap(c, s.active.Other(), s.mem, s.table, o.e)
      && Graph(c, s.active.Other(), s.mem, s.table, roots, roots, o.e, [])
  {
    hide Heap, Graph, ForwardRoots, RootPlace, WellPlaced;
    StartHeap(c, s, roots);
    RootsKeep(c, s.active.Other(), s.mem, s.table, roots, [], roots, Start(s));
  }

  // Object k, n bytes long, was copied to a, leaving the bump index at next: the copy has the bytes k
  // has, it ends at the new index, and whatever is written past its end stays inside to-space.
  ghost predicate CopyContained(c: Config, to: Space, m: Memory, m1: Memory, k: nat, n: nat, a: nat, next: nat) {
    && a + n == c.Base(to) + next && a + AtomicCopy.Written(k, n) <= c.Base(to) + c.heapSize
    && SameBytes(m, k, m1, a, n) && SameExcept(m, m1, a, AtomicCopy.Written(k, n))
  }

  // No copy made before is altered.
  ghost predicate OlderCopiesKept(t0: Table, e: Evac, m1: Memory, a: nat) {
    forall j :: j in e.visited && j in t0 ==>
      e.visited[j] + t0[j].size <= a && SameBytes(e.mem, e.visited[j], m1, e.visited[j], t0[j].size)
  }

  // One copy during a collection that writes nothing behind to-space: what seq_cst_cpy writes too many lies
  // at or above the new bump index, where nothing has been placed yet.
  lemma OverrunAbsorbed(c: Config, to: Space, m0: Memory, t0: Table, e: Evac, slot: nat, k: nat)
    requires Heap(c, to, m0, t0, e) && k in t0 && k in e.table && CopyObject(c, to, e, slot, k).Done?
    requires Inside(c, to, t0, CopyObject(c, to, e, slot, k).e)
    ensures var e1 := CopyObject(c, to, e, slot, k).e;
      k in e1.visited && (
      var a := e1.visited[k]; var m1 := AtomicCopy.Copy(e.mem, a, k, t0[k].size);
      && e1.mem == Cas(m1, slot, k, a)
      && CopyContained(c, to, e.mem, m1, k, t0[k].size, a, e1.next)
      && OlderCopiesKept(t0, e, m1, a))
  {
    hide IsSlot, Target, Cas, CopyObject, Padding, FromSpaceTable, Ledger, Moved, AtomicCopy.Copy;
    hide CopyContained, OlderCopiesKept, MemoryKept;
    CopyObjectMoves(c, to, t0, e, slot, k);
    var a := c.Base(to) + e.next + Padding(c.Base(to) + e.next, t0[k].alignment);
    var e1 := CopyObject(c, to, e, slot, k).e;
    var e2 := e1.(mem := AtomicCopy.Copy(e.mem, a, k, t0[k].size));
    MovedVisited(c, to, e, e1, k, a);
    MovedMemory(c, to, e, e1, e2, k, a);
    CopiedContained(c, to, m0, t0, e, e2, k, a);
  }

  lemma CopiedContained(c: Config, to: Space, m0: Memory, t0: Table, e: Evac, e1: Evac, k: nat, a: nat)
    requires Heap(c, to, m0, t0, e) && k in t0 && Copied(c, to, e, e1, k, a, t0[k].size) && Inside(c, to, t0, e1)
    ensures CopyContained(c, to, e.mem, e1.mem, k, t0[k].size, a, e1.next) && OlderCopiesKept(t0, e, e1.mem, a)
  {
    hide FromSpaceTable, Ledger, Moved, AtomicCopy.Copy, SameBytes, SameExcept, MemoryKept;
    var n := t0[k].size;
    MovedLedger(c, to, t0, e, e1, k, a);
    CopyFits(c, to, m0, t0, e, e1, k, a);
    CopyBytes(c, to, m0, t0, e.mem, k, a);
    forall j | j in e.visited && j in t0
      ensures e.visited[j] + t0[j].size <= a && SameBytes(e.mem, e.visited[j], e1.mem, e.visited[j], t0[j].size)
    {
      CopyBelow(c, to, t0, e, j);
      BelowUntouched(e.mem, e1.mem, e.visited[j], t0[j].size, a, AtomicCopy.Written(k, n));
    }
  }

  lemma MovedVisited(c: Config, to: Space, e: Evac, e1: Evac, k: nat, a: nat)
    requires Moved(c, to, e, e1, k, a)
    ensures k in e1.visited && e1.visited[k] == a
  {}

  lemma MovedMemory(c: Config, to: Space, e: Evac, e1: Evac, e2: Evac, k: nat, a: nat)
    requires Moved(c, to, e, e1, k, a) && e2 == e1.(mem := e2.mem)
    ensures Moved(c, to, e, e2, k, a)
  {}

  lemma CopyBelow(c: Config, to: Space, t0: Table, e: Evac, j: nat)
    requires Ledger(c, to, t0, e) && j in e.visited && j in t0
    ensures e.visited[j] + t0[j].size <= c.Base(to) + e.next
  {
    hide IsPow2, AlignedTo;
  }

  lemma BelowUntouched(m: Memory, m1: Memory, b: nat, l: nat, a: nat, n: nat)
    requires SameExcept(m, m1, a, n) && b + l <= a
    ensures SameBytes(m, b, m1, b, l)
  {}

  // The memory after a collection: each copy has the bytes its original had before it; outside to-space
  // only pointer words whose target was copied have changed; and every slot outside to-space is still a
  // slot and names what it named or the copy of that.
  lemma MemoryAfter(c: Config, s: State, roots: seq<nat>)
    requires Invariant(c, s) && RootPlaces(c, |s.mem|, roots) && Fits(c, OfOriginal, s, roots)
    ensures var e := Evacuate(c, OfOriginal, s, roots).e; var to := s.active.Other();
      && Collect(c, OfOriginal, s, roots).mem == e.mem
      && CopiesFaithful(s.mem, s.table, e) && UnvisitedUntouched(s.mem, s.table, e)
      && OnlyForwarded(c, to, s.mem, s.table, roots, e) && SlotsKept(c, to, s.mem, e)
  {
    hide Graph, Evacuate, Collect, Ledger, FromSpaceTable, SlotsKept, CopiesFaithful, UnvisitedUntouched;
    hide OnlyForwarded, RootPlaces, TableOfCopies;
    EndHeap(c, s, roots);
    GraphFrame(c, s.active.Other(), s.mem, s.table, roots, roots, Evacuate(c, OfOriginal, s, roots).e, []);
    CollectionOutcome(c, OfOriginal, s, roots);
  }

  // A collection copies exactly the managed objects reachable from the roots through scanned slots,
  // each once, and afterwards manages exactly those copies.
  lemma ExactRetention(c: Config, s: State, roots: seq<nat>)
    requires Invariant(c, s) && RootPlaces(c, |s.mem|, roots) && Fits(c, OfOriginal, s, roots)
    ensures var o := Evacuate(c, OfOriginal, s, roots);
      && o.Done?
      && (forall k :: k in o.e.visited <==> Reachable(s.mem, s.table, roots, k))
      && TableOfCopies(s.table, o.e.visited, Collect(c, OfOriginal, s, roots).table)
  {
    hide Heap, Graph, Evacuate, Collect, TableOfCopies, RootPlaces, WellPlaced, Fits;
    EndHeap(c, s, roots);
    CollectionOutcome(c, OfOriginal, s, roots);
    var e := Evacuate(c, OfOriginal, s, roots).e;
    forall k
      ensures k in e.visited <==> Reachable(s.mem, s.table, roots, k)
    {
      RetainedIffReachable(c, s.active.Other(), s.mem, s.table, roots, e, k);
    }
  }

  lemma RetainedIffReachable(
      c: Config, to: Space, m0: Memory, t0: Table, roots: seq<nat>, e: Evac, k: nat)
    requires Graph(c, to, m0, t0, roots, roots, e, [])
    ensures k in e.visited <==> Reachable(m0, t0, roots, k)
  {
    if Reachable(m0, t0, roots, k) {
      var root, offsets :| ValidWalk(m0, t0, roots, root, offsets) && Walk(m0, root, offsets) == k;
      WalkVisited(c, to, m0, t0, roots, e, root, offsets);
    }
  }
}
