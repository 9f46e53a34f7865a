/**
 Which objects a collection copies, in which order and to which addresses: those of the
 depth-first search of the old memory, laid out one after the other. Search and layout
 can be computed beforehand, so they tell whether a collection completes.
 */
module EvacuationOrder {
  import opened Bits
  import opened FatPtrs
  import AtomicCopy
  import opened Heaps
  import opened Ledgers
  import opened Evacuation
  import opened Retention
  import opened Collections
  import opened Searches

  // ---- The collection follows the search ----

  // Exactly the objects of the order have been copied, each to its place in the layout.
  ghost predicate Laid(base: nat, t0: Table, visited: map<nat, nat>, order: seq<nat>) {
    forall i :: 0 <= i < |order| ==> LaidAt(base, t0, visited, order, i)
  }

  ghost predicate LaidAt(base: nat, t0: Table, visited: map<nat, nat>, order: seq<nat>, i: nat)
    requires i < |order|
  {
    && order[i] in visited && order[i] in t0
    && visited[order[i]] + t0[order[i]].size == base + LayoutEnd(base, t0, order[..i + 1])
  }

  ghost predicate Tracks(base: nat, t0: Table, e: Evac, order: seq<nat>) {
    e.visited.Keys == Elems(order) && e.next == LayoutEnd(base, t0, order) && Laid(base, t0, e.visited, order)
  }

  lemma TracksGrows(base: nat, t0: Table, e: Evac, e1: Evac, order: seq<nat>, k: nat, a: nat)
    requires Tracks(base, t0, e, order) && k in t0 && k !in e.visited && e1.visited == e.visited[k := a]
    requires a == base + e.next + Padding(base + e.next, t0[k].alignment) && e1.next == a + t0[k].size - base
    ensures Tracks(base, t0, e1, order + [k])
  {
    hide Padding, LayoutEnd;
    LayoutGrows(base, t0, order, k);
    var longer := order + [k];
    assert Elems(longer) == Elems(order) + {k};
    forall i | 0 <= i < |longer|
      ensures LaidAt(base, t0, e1.visited, longer, i)
    {
      if i < |order| {
        assert LaidAt(base, t0, e.visited, order, i);
        assert longer[..i + 1] == order[..i + 1];
        assert order[i] in Elems(order);
      } else {
        assert longer[..i + 1] == longer;
      }
    }
  }

  // The scan of an object not yet copied reports the slots it had at the start.
  lemma {:induction false} SameScan(m0: Memory, m: Memory, p: nat, end: nat)
    requires p % 8 == 0 && forall b: nat :: p <= b && b + 16 < end && b % 8 == 0 ==> IsSlot(m, b) == IsSlot(m0, b)
    ensures Scan(m, p, end) == Scan(m0, p, end)
    decreases end - p
  {
    hide IsSlot;
    if p + 16 < end {
      AlignedStep(p);
      SameScan(m0, m, p + 8, end);
    }
  }

  lemma ScanUnmoved(c: Config, to: Space, m0: Memory, t0: Table, e: Evac, k: nat)
    requires Heap(c, to, m0, t0, e) && k in t0
    ensures ScanMemory(e.mem, k, k + t0[k].size) == ScanMemory(m0, k, k + t0[k].size)
  {
    hide IsSlot, Target, Fixed, CopiesFaithful, UnvisitedUntouched, AlignUp8, Scan, Inside;
    OriginalPlace(c, to, m0, t0, e, k);
    AlignUpLeast(k, 0);
    forall b: nat | AlignUp8(k) <= b && b + 16 < k + t0[k].size && b % 8 == 0
      ensures IsSlot(e.mem, b) == IsSlot(m0, b)
    {
      AlignUpLeast(k, b);
      AtOrAbove(c, to, k, t0[k].size, b);
    }
    SameScan(m0, e.mem, AlignUp8(k), k + t0[k].size);
  }

  lemma AtOrAbove(c: Config, to: Space, k: nat, n: nat, b: nat)
    requires SpacesApart(c) && c.Base(to.Other()) <= k && k + n <= c.Base(to.Other()) + c.heapSize
    requires k <= b && b + 16 < k + n
    ensures Off(c, to, b)
  {}

  // A turn that copies nothing, in the collection and in the search.
  lemma IdleTurn(
      c: Config, to: Space, m0: Memory, t0: Table, roots: seq<nat>, taken: seq<nat>, e: Evac, stack: seq<nat>,
      order: seq<nat>)
    requires Heap(c, to, m0, t0, e) && stack != [] && Graph(c, to, m0, t0, roots, taken, e, stack)
    requires e.visited.Keys == Elems(order)
    requires var s := stack[|stack| - 1]; var v := Target(e.mem, s);
      !(IsSlot(e.mem, s) && v !in e.visited && v in e.table && !c.InSpace(to, v))
    ensures Turn(m0, t0, stack, order) == (stack[..|stack| - 1], order)
  {
    hide IsSlot, Target, Fixed, CopiesFaithful, UnvisitedUntouched, SlotsKept, Graph, Owned, ScanMemory, Inside;
    var s := stack[|stack| - 1];
    TopOwned(c, to, m0, t0, roots, taken, e, stack);
    OwnedPlace(c, to, m0, t0, roots, e, s);
    var t := Target(m0, s);
    if IsSlot(m0, s) && t in t0 && t !in order {
      assert t !in Elems(order);
      SlotAt(c, to, m0, e, s);
      NotSkipped(c, to, m0, t0, e, t);
    }
  }

  lemma SlotAt(c: Config, to: Space, m0: Memory, e: Evac, s: nat)
    requires SlotsKept(c, to, m0, e) && s % 8 == 0 && Off(c, to, s)
    ensures IsSlot(e.mem, s) == IsSlot(m0, s)
    ensures IsSlot(m0, s) ==> SlotValue(e.visited, Target(m0, s), Target(e.mem, s))
  {
    hide IsSlot, Target;
  }

  // Where the i-th object of an order is placed, it ends below the end of the space, and its copy writes
  // nothing behind it.
  predicate PlacedWell(c: Config, base: nat, t0: Table, order: seq<nat>, i: nat)
    requires i < |order|
  {
    var end, k := LayoutEnd(base, t0, order[..i + 1]), order[i];
    end < c.heapSize && (k in t0 ==> end + AtomicCopy.Written(k, t0[k].size) <= c.heapSize + t0[k].size)
  }

  // Every object of the order is placed well.
  ghost predicate Holds(c: Config, base: nat, t0: Table, order: seq<nat>) {
    forall i :: 0 <= i < |order| ==> PlacedWell(c, base, t0, order, i)
  }

  // The first object not placed well ends inside the space all the same: its copy writes bytes behind it.
  ghost predicate Spills(c: Config, base: nat, t0: Table, order: seq<nat>) {
    exists i :: 0 <= i < |order| && SpillsAt(c, base, t0, order, i)
  }

  ghost predicate SpillsAt(c: Config, base: nat, t0: Table, order: seq<nat>, i: nat)
    requires i < |order|
  {
    && Holds(c, base, t0, order[..i]) && !PlacedWell(c, base, t0, order, i)
    && LayoutEnd(base, t0, order[..i + 1]) < c.heapSize
  }

  lemma PlacedInPrefix(c: Config, base: nat, t0: Table, order1: seq<nat>, order: seq<nat>, i: nat)
    requires order1 <= order && i < |order1|
    ensures PlacedWell(c, base, t0, order1, i) == PlacedWell(c, base, t0, order, i)
  {
    hide LayoutEnd;
    assert order1[..i + 1] == order[..i + 1];
  }

  lemma HoldsPrefix(c: Config, base: nat, t0: Table, order1: seq<nat>, order: seq<nat>)
    requires order1 <= order && Holds(c, base, t0, order)
    ensures Holds(c, base, t0, order1)
  {
    hide PlacedWell;
    forall i | 0 <= i < |order1|
      ensures PlacedWell(c, base, t0, order1, i)
    {
      PlacedInPrefix(c, base, t0, order1, order, i);
    }
  }

  lemma HoldsGrows(c: Config, base: nat, t0: Table, order: seq<nat>, k: nat)
    requires Holds(c, base, t0, order)
    ensures Holds(c, base, t0, order + [k]) <==> PlacedWell(c, base, t0, order + [k], |order|)
  {
    hide PlacedWell;
    forall i | 0 <= i < |order|
      ensures PlacedWell(c, base, t0, order + [k], i)
    {
      PlacedInPrefix(c, base, t0, order, order + [k], i);
    }
  }

  lemma SpillsLater(c: Config, base: nat, t0: Table, order1: seq<nat>, order: seq<nat>)
    requires order1 <= order && Spills(c, base, t0, order1)
    ensures Spills(c, base, t0, order)
  {
    hide PlacedWell, LayoutEnd, Holds;
    var i :| 0 <= i < |order1| && SpillsAt(c, base, t0, order1, i);
    PlacedInPrefix(c, base, t0, order1, order, i);
    assert order1[..i] == order[..i] && order1[..i + 1] == order[..i + 1];
    assert SpillsAt(c, base, t0, order, i);
  }

  // A turn that meets an object to copy: it succeeds exactly when the object's place in the layout
  // ends below the end of the space.
  lemma CopyTurn(
      c: Config, to: Space, m0: Memory, t0: Table, roots: seq<nat>, taken: seq<nat>, e: Evac, stack: seq<nat>,
      order: seq<nat>)
    requires Heap(c, to, m0, t0, e) && stack != [] && Graph(c, to, m0, t0, roots, taken, e, stack)
    requires Tracks(c.Base(to), t0, e, order)
    requires var s := stack[|stack| - 1]; var v := Target(e.mem, s);
      IsSlot(e.mem, s) && v !in e.visited && v in e.table && !c.InSpace(to, v)
    ensures var r := Step(c, to, OfOriginal, e, stack);
      var (stack1, order1) := Turn(m0, t0, stack, order); var v := Target(e.mem, stack[|stack| - 1]);
      && order1 == order + [v] && v in t0
      && (r.Next? <==> LayoutEnd(c.Base(to), t0, order1) < c.heapSize)
      && (r.Next? ==>
           && r.stack == stack1 && Tracks(c.Base(to), t0, r.e, order1)
           && (Inside(c, to, t0, r.e) <==>
                LayoutEnd(c.Base(to), t0, order1) + AtomicCopy.Written(v, t0[v].size) <= c.heapSize + t0[v].size))
  {
    hide IsSlot, Target, Fixed, MemoryKept, Graph, Owned, ScanMemory, Inside, CopyObject, Cas, AtomicCopy.Copy;
    hide Padding, LayoutEnd, Laid, Moved, Reachable, Ledger, FromSpaceTable, ValidConfig, AtomicCopy.Written;
    var s := stack[|stack| - 1];
    var v := Target(e.mem, s);
    PendingAt(c, to, m0, t0, roots, taken, e, stack);
    HeapBooks(c, to, m0, t0, e);
    assert v !in order by { assert v !in Elems(order); }
    CopyObjectMoves(c, to, t0, e, s, v);
    LayoutGrows(c.Base(to), t0, order, v);
    ScanUnmoved(c, to, m0, t0, e, v);
    if CopyObject(c, to, e, s, v).Done? {
      var a := c.Base(to) + e.next + Padding(c.Base(to) + e.next, t0[v].alignment);
      CopyAt(c, to, m0, t0, e, s, v);
      TracksGrows(c.Base(to), t0, e, CopyObject(c, to, e, s, v).e, order, v, a);
      HeapInside(c, to, m0, t0, e);
      InsideOneMore(c, to, t0, e, CopyObject(c, to, e, s, v).e, v, a);
    }
  }

  lemma HeapInside(c: Config, to: Space, m0: Memory, t0: Table, e: Evac)
    requires Heap(c, to, m0, t0, e)
    ensures Inside(c, to, t0, e)
  {
    hide Fixed, MemoryKept, Inside;
  }

  // The run fails at the n-th object of an order, the first whose place does not end below the end of the
  // space. Those before it have been copied, each to its place; the bump index has been advanced for it
  // only if it ended exactly at the end of the space; and memory is what copying the others made it.
  ghost predicate StopsBefore(
    c: Config, to: Space, m0: Memory, t0: Table, roots: seq<nat>, r: Outcome, order: seq<nat>, n: nat)
    requires n < |order|
  {
    var base, front := c.Base(to), order[..n];
    var end := LayoutEnd(base, t0, order[..n + 1]);
    && r.Faulted? && Holds(c, base, t0, front) && end >= c.heapSize
    && r.e.visited.Keys == Elems(front) && Laid(base, t0, r.e.visited, front)
    && (if end == c.heapSize then r.fault == BadAlloc && r.e.next == end
        else r.fault == BadOptionalAccess && r.e.next == LayoutEnd(base, t0, front))
    && MemoryKept(c, to, m0, t0, r.e) && OnlyForwarded(c, to, m0, t0, roots, r.e)
  }

  ghost predicate Stops(
    c: Config, to: Space, m0: Memory, t0: Table, roots: seq<nat>, r: Outcome, order: seq<nat>)
  {
    exists n: nat :: n < |order| && StopsBefore(c, to, m0, t0, roots, r, order, n)
  }

  lemma StopsLater(
      c: Config, to: Space, m0: Memory, t0: Table, roots: seq<nat>, r: Outcome, order1: seq<nat>, order: seq<nat>)
    requires order1 <= order && Stops(c, to, m0, t0, roots, r, order1)
    ensures Stops(c, to, m0, t0, roots, r, order) && r.Faulted?
  {
    hide Laid, LayoutEnd, Holds, MemoryKept, OnlyForwarded, Elems;
    var n: nat :| n < |order1| && StopsBefore(c, to, m0, t0, roots, r, order1, n);
    assert order1[..n] == order[..n] && order1[..n + 1] == order[..n + 1];
    assert StopsBefore(c, to, m0, t0, roots, r, order, n);
  }

  // What the search says about a run of the collection: it completes without writing behind the space
  // exactly when the layout holds; and where no copy would spill it completes exactly then, and fails at
  // the first object that does not end inside otherwise.
  ghost predicate Follows(
    c: Config, to: Space, m0: Memory, t0: Table, roots: seq<nat>, r: Outcome, order: seq<nat>)
  {
    && (r.Done? && Inside(c, to, t0, r.e) <==> Holds(c, c.Base(to), t0, order))
    && (Holds(c, c.Base(to), t0, order) ==> Tracks(c.Base(to), t0, r.e, order))
    && (!Spills(c, c.Base(to), t0, order) ==> (r.Done? <==> Holds(c, c.Base(to), t0, order)))
    && (!Spills(c, c.Base(to), t0, order) && r.Faulted? ==> Stops(c, to, m0, t0, roots, r, order))
  }

  // A turn that fails.
  lemma FailedTurn(
      c: Config, to: Space, m0: Memory, t0: Table, roots: seq<nat>, taken: seq<nat>, e: Evac, stack: seq<nat>,
      order: seq<nat>)
    requires Heap(c, to, m0, t0, e) && stack != [] && Graph(c, to, m0, t0, roots, taken, e, stack)
    requires Tracks(c.Base(to), t0, e, order) && Holds(c, c.Base(to), t0, order)
    requires Step(c, to, OfOriginal, e, stack).Halt?
    ensures var r := Step(c, to, OfOriginal, e, stack);
      Stops(c, to, m0, t0, roots, Faulted(r.e, r.fault), Turn(m0, t0, stack, order).1)
  {
    hide IsSlot, Target, Heap, Graph, Owned, ScanMemory, CopyObject, Padding, LayoutEnd, Laid, Moved, Reachable;
    hide Holds, Ledger, FromSpaceTable, ValidConfig, Tracks, MemoryKept, OnlyForwarded, Elems;
    var s := stack[|stack| - 1];
    var v := Target(e.mem, s);
    PendingAt(c, to, m0, t0, roots, taken, e, stack);
    HeapBooks(c, to, m0, t0, e);
    CopyObjectMoves(c, to, t0, e, s, v);
    CopyTurn(c, to, m0, t0, roots, taken, e, stack, order);
    HeapMemory(c, to, m0, t0, roots, taken, e, stack);
    var r := Step(c, to, OfOriginal, e, stack);
    SameMemoryKept(c, to, m0, t0, roots, e, r.e);
    TracksParts(c.Base(to), t0, e, order);
    LayoutGrows(c.Base(to), t0, order, v);
    assert (order + [v])[..|order|] == order && (order + [v])[..|order| + 1] == order + [v];
    assert StopsBefore(c, to, m0, t0, roots, Faulted(r.e, r.fault), order + [v], |order|);
  }

  lemma TracksParts(base: nat, t0: Table, e: Evac, order: seq<nat>)
    requires Tracks(base, t0, e, order)
    ensures e.visited.Keys == Elems(order) && e.next == LayoutEnd(base, t0, order) && Laid(base, t0, e.visited, order)
  {}

  lemma HeapMemory(
      c: Config, to: Space, m0: Memory, t0: Table, roots: seq<nat>, taken: seq<nat>, e: Evac, stack: seq<nat>)
    requires Heap(c, to, m0, t0, e) && Graph(c, to, m0, t0, roots, taken, e, stack)
    ensures MemoryKept(c, to, m0, t0, e) && OnlyForwarded(c, to, m0, t0, roots, e)
  {
    hide MemoryKept, OnlyForwarded, Fixed, Inside, Graph;
    GraphFrame(c, to, m0, t0, roots, taken, e, stack);
  }

  // What is said about memory does not depend on the bump index or the table.
  lemma SameMemoryKept(c: Config, to: Space, m0: Memory, t0: Table, roots: seq<nat>, e: Evac, e1: Evac)
    requires MemoryKept(c, to, m0, t0, e) && OnlyForwarded(c, to, m0, t0, roots, e)
    requires e1.mem == e.mem && e1.visited == e.visited
    ensures MemoryKept(c, to, m0, t0, e1) && OnlyForwarded(c, to, m0, t0, roots, e1)
  {
    hide IsSlot, Target, InForwardedSlot, SameBytes;
  }

  // One turn: it goes on, with nothing written behind the space, exactly when the layout still holds; if
  // it goes on otherwise it has spilled.
  lemma TurnFollows(
      c: Config, to: Space, m0: Memory, t0: Table, roots: seq<nat>, taken: seq<nat>, e: Evac, stack: seq<nat>,
      order: seq<nat>)
    requires Heap(c, to, m0, t0, e) && stack != [] && Graph(c, to, m0, t0, roots, taken, e, stack)
    requires Tracks(c.Base(to), t0, e, order) && Holds(c, c.Base(to), t0, order)
    ensures var r := Step(c, to, OfOriginal, e, stack);
      var (stack1, order1) := Turn(m0, t0, stack, order);
      && (r.Next? && Inside(c, to, t0, r.e) <==> Holds(c, c.Base(to), t0, order1))
      && (r.Next? ==> r.stack == stack1 && Tracks(c.Base(to), t0, r.e, order1))
      && (r.Next? && !Inside(c, to, t0, r.e) ==> Spills(c, c.Base(to), t0, order1))
  {
    hide IsSlot, Target, Fixed, MemoryKept, Graph, ScanMemory, CopyObject, Cas, LayoutEnd, Laid, Turn, Holds, Inside;
    hide AtomicCopy.Written;
    var s := stack[|stack| - 1];
    var v := Target(e.mem, s);
    HeapInside(c, to, m0, t0, e);
    if IsSlot(e.mem, s) && v !in e.visited && v in e.table && !c.InSpace(to, v) {
      CopyTurn(c, to, m0, t0, roots, taken, e, stack, order);
      HoldsGrows(c, c.Base(to), t0, order, v);
      var longer := order + [v];
      assert longer[..|order| + 1] == longer && longer[..|order|] == order;
      if LayoutEnd(c.Base(to), t0, longer) < c.heapSize && !PlacedWell(c, c.Base(to), t0, longer, |order|) {
        assert SpillsAt(c, c.Base(to), t0, longer, |order|);
      }
    } else {
      IdleTurn(c, to, m0, t0, roots, taken, e, stack, order);
      IdleInside(c, to, t0, e, Step(c, to, OfOriginal, e, stack).e);
    }
  }

  lemma IdleInside(c: Config, to: Space, t0: Table, e: Evac, e1: Evac)
    requires Inside(c, to, t0, e) && e1.visited == e.visited
    ensures Inside(c, to, t0, e1)
  {
    hide StaysInside;
  }

  // A run that stops, or spills, at order1 has the same verdict for every longer order.
  lemma StopsAt(
      c: Config, to: Space, m0: Memory, t0: Table, roots: seq<nat>, r: Outcome, order1: seq<nat>, order: seq<nat>)
    requires order1 <= order && !Holds(c, c.Base(to), t0, order1) && !(r.Done? && Inside(c, to, t0, r.e))
    requires Spills(c, c.Base(to), t0, order1) || Stops(c, to, m0, t0, roots, r, order1)
    ensures Follows(c, to, m0, t0, roots, r, order)
  {
    hide Holds, Spills, Tracks, Inside, Stops;
    if Holds(c, c.Base(to), t0, order) {
      HoldsPrefix(c, c.Base(to), t0, order1, order);
    }
    if Spills(c, c.Base(to), t0, order1) {
      SpillsLater(c, c.Base(to), t0, order1, order);
    } else {
      StopsLater(c, to, m0, t0, roots, r, order1, order);
    }
  }

  lemma {:induction false} ForwardFollows(
      c: Config, to: Space, m0: Memory, t0: Table, roots: seq<nat>, taken: seq<nat>, e: Evac, stack: seq<nat>,
      order: seq<nat>)
    requires Heap(c, to, m0, t0, e) && Graph(c, to, m0, t0, roots, taken, e, stack)
    requires Tracks(c.Base(to), t0, e, order) && Holds(c, c.Base(to), t0, order)
    ensures
      Follows(c, to, m0, t0, roots, Forward(c, to, OfOriginal, e, stack), Search(m0, t0, stack, order))
    decreases Pending(c, to, e.table), |stack|
  {
    hide Heap, Graph, Step, Pending, Tracks, Turn, Ledger, FromSpaceTable, Books, Full, Holds, Spills, Inside;
    hide Extends, Stops;
    HeapInside(c, to, m0, t0, e);
    if stack != [] {
      var r := Step(c, to, OfOriginal, e, stack);
      var (stack1, order1) := Turn(m0, t0, stack, order);
      TurnFollows(c, to, m0, t0, roots, taken, e, stack, order);
      StepKeeps(c, to, m0, t0, roots, taken, e, stack);
      HeapBooks(c, to, m0, t0, e);
      StepLedger(c, to, OfOriginal, t0, e, stack);
      SearchExtends(m0, t0, stack1, order1);
      if r.Next? && Inside(c, to, t0, r.e) {
        ForwardFollows(c, to, m0, t0, roots, taken, r.e, stack1, order1);
      } else {
        var f := Forward(c, to, OfOriginal, e, stack);
        if r.Next? {
          ForwardLedger(c, to, OfOriginal, t0, r.e, stack1);
          if Inside(c, to, t0, f.e) {
            InsideBefore(c, to, t0, r.e, f.e);
          }
        } else {
          FailedTurn(c, to, m0, t0, roots, taken, e, stack, order);
        }
        StopsAt(c, to, m0, t0, roots, f, order1, Search(m0, t0, stack1, order1));
      }
    }
  }

  // A root that is filtered out starts no search.
  lemma FilteredRoot(
      c: Config, to: Space, m0: Memory, t0: Table, e: Evac, r: nat, order: seq<nat>)
    requires Heap(c, to, m0, t0, e) && RootPlace(c, |m0|, r) && e.visited.Keys == Elems(order)
    requires !(IsSlot(e.mem, r) && c.Contains(Target(e.mem, r)))
    ensures Search(m0, t0, [r], order) == order
  {
    hide IsSlot, Target, Fixed, CopiesFaithful, UnvisitedUntouched, SlotsKept, Inside, RootPlace;
    assert r % 8 == 0 && Off(c, to, r) by { RootOff(c, to, |m0|, [r], r); }
    SlotAt(c, to, m0, e, r);
    if IsSlot(e.mem, r) {
      NotContained(c, to, m0, t0, e, Target(e.mem, r));
      if Target(m0, r) in e.visited && Target(e.mem, r) == e.visited[Target(m0, r)] {
        CopyBounds(c, to, m0, t0, e, Target(m0, r));
        CopyInHeap(c, to, m0, t0, e, Target(m0, r));
      }
    }
    assert Turn(m0, t0, [r], order) == ([], order);
  }

  lemma CopyInHeap(c: Config, to: Space, m0: Memory, t0: Table, e: Evac, k: nat)
    requires Fixed(c, to, m0, t0, e) && k in e.visited
    ensures c.Contains(e.visited[k])
  {
    hide Fixed;
    CopyBounds(c, to, m0, t0, e, k);
    ObjectNotEmpty(c, to, m0, t0, e, k);
  }

  lemma {:induction false} RootsFollow(
      c: Config, to: Space, m0: Memory, t0: Table, roots: seq<nat>, taken: seq<nat>, left: seq<nat>, e: Evac,
      order: seq<nat>)
    requires Heap(c, to, m0, t0, e) && Graph(c, to, m0, t0, roots, taken, e, [])
    requires roots == taken + left && RootPlaces(c, |m0|, roots)
    requires Tracks(c.Base(to), t0, e, order) && Holds(c, c.Base(to), t0, order)
    ensures
      Follows(c, to, m0, t0, roots, ForwardRoots(c, to, OfOriginal, e, left), SearchRoots(m0, t0, left, order))
    decreases |left|
  {
    hide Heap, Graph, Forward, IsSlot, Target, RootPlace, Tracks, Search, Ledger, Holds, Spills, Inside, Extends;
    hide FromSpaceTable, Books, Full, ValidConfig, Stops;
    HeapInside(c, to, m0, t0, e);
    if left != [] {
      var r, rest := left[0], left[1..];
      assert r in roots && taken + [r] + rest == roots;
      var order1 := Search(m0, t0, [r], order);
      if IsSlot(e.mem, r) && c.Contains(Target(e.mem, r)) {
        TakeRoot(c, to, m0, t0, roots, taken, e, r);
        ForwardKeeps(c, to, m0, t0, roots, taken + [r], e, [r]);
        ForwardFollows(c, to, m0, t0, roots, taken + [r], e, [r], order);
        var f := Forward(c, to, OfOriginal, e, [r]);
        if f.Done? && Inside(c, to, t0, f.e) {
          RootsFollow(c, to, m0, t0, roots, taken + [r], rest, f.e, order1);
        } else {
          HeapBooks(c, to, m0, t0, e);
          ForwardLedger(c, to, OfOriginal, t0, e, [r]);
          var g := ForwardRoots(c, to, OfOriginal, e, left);
          if f.Done? {
            RootsLedger(c, to, OfOriginal, t0, f.e, rest);
            if Inside(c, to, t0, g.e) {
              InsideBefore(c, to, t0, f.e, g.e);
            }
          }
          SearchRootsExtends(m0, t0, rest, order1);
          StopsAt(c, to, m0, t0, roots, g, order1, SearchRoots(m0, t0, rest, order1));
        }
      } else {
        TracksKeys(c.Base(to), t0, e, order);
        FilteredRoot(c, to, m0, t0, e, r, order);
        SkipRoot(c, to, m0, t0, roots, taken, e, r);
        RootsFollow(c, to, m0, t0, roots, taken + [r], rest, e, order);
      }
    }
  }

  lemma TracksKeys(base: nat, t0: Table, e: Evac, order: seq<nat>)
    requires Tracks(base, t0, e, order)
    ensures e.visited.Keys == Elems(order)
  {}

  // ---- When a collection completes, and where it puts what ----

  // A collection copies the objects of the order, each to its place in the layout, and leaves the bump
  // index at the layout's end. It completes without writing behind the space exactly when the layout
  // holds; and where no copy would spill it completes exactly then, and otherwise fails at the first object
  // of the order that does not end inside, with everything before it copied.
  lemma CollectionFollowsOrder(c: Config, s: State, roots: seq<nat>)
    requires Invariant(c, s) && RootPlaces(c, |s.mem|, roots)
    ensures var o := Evacuate(c, OfOriginal, s, roots);
      var base := c.Base(s.active.Other()); var order := Order(s, roots);
      && (Fits(c, OfOriginal, s, roots) <==> Holds(c, base, s.table, order))
      && (Fits(c, OfOriginal, s, roots) ==> Tracks(base, s.table, o.e, order))
      && (!Spills(c, base, s.table, order) ==> (o.Done? <==> Holds(c, base, s.table, order)))
      && (!Spills(c, base, s.table, order) && o.Faulted? ==>
           Stops(c, s.active.Other(), s.mem, s.table, roots, o, order))
  {
    hide Heap, Graph, ForwardRoots, SearchRoots, LayoutEnd, RootPlace, Tracks, WellPlaced, PlacedWell, Spills, Inside;
    hide Stops;
    var to := s.active.Other();
    StartHeap(c, s, roots);
    StartTracks(c.Base(to), s);
    RootsFollow(c, to, s.mem, s.table, roots, [], roots, Start(s), []);
  }

  lemma StartTracks(base: nat, s: State)
    requires s.Next(s.active.Other()) == 0
    ensures Tracks(base, s.table, Start(s), [])
  {}

  // 7 bytes behind the layout are enough.
  lemma SpareHolds(c: Config, base: nat, t0: Table, order: seq<nat>)
    requires LayoutEnd(base, t0, order) + 7 <= c.heapSize
    ensures Holds(c, base, t0, order)
  {
    hide LayoutEnd, AtomicCopy.Written;
    forall i | 0 <= i < |order|
      ensures PlacedWell(c, base, t0, order, i)
    {
      LayoutMonotone(base, t0, order[..i + 1], order);
      if order[i] in t0 {
        AtomicCopy.WrittenBounds(order[i], t0[order[i]].size);
      }
    }
  }

  // Room for the reachable objects is enough, however much garbage there is.
  lemma LiveSlackFits(c: Config, s: State, roots: seq<nat>)
    requires Invariant(c, s) && RootPlaces(c, |s.mem|, roots) && LiveSlack(c, s.mem, s.table, roots)
    ensures Fits(c, OfOriginal, s, roots)
  {
    hide Sum, LayoutEnd, Order, Reachable, RootPlaces, IsPow2, AlignedTo, Apart, Fits, Evacuate, Tracks, Holds, Spills;
    CollectionFollowsOrder(c, s, roots);
    OrderExact(s, roots);
    AlignmentsPositive(c, s);
    LayoutWithinSum(c.Base(s.active.Other()), s.table, Order(s, roots));
    SpareHolds(c, c.Base(s.active.Other()), s.table, Order(s, roots));
  }

  lemma AlignmentsPositive(c: Config, s: State)
    requires Invariant(c, s)
    ensures forall k :: k in s.table ==> s.table[k].alignment > 0
  {
    hide Apart, AlignedTo;
  }

  // ---- Objects aligned to 8 bytes ----

  // Placed at an aligned index, an aligned object's copy ends with the 8-byte block it ends in.
  lemma AlignedPlacedWell(c: Config, base: nat, t0: Table, order: seq<nat>, k: nat)
    requires base % 8 == 0 && c.heapSize % 8 == 0 && k % 8 == 0
    requires k in t0 && t0[k].alignment > 0 && t0[k].alignment % 8 == 0
    requires LayoutEnd(base, t0, order + [k]) < c.heapSize
    ensures LayoutEnd(base, t0, order + [k]) + AtomicCopy.Written(k, t0[k].size) <= c.heapSize + t0[k].size
  {
    hide LayoutEnd, Padding, AtomicCopy.Written, AlignedTo;
    LayoutGrows(base, t0, order, k);
    var n, d := LayoutEnd(base, t0, order), t0[k];
    var a := n + Padding(base + n, d.alignment);
    PaddingAligns(base + n, d.alignment);
    MultipleOf8(base + a, d.alignment);
    AtomicCopy.WrittenExactly(k, d.size);
    EndsInBlock(base, a, k, d.size, AtomicCopy.Written(k, d.size), c.heapSize);
  }

  lemma EndsInBlock(base: nat, a: nat, k: nat, n: nat, written: nat, end: nat)
    requires base % 8 == 0 && (base + a) % 8 == 0 && end % 8 == 0 && a + n < end
    requires k % 8 == 0 && written < n + 8 && (n > 0 ==> (k + written) % 8 == 0) && (n == 0 ==> written == 0)
    ensures a + written <= end
  {
    if n > 0 {
      assert a % 8 == 0 && written % 8 == 0;
      assert (a + written) % 8 == 0 && (end + 8) % 8 == 0;
      if a + written > end {
        NextAligned(end, a + written);
      }
    }
  }

  lemma AlignedObjects(c: Config, s: State, k: nat)
    requires Invariant(c, s) && k in s.table && s.table[k].alignment % 8 == 0
    ensures s.table[k].alignment > 0 && k % 8 == 0
    ensures c.base0 % 8 == 0 && c.base1 % 8 == 0 && c.heapSize % 8 == 0
  {
    hide Invariant, IsPow2;
    EntryAligned(c, s, k);
    MultipleOf8(k, s.table[k].alignment);
    PagesOfEight(c.base0);
    PagesOfEight(c.base1);
    PagesOfEight(c.heapSize);
  }

  lemma EntryAligned(c: Config, s: State, k: nat)
    requires Invariant(c, s) && k in s.table
    ensures AlignedTo(k, s.table[k].alignment)
    ensures c.base0 % 256 == 0 && c.base1 % 256 == 0 && c.heapSize % 256 == 0
  {
    hide IsPow2, Apart, AlignedTo;
  }

  lemma PagesOfEight(a: nat)
    requires a % 256 == 0
    ensures a % 8 == 0
  {}

  // Where every alignment is a multiple of 8 no copy spills: such a collection fits exactly when it
  // completes, and exactly when each object's place ends below the end of the space.
  lemma AlignedFits(c: Config, s: State, roots: seq<nat>)
    requires Invariant(c, s) && RootPlaces(c, |s.mem|, roots) && c.heapSize > 0
    requires forall k :: k in s.table ==> s.table[k].alignment % 8 == 0
    ensures var end := LayoutEnd(c.Base(s.active.Other()), s.table, Order(s, roots));
      && (Fits(c, OfOriginal, s, roots) <==> end < c.heapSize)
      && (Evacuate(c, OfOriginal, s, roots).Done? <==> end < c.heapSize)
  {
    hide Invariant, LayoutEnd, Order, RootPlaces, Fits, Evacuate, Tracks, Reachable, AtomicCopy.Written;
    var base, order := c.Base(s.active.Other()), Order(s, roots);
    CollectionFollowsOrder(c, s, roots);
    OrderExact(s, roots);
    forall i | 0 <= i < |order| && LayoutEnd(base, s.table, order[..i + 1]) < c.heapSize
      ensures PlacedWell(c, base, s.table, order, i)
    {
      assert order[i] in Elems(order);
      AlignedObjects(c, s, order[i]);
      assert order[..i] + [order[i]] == order[..i + 1];
      AlignedPlacedWell(c, base, s.table, order[..i], order[i]);
    }
    assert !Spills(c, base, s.table, order);
    HoldsMeansEnd(c, base, s.table, order);
  }

  lemma HoldsMeansEnd(c: Config, base: nat, t0: Table, order: seq<nat>)
    requires c.heapSize > 0
    requires forall i :: 0 <= i < |order| && LayoutEnd(base, t0, order[..i + 1]) < c.heapSize ==>
      PlacedWell(c, base, t0, order, i)
    ensures Holds(c, base, t0, order) <==> LayoutEnd(base, t0, order) < c.heapSize
  {
    hide LayoutEnd, AtomicCopy.Written;
    if LayoutEnd(base, t0, order) < c.heapSize {
      forall i | 0 <= i < |order|
        ensures PlacedWell(c, base, t0, order, i)
      {
        LayoutMonotone(base, t0, order[..i + 1], order);
      }
    }
    if order == [] {
      NothingLaid(base, t0);
    } else {
      assert order[..|order| - 1 + 1] == order;
      assert Holds(c, base, t0, order) ==> PlacedWell(c, base, t0, order, |order| - 1);
    }
  }
}
