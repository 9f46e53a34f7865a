/**
 Exact retention: one collection copies exactly the objects reachable from the roots,
 each once, and settles every slot it has to.
 */
module Retention {
  import opened Bits
  import opened FatPtrs
  import AtomicCopy
  import opened Heaps
  import opened Ledgers
  import opened Evacuation

  // A slot that named a managed object now names that object's copy.
  ghost predicate Settled(m0: Memory, t0: Table, e: Evac, s: nat) {
    IsSlot(m0, s) && Target(m0, s) in t0 ==>
      Target(m0, s) in e.visited && Target(e.mem, s) == e.visited[Target(m0, s)]
  }

  ghost predicate Leads(m0: Memory, t0: Table, roots: seq<nat>, s: nat) {
    IsSlot(m0, s) && Target(m0, s) in t0 ==> Reachable(m0, t0, roots, Target(m0, s))
  }

  ghost predicate StackFine(c: Config, m0: Memory, t0: Table, roots: seq<nat>, e: Evac, stack: seq<nat>) {
    forall s :: s in stack ==> Owned(c, m0, t0, roots, e.visited, s) && Leads(m0, t0, roots, s)
  }

  ghost predicate Sound(m0: Memory, t0: Table, roots: seq<nat>, e: Evac) {
    forall k :: k in e.visited ==> Reachable(m0, t0, roots, k)
  }

  // Roots taken so far and field slots of copied objects are settled or still on the stack.
  ghost predicate Complete(m0: Memory, t0: Table, taken: seq<nat>, e: Evac, stack: seq<nat>) {
    && (forall r :: r in taken ==> r in stack || Settled(m0, t0, e, r))
    && (forall k, s :: k in e.visited && FieldSlot(m0, t0, k, s) ==> s in stack || Settled(m0, t0, e, s))
  }

  ghost predicate Graph(
    c: Config, to: Space, m0: Memory, t0: Table, roots: seq<nat>, taken: seq<nat>, e: Evac, stack: seq<nat>)
  {
    && RootPlaces(c, |m0|, taken) && OnlyForwarded(c, to, m0, t0, roots, e)
    && StackFine(c, m0, t0, roots, e, stack) && Sound(m0, t0, roots, e) && Complete(m0, t0, taken, e, stack)
  }

  ghost predicate Heap(c: Config, to: Space, m0: Memory, t0: Table, e: Evac) {
    Fixed(c, to, m0, t0, e) && MemoryKept(c, to, m0, t0, e) && Inside(c, to, t0, e)
  }

  // ---- Settling ----

  // A slot without a pending target needs no work.
  lemma SkipSettles(c: Config, to: Space, m0: Memory, t0: Table, e: Evac, s: nat)
    requires Heap(c, to, m0, t0, e) && s % 8 == 0 && Off(c, to, s)
    requires IsSlot(e.mem, s) ==>
      Target(e.mem, s) !in e.visited && (Target(e.mem, s) !in e.table || c.InSpace(to, Target(e.mem, s)))
    ensures Settled(m0, t0, e, s)
  {
    hide IsSlot, Target, Fixed, CopiesFaithful, UnvisitedUntouched, OnlyForwarded;
    var t := Target(m0, s);
    if IsSlot(m0, s) && t in t0 && Target(e.mem, s) == t {
      NotSkipped(c, to, m0, t0, e, t);
    }
  }

  lemma NotSkipped(c: Config, to: Space, m0: Memory, t0: Table, e: Evac, t: nat)
    requires Fixed(c, to, m0, t0, e) && t in t0
    ensures t in e.visited || (t in e.table && !c.InSpace(to, t))
  {
    hide IsPow2, AlignedTo, CopiesKept, CopiesApart, NothingElse, Accounted;
  }

  lemma CasSettles(c: Config, to: Space, m0: Memory, t0: Table, roots: seq<nat>, e: Evac, s: nat, v: nat, b: nat)
    requires Heap(c, to, m0, t0, e) && Owned(c, m0, t0, roots, e.visited, s)
    requires IsSlot(e.mem, s) && Target(e.mem, s) == v && v in e.visited
    requires b % 8 == 0 && Off(c, to, b) && (b == s || Settled(m0, t0, e, b))
    ensures Settled(m0, t0, e.(mem := Cas(e.mem, s, v, e.visited[v])), b)
  {
    hide IsSlot, Target, Fixed, Owned, Cas, CopiesFaithful, UnvisitedUntouched, OnlyForwarded;
    OwnedPlace(c, to, m0, t0, roots, e, s);
    CopyBounds(c, to, m0, t0, e, v);
    NamesOriginal(c, to, m0, t0, e, s);
    CasEffect(e.mem, s, v, e.visited[v]);
    if b != s {
      CasSeparation(e.mem, s, v, e.visited[v], b);
    }
  }

  // ---- Popping a slot that needs no copy ----

  lemma PopKeeps(
      c: Config, to: Space, m0: Memory, t0: Table, roots: seq<nat>, taken: seq<nat>, e: Evac, e1: Evac,
      stack: seq<nat>)
    requires Fixed(c, to, m0, t0, e) && stack != [] && Graph(c, to, m0, t0, roots, taken, e, stack)
    requires e1.visited == e.visited && OnlyForwarded(c, to, m0, t0, roots, e1)
    requires forall b: nat :: b % 8 == 0 && Off(c, to, b) && (b == stack[|stack| - 1] || Settled(m0, t0, e, b)) ==>
      Settled(m0, t0, e1, b)
    ensures Graph(c, to, m0, t0, roots, taken, e1, stack[..|stack| - 1])
  {
    hide Settled, Leads, Owned, FieldSlot, Reachable, Fixed;
    var s, rest := stack[|stack| - 1], stack[..|stack| - 1];
    assert forall b :: b in stack ==> b in rest || b == s;
    forall r | r in taken
      ensures r in rest || Settled(m0, t0, e1, r)
    {
      RootOff(c, to, |m0|, taken, r);
    }
    forall k, b | k in e1.visited && FieldSlot(m0, t0, k, b)
      ensures b in rest || Settled(m0, t0, e1, b)
    {
      FieldOff(c, to, m0, t0, e, k, b);
    }
  }

  lemma RootOff(c: Config, to: Space, size: nat, roots: seq<nat>, r: nat)
    requires RootPlaces(c, size, roots) && r in roots
    ensures r % 8 == 0 && r + 16 <= size && Off(c, to, r)
  {}

  lemma FieldOff(c: Config, to: Space, m0: Memory, t0: Table, e: Evac, k: nat, s: nat)
    requires Fixed(c, to, m0, t0, e) && FieldSlot(m0, t0, k, s)
    ensures s % 8 == 0 && Off(c, to, s) && IsSlot(m0, s) && k <= s && s + 16 < k + t0[k].size
  {
    hide Ledger, IsPow2, AlignedTo;
  }

  // ---- Copying an object and pushing its field slots ----

  lemma PushKeeps(
      c: Config, to: Space, m0: Memory, t0: Table, roots: seq<nat>, taken: seq<nat>, e: Evac, e1: Evac,
      stack: seq<nat>, k: nat, pushed: seq<nat>)
    requires Heap(c, to, m0, t0, e) && Graph(c, to, m0, t0, roots, taken, e, stack)
    requires k in t0 && k !in e.visited && k in e1.visited && e1.visited.Keys == e.visited.Keys + {k}
    requires Reachable(m0, t0, roots, k) && OnlyForwarded(c, to, m0, t0, roots, e1)
    requires forall b: nat :: b % 8 == 0 && Off(c, to, b) && Settled(m0, t0, e, b) ==> Settled(m0, t0, e1, b)
    requires forall b: nat :: b in pushed <==> FieldSlot(m0, t0, k, b)
    ensures Graph(c, to, m0, t0, roots, taken, e1, stack + pushed)
  {
    hide Settled, Leads, Owned, FieldSlot, Reachable, Heap, RootPlace;
    forall b | b in stack + pushed
      ensures Owned(c, m0, t0, roots, e1.visited, b) && Leads(m0, t0, roots, b)
    {
      if b in stack {
        OwnedStays(c, m0, t0, roots, e.visited, e1.visited, b);
      } else {
        PushedFine(c, m0, t0, roots, e1, k, b);
      }
    }
    forall r | r in taken
      ensures r in stack + pushed || Settled(m0, t0, e1, r)
    {
      RootOff(c, to, |m0|, taken, r);
    }
    forall j, b | j in e1.visited && FieldSlot(m0, t0, j, b)
      ensures b in stack + pushed || Settled(m0, t0, e1, b)
    {
      if j != k {
        assert Fixed(c, to, m0, t0, e) by { HeapFixed(c, to, m0, t0, e); }
        FieldOff(c, to, m0, t0, e, j, b);
      }
    }
  }

  lemma HeapFixed(c: Config, to: Space, m0: Memory, t0: Table, e: Evac)
    requires Heap(c, to, m0, t0, e)
    ensures Fixed(c, to, m0, t0, e)
  {}

  lemma PushedFine(c: Config, m0: Memory, t0: Table, roots: seq<nat>, e1: Evac, k: nat, b: nat)
    requires k in e1.visited && FieldSlot(m0, t0, k, b) && Reachable(m0, t0, roots, k)
    ensures Owned(c, m0, t0, roots, e1.visited, b) && Leads(m0, t0, roots, b)
  {
    hide FieldSlot, Reachable, IsSlot, Target;
    if IsSlot(m0, b) && Target(m0, b) in t0 {
      FieldReaches(m0, t0, roots, k, b);
    }
  }

  // The scan of an object about to be copied finds its field slots, as they were at the start.
  lemma ScanFindsFields(c: Config, to: Space, m0: Memory, t0: Table, e: Evac, k: nat, b: nat)
    requires Heap(c, to, m0, t0, e) && k in t0
    ensures b in ScanMemory(e.mem, k, k + t0[k].size) <==> FieldSlot(m0, t0, k, b)
  {
    hide IsSlot, Target, Fixed, ScanMemory, CopiesFaithful, UnvisitedUntouched, OnlyForwarded;
    ScanMemoryExact(e.mem, k, k + t0[k].size, b);
    OriginalPlace(c, to, m0, t0, e, k);
  }

  // ---- One turn of the loop ----

  lemma CopyStepKeeps(
      c: Config, to: Space, m0: Memory, t0: Table, roots: seq<nat>, taken: seq<nat>, e: Evac, stack: seq<nat>)
    requires Heap(c, to, m0, t0, e) && stack != [] && Graph(c, to, m0, t0, roots, taken, e, stack)
    requires var s := stack[|stack| - 1]; var v := Target(e.mem, s);
      && IsSlot(e.mem, s) && v !in e.visited && v in e.table && !c.InSpace(to, v)
    ensures var r := Step(c, to, OfOriginal, e, stack);
      r.Next? && Inside(c, to, t0, r.e) ==> Heap(c, to, m0, t0, r.e) && Graph(c, to, m0, t0, roots, taken, r.e, r.stack)
  {
    hide IsSlot, Target, Fixed, MemoryKept, Graph, ScanMemory, Cas, CopyObject, AtomicCopy.Copy, Moved;
    hide Padding, Owned, Leads;
    var s, rest := stack[|stack| - 1], stack[..|stack| - 1];
    var v := Target(e.mem, s);
    PendingAt(c, to, m0, t0, roots, taken, e, stack);
    GraphFrame(c, to, m0, t0, roots, taken, e, stack);
    var r := CopyObject(c, to, e, s, v);
    if r.Done? && Inside(c, to, t0, r.e) {
      var n := t0[v].size;
      var a := c.Base(to) + e.next + Padding(c.Base(to) + e.next, t0[v].alignment);
      CopyAt(c, to, m0, t0, e, s, v);
      var e1 := r.e.(mem := AtomicCopy.Copy(e.mem, a, v, n));
      CopyKeeps(c, to, m0, t0, roots, e, e1, v, a);
      CopyThenCas(c, to, m0, t0, roots, taken, e, e1, stack, s, v);
    }
  }

  // The slot on top of the stack names an original that is still to be copied.
  lemma PendingAt(
      c: Config, to: Space, m0: Memory, t0: Table, roots: seq<nat>, taken: seq<nat>, e: Evac, stack: seq<nat>)
    requires Heap(c, to, m0, t0, e) && stack != [] && Graph(c, to, m0, t0, roots, taken, e, stack)
    requires var s := stack[|stack| - 1]; var v := Target(e.mem, s);
      && IsSlot(e.mem, s) && v !in e.visited && v in e.table && !c.InSpace(to, v)
    ensures var s := stack[|stack| - 1]; var v := Target(e.mem, s);
      && v in t0 && c.Contains(v) && e.table[v] == t0[v]
      && s % 8 == 0 && Off(c, to, s) && Owned(c, m0, t0, roots, e.visited, s)
      && IsSlot(m0, s) && Target(m0, s) == v && Reachable(m0, t0, roots, v)
  {
    hide IsSlot, Target, Ledger, FromSpaceTable, Reachable, Owned, CopiesFaithful, UnvisitedUntouched;
    hide OnlyForwarded, SlotsKept;
    var s := stack[|stack| - 1];
    var v := Target(e.mem, s);
    PendingIsOriginal(c, to, t0, e, v);
    LedgerAt(c, to, t0, e, v);
    OwnedPlace(c, to, m0, t0, roots, e, s);
    NamesOriginal(c, to, m0, t0, e, s);
    assert Leads(m0, t0, roots, s);
  }

  lemma CopyAt(c: Config, to: Space, m0: Memory, t0: Table, e: Evac, s: nat, v: nat)
    requires Heap(c, to, m0, t0, e) && v in t0 && v in e.table && CopyObject(c, to, e, s, v).Done?
    ensures var n := t0[v].size; var a := c.Base(to) + e.next + Padding(c.Base(to) + e.next, t0[v].alignment);
      var r := CopyObject(c, to, e, s, v);
      && r.e.mem == Cas(AtomicCopy.Copy(e.mem, a, v, n), s, v, a)
      && Copied(c, to, e, r.e.(mem := AtomicCopy.Copy(e.mem, a, v, n)), v, a, n)
      && v !in e.visited && r.e.visited == e.visited[v := a]
  {
    hide Ledger, FromSpaceTable, MemoryKept, Cas, CopyObject, AtomicCopy.Copy, Padding, Overlaps, CopyPlaced, Weight;
    CopyObjectMoves(c, to, t0, e, s, v);
  }

  // e1 holds the copy of v; swinging the slot and pushing v's fields completes the turn.
  lemma CopyThenCas(
      c: Config, to: Space, m0: Memory, t0: Table, roots: seq<nat>, taken: seq<nat>, e: Evac, e1: Evac,
      stack: seq<nat>, s: nat, v: nat)
    requires Heap(c, to, m0, t0, e) && stack != [] && Graph(c, to, m0, t0, roots, taken, e, stack)
    requires s == stack[|stack| - 1]
    requires Fixed(c, to, m0, t0, e1) && MemoryKept(c, to, m0, t0, e1) && Inside(c, to, t0, e1)
    requires OnlyForwarded(c, to, m0, t0, roots, e1)
    requires v in t0 && v !in e.visited && v in e1.visited && e1.visited == e.visited[v := e1.visited[v]]
    requires forall b: nat :: Off(c, to, b) ==>
      IsSlot(e1.mem, b) == IsSlot(e.mem, b) && Target(e1.mem, b) == Target(e.mem, b)
    requires s % 8 == 0 && Off(c, to, s) && Owned(c, m0, t0, roots, e.visited, s) && IsSlot(e.mem, s)
    requires Target(e.mem, s) == v
    requires Reachable(m0, t0, roots, v)
    ensures var e2 := e1.(mem := Cas(e1.mem, s, v, e1.visited[v]));
      && Heap(c, to, m0, t0, e2)
      && Graph(c, to, m0, t0, roots, taken, e2, stack[..|stack| - 1] + ScanMemory(e.mem, v, v + t0[v].size))
  {
    hide IsSlot, Target, Fixed, MemoryKept, Graph, ScanMemory, Cas, Owned, FieldSlot, Reachable;
    var e2 := e1.(mem := Cas(e1.mem, s, v, e1.visited[v]));
    OwnedStays(c, m0, t0, roots, e.visited, e1.visited, s);
    CasKeeps(c, to, m0, t0, roots, e1, s, v);
    assert Fixed(c, to, m0, t0, e2) by { FixedOf(c, to, m0, t0, e1, e2); }
    forall b: nat | b % 8 == 0 && Off(c, to, b) && (b == s || Settled(m0, t0, e, b))
      ensures Settled(m0, t0, e2, b)
    {
      if b != s {
        assert Settled(m0, t0, e1, b);
      }
      CasSettles(c, to, m0, t0, roots, e1, s, v, b);
    }
    forall b: nat
      ensures b in ScanMemory(e.mem, v, v + t0[v].size) <==> FieldSlot(m0, t0, v, b)
    {
      ScanFindsFields(c, to, m0, t0, e, v, b);
    }
    PushThenPop(c, to, m0, t0, roots, taken, e, e2, stack, v, ScanMemory(e.mem, v, v + t0[v].size));
  }

  lemma FixedOf(c: Config, to: Space, m0: Memory, t0: Table, e: Evac, e1: Evac)
    requires Fixed(c, to, m0, t0, e) && e1 == e.(mem := e1.mem) && |e1.mem| == |e.mem|
    ensures Fixed(c, to, m0, t0, e1)
  {
    hide Ledger, FromSpaceTable;
    LedgerOf(c, to, t0, e, e1);
  }

  lemma PushThenPop(
      c: Config, to: Space, m0: Memory, t0: Table, roots: seq<nat>, taken: seq<nat>, e: Evac, e2: Evac,
      stack: seq<nat>, k: nat, pushed: seq<nat>)
    requires Heap(c, to, m0, t0, e) && Fixed(c, to, m0, t0, e2) && stack != []
    requires Graph(c, to, m0, t0, roots, taken, e, stack)
    requires k in t0 && k !in e.visited && k in e2.visited && e2.visited.Keys == e.visited.Keys + {k}
    requires Reachable(m0, t0, roots, k) && OnlyForwarded(c, to, m0, t0, roots, e2)
    requires forall b: nat :: b % 8 == 0 && Off(c, to, b) && (b == stack[|stack| - 1] || Settled(m0, t0, e, b)) ==>
      Settled(m0, t0, e2, b)
    requires forall b: nat :: b in pushed <==> FieldSlot(m0, t0, k, b)
    ensures Graph(c, to, m0, t0, roots, taken, e2, stack[..|stack| - 1] + pushed)
  {
    hide Settled, Leads, Owned, FieldSlot, Reachable, Heap, RootPlace, Fixed;
    HeapFixed(c, to, m0, t0, e);
    PushKeeps(c, to, m0, t0, roots, taken, e, e2, stack, k, pushed);
    var s, rest := stack[|stack| - 1], stack[..|stack| - 1];
    assert forall b :: b in stack + pushed ==> b in rest + pushed || b == s;
    assert forall b :: b in rest + pushed ==> b in stack + pushed;
    assert Settled(m0, t0, e2, s) by { OwnedPlace(c, to, m0, t0, roots, e, s); }
  }

  lemma StepKeeps(
      c: Config, to: Space, m0: Memory, t0: Table, roots: seq<nat>, taken: seq<nat>, e: Evac, stack: seq<nat>)
    requires Heap(c, to, m0, t0, e) && stack != [] && Graph(c, to, m0, t0, roots, taken, e, stack)
    ensures var r := Step(c, to, OfOriginal, e, stack);
      r.Next? && Inside(c, to, t0, r.e) ==> Heap(c, to, m0, t0, r.e) && Graph(c, to, m0, t0, roots, taken, r.e, r.stack)
  {
    hide IsSlot, Target, Fixed, MemoryKept, Graph, Cas, CopyObject, Owned, Settled, ScanMemory;
    var s := stack[|stack| - 1];
    var v := Target(e.mem, s);
    GraphFrame(c, to, m0, t0, roots, taken, e, stack);
    assert Owned(c, m0, t0, roots, e.visited, s) by { TopOwned(c, to, m0, t0, roots, taken, e, stack); }
    OwnedPlace(c, to, m0, t0, roots, e, s);
    if IsSlot(e.mem, s) && v in e.visited {
      var e1 := e.(mem := Cas(e.mem, s, v, e.visited[v]));
      CasKeeps(c, to, m0, t0, roots, e, s, v);
      FixedOf(c, to, m0, t0, e, e1);
      forall b: nat | b % 8 == 0 && Off(c, to, b) && (b == s || Settled(m0, t0, e, b))
        ensures Settled(m0, t0, e1, b)
      {
        CasSettles(c, to, m0, t0, roots, e, s, v, b);
      }
      PopKeeps(c, to, m0, t0, roots, taken, e, e1, stack);
    } else if IsSlot(e.mem, s) && v in e.table && !c.InSpace(to, v) {
      CopyStepKeeps(c, to, m0, t0, roots, taken, e, stack);
    } else {
      SkipSettles(c, to, m0, t0, e, s);
      PopKeeps(c, to, m0, t0, roots, taken, e, e, stack);
    }
  }

  lemma GraphFrame(
      c: Config, to: Space, m0: Memory, t0: Table, roots: seq<nat>, taken: seq<nat>, e: Evac, stack: seq<nat>)
    requires Graph(c, to, m0, t0, roots, taken, e, stack)
    ensures OnlyForwarded(c, to, m0, t0, roots, e) && Sound(m0, t0, roots, e)
  {
    hide OnlyForwarded, StackFine, Sound, Complete, RootPlaces;
  }

  lemma TopOwned(
      c: Config, to: Space, m0: Memory, t0: Table, roots: seq<nat>, taken: seq<nat>, e: Evac, stack: seq<nat>)
    requires stack != [] && Graph(c, to, m0, t0, roots, taken, e, stack)
    ensures Owned(c, m0, t0, roots, e.visited, stack[|stack| - 1])
  {
    hide Owned, Leads, Complete, Sound;
  }

  // ---- The loop, the roots ----

  lemma {:induction false} ForwardKeeps(
      c: Config, to: Space, m0: Memory, t0: Table, roots: seq<nat>, taken: seq<nat>, e: Evac, stack: seq<nat>)
    requires Heap(c, to, m0, t0, e) && Graph(c, to, m0, t0, roots, taken, e, stack)
    ensures var r := Forward(c, to, OfOriginal, e, stack);
      r.Done? && Inside(c, to, t0, r.e) ==> Heap(c, to, m0, t0, r.e) && Graph(c, to, m0, t0, roots, taken, r.e, [])
    decreases Pending(c, to, e.table), |stack|
  {
    hide Inside, Extends, Heap, Graph, Step, Pending, Ledger, FromSpaceTable, Books, Full, ValidConfig;
    if stack != [] {
      StepKeeps(c, to, m0, t0, roots, taken, e, stack);
      var r := Step(c, to, OfOriginal, e, stack);
      HeapBooks(c, to, m0, t0, e);
      StepLedger(c, to, OfOriginal, t0, e, stack);
      if r.Next? {
        ForwardLedger(c, to, OfOriginal, t0, r.e, r.stack);
        var f := Forward(c, to, OfOriginal, r.e, r.stack);
        if Inside(c, to, t0, f.e) {
          InsideBefore(c, to, t0, r.e, f.e);
        }
        if Inside(c, to, t0, r.e) {
          ForwardKeeps(c, to, m0, t0, roots, taken, r.e, r.stack);
        }
      }
    }
  }

  // Room for the reachable objects is room for each of them.
  lemma LiveMakesRoom(c: Config, to: Space, m0: Memory, t0: Table, roots: seq<nat>, e: Evac, v: nat)
    requires Fixed(c, to, m0, t0, e) && Sound(m0, t0, roots, e) && LiveSlack(c, m0, t0, roots)
    requires v in t0 && v in e.table && Reachable(m0, t0, roots, v)
    ensures e.next + Padding(c.Base(to) + e.next, t0[v].alignment) + t0[v].size + 7 <= c.heapSize
  {
    hide Reachable, IsPow2, CopiesKept, CopiesApart, NothingElse, Padding, Sum;
    PaddingAligns(c.Base(to) + e.next, t0[v].alignment);
    SumAdd(t0, e.visited.Keys, v, true);
    SumMonotone(t0, e.visited.Keys + {v}, Live(m0, t0, roots), true);
  }

  // 7 bytes behind an object are enough for what its copy writes too many.
  lemma StaysRoomy(c: Config, to: Space, t0: Table, a: nat, v: nat)
    requires v in t0 && a + t0[v].size + 7 <= c.Base(to) + c.heapSize
    ensures StaysInside(c, to, t0, a, v)
  {
    AtomicCopy.WrittenBounds(v, t0[v].size);
  }

  lemma FixedBooks(c: Config, to: Space, m0: Memory, t0: Table, e: Evac)
    requires Fixed(c, to, m0, t0, e)
    ensures ValidConfig(c, |e.mem|) && FromSpaceTable(c, to, t0) && Ledger(c, to, t0, e) && |e.mem| == |m0|
  {
    hide ValidConfig, FromSpaceTable, Ledger;
  }

  lemma HeapBooks(c: Config, to: Space, m0: Memory, t0: Table, e: Evac)
    requires Heap(c, to, m0, t0, e)
    ensures ValidConfig(c, |e.mem|) && FromSpaceTable(c, to, t0) && Ledger(c, to, t0, e) && |e.mem| == |m0|
  {
    hide Fixed, MemoryKept;
    FixedBooks(c, to, m0, t0, e);
  }

  // Taking the next root puts it on the empty stack.
  lemma TakeRoot(c: Config, to: Space, m0: Memory, t0: Table, roots: seq<nat>, taken: seq<nat>, e: Evac, r: nat)
    requires Heap(c, to, m0, t0, e) && Graph(c, to, m0, t0, roots, taken, e, []) && r in roots && RootPlace(c, |m0|, r)
    ensures Graph(c, to, m0, t0, roots, taken + [r], e, [r])
  {
    hide Settled, FieldSlot, Reachable, Heap, RootPlace, IsSlot, Target;
    if IsSlot(m0, r) && Target(m0, r) in t0 {
      RootReaches(m0, t0, roots, r);
    }
  }

  // A root that is filtered out never named a managed object, or already names its copy.
  lemma SkipRoot(c: Config, to: Space, m0: Memory, t0: Table, roots: seq<nat>, taken: seq<nat>, e: Evac, r: nat)
    requires Heap(c, to, m0, t0, e) && Graph(c, to, m0, t0, roots, taken, e, []) && RootPlace(c, |m0|, r)
    requires !(IsSlot(e.mem, r) && c.Contains(Target(e.mem, r)))
    ensures Graph(c, to, m0, t0, roots, taken + [r], e, [])
  {
    hide Settled, FieldSlot, Reachable, IsSlot, Target, MemoryKept, Fixed, RootPlace;
    assert Settled(m0, t0, e, r) by {
      assert r % 8 == 0 && Off(c, to, r) by { RootOff(c, to, |m0|, [r], r); }
      if IsSlot(e.mem, r) {
        NotContained(c, to, m0, t0, e, Target(e.mem, r));
      }
      SkipSettles(c, to, m0, t0, e, r);
    }
  }

  lemma NotContained(c: Config, to: Space, m0: Memory, t0: Table, e: Evac, v: nat)
    requires Fixed(c, to, m0, t0, e) && !c.Contains(v)
    ensures v !in t0 && v !in e.visited && v !in e.table
  {
    hide IsPow2, AlignedTo;
  }

  lemma {:induction false} RootsKeep(
      c: Config, to: Space, m0: Memory, t0: Table, roots: seq<nat>, taken: seq<nat>, left: seq<nat>, e: Evac)
    requires Heap(c, to, m0, t0, e) && Graph(c, to, m0, t0, roots, taken, e, [])
    requires roots == taken + left && RootPlaces(c, |m0|, roots)
    ensures var r := ForwardRoots(c, to, OfOriginal, e, left);
      r.Done? && Inside(c, to, t0, r.e) ==> Heap(c, to, m0, t0, r.e) && Graph(c, to, m0, t0, roots, roots, r.e, [])
    decreases |left|
  {
    hide Inside, Extends, Heap, Graph, Forward, IsSlot, Target, RootPlace, Ledger;
    hide FromSpaceTable, Books, Full, ValidConfig;
    if left == [] {
      assert taken == roots;
    } else {
      var r, rest := left[0], left[1..];
      assert r in roots && taken + [r] + rest == roots;
      if IsSlot(e.mem, r) && c.Contains(Target(e.mem, r)) {
        TakeRoot(c, to, m0, t0, roots, taken, e, r);
        ForwardKeeps(c, to, m0, t0, roots, taken + [r], e, [r]);
        var f := Forward(c, to, OfOriginal, e, [r]);
        HeapBooks(c, to, m0, t0, e);
        ForwardLedger(c, to, OfOriginal, t0, e, [r]);
        if f.Done? {
          RootsLedger(c, to, OfOriginal, t0, f.e, rest);
          var g := ForwardRoots(c, to, OfOriginal, f.e, rest);
          if Inside(c, to, t0, g.e) {
            InsideBefore(c, to, t0, f.e, g.e);
          }
        }
        if f.Done? && Inside(c, to, t0, f.e) {
          RootsKeep(c, to, m0, t0, roots, taken + [r], rest, f.e);
        }
      } else {
        SkipRoot(c, to, m0, t0, roots, taken, e, r);
        RootsKeep(c, to, m0, t0, roots, taken + [r], rest, e);
      }
    }
  }

  // ---- Completeness ----

  // With an empty stack, every object a walk reaches has been copied.
  lemma {:induction false} WalkVisited(
      c: Config, to: Space, m0: Memory, t0: Table, roots: seq<nat>, e: Evac, root: nat, offsets: seq<nat>)
    requires Graph(c, to, m0, t0, roots, roots, e, []) && ValidWalk(m0, t0, roots, root, offsets)
    ensures Walk(m0, root, offsets) in e.visited
    decreases |offsets|
  {
    hide IsSlot, Target, FieldSlot, Owned, Leads, RootPlace, Reachable;
    if offsets == [] {
      assert Settled(m0, t0, e, root);
    } else {
      var front := offsets[..|offsets| - 1];
      WalkVisited(c, to, m0, t0, roots, e, root, front);
      var s := Walk(m0, root, front) + offsets[|offsets| - 1];
      assert Settled(m0, t0, e, s);
      FieldAbove(m0, t0, Walk(m0, root, front), s);
    }
  }
}
