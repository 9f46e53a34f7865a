/**
 GC::alloc (src/safe_alloc.cpp) over a serial collector: exactly when it succeeds, for any
 alignment, and, when nothing asks for alignment, in every run.
 */
module Completeness {
  import opened Bits
  import opened FatPtrs
  import opened Heaps
  import opened Ledgers
  import opened Evacuation
  import opened Collections
  import opened Runs
  import opened Searches
  import opened EvacuationOrder

  // No padding anywhere: the bump index is the number of managed bytes, within the allocation limit.
  ghost predicate Packed(c: Config, s: State) {
    && RunInvariant(c, s) && c.heapSize > 0
    && (forall k :: k in s.table ==> s.table[k].alignment == 1)
    && s.Next(s.active) == Sum(s.table, s.table.Keys, false) <= c.maxAlloc
  }

  // The bytes of the objects reachable from the roots.
  ghost function LiveBytes(s: State, roots: seq<nat>): nat {
    Sum(s.table, Live(s.mem, s.table, roots), false)
  }

  lemma {:induction false} PaddedIsBare(t: Table, ks: set<nat>)
    requires ks <= t.Keys && forall k :: k in t ==> t[k].alignment == 1
    ensures Sum(t, ks, true) == Sum(t, ks, false)
    decreases |ks|
  {
    if ks != {} {
      var k := Pick(ks);
      PaddedIsBare(t, ks - {k});
      SumRemove(t, ks, k, true);
      SumRemove(t, ks, k, false);
    }
  }

  lemma PackedSlack(c: Config, s: State, roots: seq<nat>)
    requires Packed(c, s)
    ensures LiveSlack(c, s.mem, s.table, roots)
  {
    hide Sum, WellPlaced, Reachable;
    PaddedIsBare(s.table, s.table.Keys);
    SumMonotone(s.table, Live(s.mem, s.table, roots), s.table.Keys, true);
  }

  // After a collection exactly the live bytes are in use.
  lemma PackedCollect(c: Config, s: State, roots: seq<nat>)
    requires Packed(c, s) && RootPlaces(c, |s.mem|, roots)
    ensures var s1 := Collect(c, OfOriginal, s, roots);
      && Evacuate(c, OfOriginal, s, roots).Done?
      && Packed(c, s1) && |s1.mem| == |s.mem|
      && s1.Next(s1.active) == LiveBytes(s, roots)
  {
    hide Sum, Reachable, RootPlaces, Inside, LiveSlack, TableOfCopies, Evacuate, Collect, RunInvariant, HalfDone;
    var s1 := Collect(c, OfOriginal, s, roots);
    var visited := Evacuate(c, OfOriginal, s, roots).e.visited;
    PackedSlack(c, s, roots);
    assert Invariant(c, s) by { PackedInvariant(c, s); }
    LiveSlackFits(c, s, roots);
    CollectKeeps(c, OfOriginal, s, roots);
    ExactRetention(c, s, roots);
    CollectionOutcome(c, OfOriginal, s, roots);
    CopiesOf(s.table, visited, s1.table);
    assert visited.Keys == Live(s.mem, s.table, roots);
    PaddedIsBare(s.table, visited.Keys);
    SumOfCopies(s.table, visited, s1.table, false);
    SumMonotone(s.table, visited.Keys, s.table.Keys, false);
  }

  lemma PackedInvariant(c: Config, s: State)
    requires Packed(c, s)
    ensures Invariant(c, s)
  {}

  lemma CopiesOf(t0: Table, visited: map<nat, nat>, t: Table)
    requires TableOfCopies(t0, visited, t)
    ensures visited.Keys <= t0.Keys
    ensures (forall k :: k in t0 ==> t0[k].alignment == 1) ==> forall a :: a in t ==> t[a].alignment == 1
  {}

  lemma PackedAlloc(c: Config, s: State, roots: seq<nat>, size: nat)
    requires Packed(c, s)
    ensures var r := Alloc(c, s, roots, size, 1);
      && (r.Allocated? <==> size > 0 && s.Next(s.active) + size <= c.maxAlloc)
      && Packed(c, r.s) && |r.s.mem| == |s.mem|
      && (r.Refused? ==> r.fault == if size == 0 || size > c.maxAlloc then BadAlloc else BadOptionalAccess)
  {
    hide Alloc, RunInvariant, AlignedTo;
    assert Pow2(0) == 1;
    RunAlloc(c, s, roots, size, 1);
    var r := Alloc(c, s, roots, size, 1);
    if r.Allocated? {
      SumOfSubtable(r.s.table, s.table, s.table.Keys, false);
      SumAdd(r.s.table, s.table.Keys, r.ptr, false);
      assert r.s.table.Keys == s.table.Keys + {r.ptr};
    }
  }

  lemma LiveFits(s: State, roots: seq<nat>)
    ensures LiveBytes(s, roots) <= Sum(s.table, s.table.Keys, false)
  {
    hide Reachable;
    SumMonotone(s.table, Live(s.mem, s.table, roots), s.table.Keys, false);
  }

  // GC::alloc succeeds exactly when the request is not empty and fits beside the live objects, and
  // otherwise throws bad_alloc.
  lemma GcAllocComplete(c: Config, s: State, roots: seq<nat>, size: nat)
    requires Packed(c, s) && RootPlaces(c, |s.mem|, roots) && c.maxAlloc < SIZE_MAX
    ensures var r := GcAlloc(c, s, roots, size, 1);
      && (r.Allocated? <==> size > 0 && LiveBytes(s, roots) + size <= c.maxAlloc)
      && (r.Refused? ==> r.fault == BadAlloc)
      && Packed(c, r.s) && |r.s.mem| == |s.mem|
  {
    hide Alloc, Collect, LiveBytes, RunInvariant, RootPlaces, Sum, Evacuate;
    LiveFits(s, roots);
    if FreeSpace(c, s) < size {
      PackedCollect(c, s, roots);
      var s1 := Collect(c, OfOriginal, s, roots);
      PackedAlloc(c, s1, roots, size);
    } else {
      PackedAlloc(c, s, roots, size);
    }
  }

  // ---- Any alignment ----

  // Where the bump index ends when an object is placed at it.
  function PlacedEnd(base: nat, next: nat, size: nat, alignment: nat): nat {
    next + Padding(base + next, alignment) + size
  }

  // What GC::alloc finds: the bump index as it is when enough bytes look free, otherwise, after the
  // collection it starts, the end of the layout of the reachable objects.
  ghost function RoomFrom(c: Config, s: State, roots: seq<nat>, size: nat): (nat, nat) {
    if FreeSpace(c, s) >= size then (c.Base(s.active), s.Next(s.active))
    else
      var base := c.Base(s.active.Other());
      (base, LayoutEnd(base, s.table, Order(s, roots)))
  }

  // GC::alloc succeeds exactly when the request is not empty and, padded, fits from there. So it can fail
  // although a collection would have made room: with enough free bytes it starts none, and throws when
  // the padding does not fit.
  lemma GcAllocExact(c: Config, s: State, roots: seq<nat>, size: nat, alignment: nat)
    requires RunInvariant(c, s) && RootPlaces(c, |s.mem|, roots)
    requires IsPow2(alignment) && c.maxAlloc < SIZE_MAX
    requires FreeSpace(c, s) < size ==> Fits(c, OfOriginal, s, roots)
    ensures var r := GcAlloc(c, s, roots, size, alignment); var (base, next) := RoomFrom(c, s, roots, size);
      && (r.Allocated? <==> size > 0 && PlacedEnd(base, next, size, alignment) <= c.maxAlloc)
      && (r.Allocated? ==> r.ptr + size == base + PlacedEnd(base, next, size, alignment))
      && (r.Refused? && 0 < size <= FreeSpace(c, s) ==> r.fault == BadOptionalAccess && r.s == s)
      && RunInvariant(c, r.s)
  {
    hide Alloc, Collect, Evacuate, RunInvariant, RootPlaces, Padding, IsPow2, LayoutEnd, Order, Laid, Holds, Spills;
    if FreeSpace(c, s) < size {
      var s1 := Collect(c, OfOriginal, s, roots);
      RunInvariantHeap(c, s);
      CollectKeeps(c, OfOriginal, s, roots);
      CollectionFollowsOrder(c, s, roots);
      CollectedNext(c, s, roots);
      RunAlloc(c, s1, roots, size, alignment);
    } else {
      RunAlloc(c, s, roots, size, alignment);
    }
  }

  lemma CollectedNext(c: Config, s: State, roots: seq<nat>)
    requires Evacuate(c, OfOriginal, s, roots).Done?
    ensures var s1 := Collect(c, OfOriginal, s, roots);
      s1.active == s.active.Other() && s1.Next(s1.active) == Evacuate(c, OfOriginal, s, roots).e.next
  {
    hide Evacuate;
  }

  // The heap a constructor leaves is packed.
  lemma FreshHeapPacked(c: Config, mem: Memory)
    requires ValidConfig(c, |mem|) && c.heapSize > 0
    ensures Packed(c, State(mem, 0, 0, Zero, map[]))
  {
    var s := State(mem, 0, 0, Zero, map[]);
    assert s.table.Keys == {};
  }

  // ---- Runs ----

  datatype GcOp =
    | GcAllocOp(size: nat, roots: seq<nat>)
    | GcCollectOp(roots: seq<nat>)
    | GcWriteOp(a: nat, value: Byte)

  ghost function GcApply(c: Config, s: State, op: GcOp): State {
    match op
    case GcAllocOp(size, roots) => GcAlloc(c, s, roots, size, 1).s
    case GcCollectOp(roots) => Collect(c, OfOriginal, s, roots)
    case GcWriteOp(a, value) => s.(mem := Write(s.mem, a, value))
  }

  ghost function GcRun(c: Config, s: State, ops: seq<GcOp>): State
    decreases |ops|
  {
    if ops == [] then s else GcRun(c, GcApply(c, s, ops[0]), ops[1..])
  }

  ghost predicate RootsOutside(c: Config, size: nat, ops: seq<GcOp>) {
    forall op :: op in ops ==>
      (op.GcAllocOp? ==> RootPlaces(c, size, op.roots)) && (op.GcCollectOp? ==> RootPlaces(c, size, op.roots))
  }

  lemma PackedWrite(c: Config, s: State, a: nat, value: Byte)
    requires Packed(c, s)
    ensures Packed(c, s.(mem := Write(s.mem, a, value)))
  {
    hide Sum, WellPlaced;
  }

  // Whatever the mutator writes in between, the heap stays packed, so no collection of the run fails.
  lemma {:induction false} PackedRun(c: Config, s: State, ops: seq<GcOp>)
    requires Packed(c, s) && RootsOutside(c, |s.mem|, ops) && c.maxAlloc < SIZE_MAX
    ensures Packed(c, GcRun(c, s, ops)) && |GcRun(c, s, ops).mem| == |s.mem|
    decreases |ops|
  {
    hide Packed, GcAlloc, Collect, RootPlaces;
    if ops != [] {
      assert ops[0] in ops;
      match ops[0] {
        case GcAllocOp(size, roots) => GcAllocComplete(c, s, roots, size);
        case GcCollectOp(roots) => PackedCollect(c, s, roots);
        case GcWriteOp(a, value) => PackedWrite(c, s, a, value);
      }
      PackedRun(c, GcApply(c, s, ops[0]), ops[1..]);
    }
  }

  // So the guarantee of GC::alloc holds at every point of every run.
  lemma GcAllocCompleteInRuns(c: Config, s: State, ops: seq<GcOp>, roots: seq<nat>, size: nat)
    requires Packed(c, s) && RootsOutside(c, |s.mem|, ops) && RootPlaces(c, |s.mem|, roots) && c.maxAlloc < SIZE_MAX
    ensures var s1 := GcRun(c, s, ops);
      GcAlloc(c, s1, roots, size, 1).Allocated? <==> size > 0 && LiveBytes(s1, roots) + size <= c.maxAlloc
  {
    hide Packed, GcAlloc, LiveBytes, RootPlaces, GcRun, RootsOutside;
    PackedRun(c, s, ops);
    GcAllocComplete(c, GcRun(c, s, ops), roots, size);
  }
}
