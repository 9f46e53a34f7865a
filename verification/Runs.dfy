/**
 Whole runs of the serial collector: allocations, collections and arbitrary mutator
 writes in any order.
 */
module Runs {
  import opened Bits
  import opened FatPtrs
  import opened Heaps
  import opened Ledgers
  import opened Evacuation
  import opened Collections

  datatype Op =
    | AllocOp(size: nat, alignment: nat, roots: seq<nat>)
    | CollectOp(roots: seq<nat>)
    | WriteOp(a: nat, value: Byte)

  datatype Report = Quiet | Pointer(p: nat) | Raised(fault: Fault)

  function Write(m: Memory, a: nat, value: Byte): Memory {
    if a < |m| then m[a := value] else m
  }

  ghost function Apply(c: Config, s: State, op: Op): (State, Report) {
    match op
    case AllocOp(size, alignment, roots) =>
      (match Alloc(c, s, roots, size, alignment)
       case Allocated(s1, p) => (s1, Pointer(p))
       case Refused(s1, fault) => (s1, Raised(fault)))
    case CollectOp(roots) =>
      (Collect(c, OfOriginal, s, roots),
       match Evacuate(c, OfOriginal, s, roots)
       case Done(_) => Quiet
       case Faulted(_, fault) => Raised(fault))
    case WriteOp(a, value) => (s.(mem := Write(s.mem, a, value)), Quiet)
  }

  ghost function Run(c: Config, s: State, ops: seq<Op>): State
    decreases |ops|
  {
    if ops == [] then s else Run(c, Apply(c, s, ops[0]).0, ops[1..])
  }

  ghost predicate PowersOfTwo(ops: seq<Op>) {
    forall op :: op in ops && op.AllocOp? ==> IsPow2(op.alignment)
  }

  // Every collection of the run completes.
  ghost predicate Completes(c: Config, s: State, ops: seq<Op>)
    decreases |ops|
  {
    ops != [] ==>
      && (ops[0].CollectOp? ==> Evacuate(c, OfOriginal, s, ops[0].roots).Done?)
      && Completes(c, Apply(c, s, ops[0]).0, ops[1..])
  }

  // An empty table means an empty space.
  predicate EmptyMeansUnused(s: State) {
    s.table == map[] ==> s.Next(s.active) == 0
  }

  ghost predicate RunInvariant(c: Config, s: State) {
    Invariant(c, s) && EmptyMeansUnused(s)
  }

  // ---- Allocation ----

  lemma FreshAlloc(c: Config, s: State, a: nat, size: nat)
    requires Placed(c, s) && Within(c, s.active, c.heapSize, a, size) && size > 0
    requires c.Base(s.active) + s.Next(s.active) <= a
    ensures !Overlaps(s.table, a, size) && a !in s.table
  {
    hide IsPow2, AlignedTo, Apart;
    forall k | k in s.table
      ensures !OverlapsEntry(k, s.table[k].size, a, size) && k != a
    {
      assert Stands(c, s, k);
    }
  }

  // The state after an object has been placed at a.
  function WithObject(c: Config, s: State, a: nat, d: MetaData): State
    requires c.Base(s.active) <= a
  {
    s.SetNext(s.active, a + d.size - c.Base(s.active)).(table := s.table[a := d])
  }

  lemma PlaceOneMore(c: Config, s: State, a: nat, d: MetaData)
    requires Placed(c, s) && Within(c, s.active, c.heapSize, a, d.size) && d.size > 0
    requires c.Base(s.active) + s.Next(s.active) <= a && IsPow2(d.alignment) && AlignedTo(a, d.alignment)
    ensures Placed(c, WithObject(c, s, a, d))
    ensures Invariant(c, s) ==> Invariant(c, WithObject(c, s, a, d))
  {
    hide IsPow2, AlignedTo, Apart, Stands;
    var s1 := WithObject(c, s, a, d);
    forall k | k in s1.table
      ensures Stands(c, s1, k)
      ensures k != a ==> Apart(a, d.size, k, s.table[k].size) && Apart(k, s.table[k].size, a, d.size)
    {
      if k != a {
        assert Stands(c, s, k);
      }
      StandsBeside(c, s, a, d, k);
    }
  }

  lemma StandsBeside(c: Config, s: State, a: nat, d: MetaData, k: nat)
    requires SpacesApart(c) && Within(c, s.active, c.heapSize, a, d.size) && d.size > 0
    requires c.Base(s.active) + s.Next(s.active) <= a && IsPow2(d.alignment) && AlignedTo(a, d.alignment)
    requires k == a || (k in s.table && Stands(c, s, k))
    ensures Stands(c, WithObject(c, s, a, d), k)
    ensures k != a ==> Apart(a, d.size, k, s.table[k].size) && Apart(k, s.table[k].size, a, d.size)
  {
    hide IsPow2, AlignedTo;
  }

  // A first attempt either succeeds, exactly when the padded object fits under the allocation limit,
  // or throws because there are objects to compare a missing index with, or has nothing to compare.
  // So it does even after a collection that failed.
  lemma TryAllocOutcome(c: Config, s: State, size: nat, alignment: nat)
    requires Placed(c, s) && 0 < size <= c.maxAlloc && IsPow2(alignment)
    ensures var base := c.Base(s.active); var next := s.Next(s.active);
      var p := Padding(base + next, alignment); var r := TryAlloc(c, s, size, alignment);
      if next + size + p <= c.maxAlloc then
        var a := base + next + p; var s1 := WithObject(c, s, a, MetaData(size, alignment));
        && a !in s.table && AlignedTo(a, alignment)
        && r == Some(Allocated(s1, a)) && Placed(c, s1) && (Invariant(c, s) ==> Invariant(c, s1))
      else r == if s.table == map[] then None else Some(Refused(s, BadOptionalAccess))
  {
    hide IsPow2, AlignedTo, Overlaps, Invariant, Padding, Placed;
    var base, next := c.Base(s.active), s.Next(s.active);
    var p := Padding(base + next, alignment);
    Pow2AtMost256(alignment);
    PaddingAligns(base + next, alignment);
    PlacedConfig(c, s);
    if next + size + p <= c.maxAlloc {
      FreshAlloc(c, s, base + next + p, size);
      PlaceOneMore(c, s, base + next + p, MetaData(size, alignment));
    }
  }

  lemma PlacedConfig(c: Config, s: State)
    requires Placed(c, s)
    ensures ValidConfig(c, |s.mem|)
  {}

  // In any state at all, an attempt changes no memory and not the active space, and a reservation that was
  // made is never taken back; without one nothing changes.
  lemma TryAllocFrame(c: Config, s: State, size: nat, alignment: nat)
    requires TryAlloc(c, s, size, alignment).Some?
    ensures var r := TryAlloc(c, s, size, alignment).value; var next := s.Next(s.active);
      var p := Padding(c.Base(s.active) + next, alignment);
      && r.s.mem == s.mem && r.s.active == s.active && r.s.Next(s.active.Other()) == s.Next(s.active.Other())
      && r.s.Next(s.active) == (if next + p + size <= c.maxAlloc then next + p + size else next)
      && (r.Refused? ==> r.s.table == s.table)
      && (r.Refused? && r.fault == HeapCorruption <==>
           next + p + size <= c.maxAlloc && Overlaps(s.table, c.Base(s.active) + next + p, size))
      && (forall k :: k in s.table ==> k in r.s.table && r.s.table[k] == s.table[k])
  {
    hide Overlaps, Padding;
  }

  // Space starts are aligned to everything an object may ask for.
  lemma BaseAligned(base: nat, alignment: nat)
    requires base % 256 == 0 && IsPow2(alignment)
    ensures Padding(base, alignment) == 0
  {
    hide Pow2;
    var k: nat :| k <= 8 && alignment == Pow2(k);
    Pow2Factor(k);
    var e, q := Pow2(8 - k), base / 256;
    Assoc(alignment, e, q);
    DivModUnique(base, alignment, e * q, 0);
  }

  lemma {:induction false} Pow2Factor(k: nat)
    requires k <= 8
    ensures Pow2(k) * Pow2(8 - k) == 256
    decreases 8 - k
  {
    assert Pow2(0) == 1 && Pow2(1) == 2 && Pow2(2) == 4 && Pow2(3) == 8 && Pow2(4) == 16;
    assert Pow2(5) == 32 && Pow2(6) == 64 && Pow2(7) == 128 && Pow2(8) == 256;
  }

  lemma PlacedBase(c: Config, s: State)
    requires Placed(c, s)
    ensures c.base0 % 256 == 0 && c.base1 % 256 == 0 && s.Next(s.active.Other()) == 0
  {}

  lemma RunPlaced(c: Config, s: State)
    requires RunInvariant(c, s)
    ensures Placed(c, s) && EmptyMeansUnused(s) && Invariant(c, s)
  {
    hide Invariant, Placed;
    InvariantPlaced(c, s);
  }

  // CopyingCollector::alloc documents "if allocation fails, invokes a collection and tries again".
  // In no reachable state does it, not even after a collection has failed: it succeeds at once or throws,
  // and changes nothing when it throws.
  lemma AllocNeverCollects(c: Config, s: State, roots: seq<nat>, size: nat, alignment: nat)
    requires Placed(c, s) && EmptyMeansUnused(s) && IsPow2(alignment)
    ensures var base := c.Base(s.active); var next := s.Next(s.active);
      var p := Padding(base + next, alignment); var r := Alloc(c, s, roots, size, alignment);
      if size == 0 || size > c.maxAlloc then r == Refused(s, BadAlloc)
      else if next + size + p > c.maxAlloc then r == Refused(s, BadOptionalAccess)
      else
        && r.Allocated? && r.ptr == base + next + p && r.ptr !in s.table
        && r.s == s.SetNext(s.active, next + p + size).(table := s.table[r.ptr := MetaData(size, alignment)])
        && Placed(c, r.s) && EmptyMeansUnused(r.s) && (Invariant(c, s) ==> Invariant(c, r.s))
  {
    hide IsPow2, AlignedTo, TryAlloc, Padding, Placed, Invariant, CollectFor;
    if 0 < size <= c.maxAlloc {
      TryAllocOutcome(c, s, size, alignment);
      if s.table == map[] {
        PlacedBase(c, s);
        BaseAligned(c.Base(s.active), alignment);
      }
    }
  }

  // The same from the heap invariant, which it keeps.
  lemma RunAlloc(c: Config, s: State, roots: seq<nat>, size: nat, alignment: nat)
    requires RunInvariant(c, s) && IsPow2(alignment)
    ensures var base := c.Base(s.active); var next := s.Next(s.active);
      var p := Padding(base + next, alignment); var r := Alloc(c, s, roots, size, alignment);
      if size == 0 || size > c.maxAlloc then r == Refused(s, BadAlloc)
      else if next + size + p > c.maxAlloc then r == Refused(s, BadOptionalAccess)
      else
        && r.Allocated? && r.ptr == base + next + p && r.ptr !in s.table
        && r.s == s.SetNext(s.active, next + p + size).(table := s.table[r.ptr := MetaData(size, alignment)])
        && RunInvariant(c, r.s)
  {
    hide IsPow2, Alloc, Padding, Placed, Invariant, EmptyMeansUnused;
    RunPlaced(c, s);
    AllocNeverCollects(c, s, roots, size, alignment);
  }

  // ---- The branches that need no heap invariant ----

  // A request for room starts a collection exactly when the room is missing. Where there is enough nothing
  // at all happens; otherwise the spaces change roles and the old one counts as empty.
  lemma CollectForOutcome(c: Config, s: State, roots: seq<nat>, needed: nat)
    ensures var s1 := CollectFor(c, s, roots, needed);
      if needed == 0 || s.Next(s.active) + needed <= c.maxAlloc then
        && s1.mem == s.mem && s1.table == s.table && s1.active == s.active
        && s1.next0 == s.next0 && s1.next1 == s.next1
      else
        && s1 == Collect(c, OfOriginal, s, roots)
        && s1.active == s.active.Other() && s1.Next(s.active) == 0
  {
    hide Evacuate, Sweep;
  }

  // Without objects a collection only changes the roles of the spaces.
  lemma {:induction false} NothingToForward(c: Config, to: Space, scan: Scanning, e: Evac, roots: seq<nat>)
    requires e.table == map[] && e.visited == map[]
    ensures ForwardRoots(c, to, scan, e, roots) == Done(e)
    decreases |roots|
  {
    hide IsSlot, Target;
    if roots != [] {
      assert Forward(c, to, scan, e, []) == Done(e);
      NothingToForward(c, to, scan, e, roots[1..]);
    }
  }

  lemma CollectNothing(c: Config, scan: Scanning, s: State, roots: seq<nat>)
    requires s.table == map[] && s.Next(s.active.Other()) == 0
    ensures Collect(c, scan, s, roots) == State(s.mem, 0, 0, s.active.Other(), map[])
  {
    hide ForwardRoots;
    NothingToForward(c, s.active.Other(), scan, Evac(s.mem, s.Next(s.active.Other()), s.table, map[]), roots);
  }

  // An attempt that finds no room is repeated at most once, and only where there are no objects at all: after
  // a collection, which makes the whole of the other space free, or, where the request would have fitted
  // without its padding, in vain.
  lemma RetryOutcome(c: Config, s: State, roots: seq<nat>, size: nat, alignment: nat)
    requires Placed(c, s) && 0 < size <= c.maxAlloc && IsPow2(alignment)
    ensures var next, to := s.Next(s.active), s.active.Other(); var a := c.Base(to);
      var r := Alloc(c, s, roots, size, alignment);
      next + size + Padding(c.Base(s.active) + next, alignment) > c.maxAlloc ==>
        if s.table != map[] then r == Refused(s, BadOptionalAccess)
        else if next + size <= c.maxAlloc then r == Refused(s, BadAlloc)
        else
          && r.Allocated? && r.ptr == a
          && r.s == State(s.mem, 0, 0, to, map[]).SetNext(to, size).(table := map[a := MetaData(size, alignment)])
  {
    hide IsPow2, AlignedTo, TryAlloc, Padding, Placed, Invariant, Collect;
    TryAllocOutcome(c, s, size, alignment);
    CollectForOutcome(c, s, roots, size);
    PlacedBase(c, s);
    if s.table == map[] && s.Next(s.active) + size > c.maxAlloc {
      CollectNothing(c, OfOriginal, s, roots);
      var s1 := State(s.mem, 0, 0, s.active.Other(), map[]);
      EmptyPlaced(c, s, s1);
      BaseAligned(c.Base(s.active.Other()), alignment);
      TryAllocOutcome(c, s1, size, alignment);
    }
  }

  lemma EmptyPlaced(c: Config, s: State, s1: State)
    requires Placed(c, s) && s1 == State(s.mem, 0, 0, s.active.Other(), map[])
    ensures Placed(c, s1)
  {}

  // ---- Runs ----

  // A store is seen where it was made and nowhere else.
  lemma WriteReads(m: Memory, a: nat, value: Byte, b: int)
    ensures At(Write(m, a, value), b) == if b == a && a < |m| then value else At(m, b)
  {}

  lemma WriteKeeps(c: Config, s: State, a: nat, value: Byte)
    requires RunInvariant(c, s)
    ensures RunInvariant(c, s.(mem := Write(s.mem, a, value)))
  {
    hide WellPlaced;
  }

  lemma CollectKeeps(c: Config, scan: Scanning, s: State, roots: seq<nat>)
    requires RunInvariant(c, s) && Evacuate(c, scan, s, roots).Done?
    ensures RunInvariant(c, Collect(c, scan, s, roots))
  {
    hide Invariant, Evacuate, Collect, Full, HalfDone;
    CollectionOutcome(c, scan, s, roots);
    var visited := Evacuate(c, scan, s, roots).e.visited;
    var s1 := Collect(c, scan, s, roots);
    if s1.table == map[] {
      assert visited.Keys == {};
    }
  }

  // Whatever memory holds: an allocation keeps the run invariant and changes nothing when it throws, a
  // collection keeps it exactly when it completes, and nothing but lack of room is ever reported.
  lemma ApplyKeeps(c: Config, s: State, op: Op)
    requires RunInvariant(c, s) && PowersOfTwo([op])
    ensures var (s1, report) := Apply(c, s, op);
      && (report.Raised? ==> OutOfRoom(report.fault))
      && (op.CollectOp? ==> (RunInvariant(c, s1) <==> report == Quiet))
      && (!op.CollectOp? ==> RunInvariant(c, s1) && (report.Raised? ==> s1 == s))
  {
    hide EmptyMeansUnused, Alloc, Collect, Evacuate, IsPow2, Padding, Invariant, Full, HalfDone, TableOfCopies, Sum;
    assert op in [op];
    match op
    case AllocOp(size, alignment, roots) => RunAlloc(c, s, roots, size, alignment);
    case CollectOp(roots) =>
      CollectionOutcome(c, OfOriginal, s, roots);
      if Evacuate(c, OfOriginal, s, roots).Done? {
        CollectKeeps(c, OfOriginal, s, roots);
      }
    case WriteOp(a, value) => WriteKeeps(c, s, a, value);
  }

  // The heap invariant of whole runs: managed objects in the active space, below its bump index,
  // aligned and disjoint; the other space unused.
  lemma {:induction false} RunKeeps(c: Config, s: State, ops: seq<Op>)
    requires RunInvariant(c, s) && PowersOfTwo(ops) && Completes(c, s, ops)
    ensures RunInvariant(c, Run(c, s, ops))
    decreases |ops|
  {
    hide RunInvariant, Evacuate, Collect, Alloc, IsPow2;
    if ops != [] {
      assert ops[0] in ops;
      ApplyKeeps(c, s, ops[0]);
      RunKeeps(c, Apply(c, s, ops[0]).0, ops[1..]);
    }
  }

  // The i-th operation of a run reports.
  ghost function ReportOf(c: Config, s: State, ops: seq<Op>, i: nat): Report
    requires i < |ops|
  {
    Apply(c, Run(c, s, ops[..i]), ops[i]).1
  }

  ghost predicate CollectionFailed(c: Config, s: State, ops: seq<Op>, j: nat)
    requires j < |ops|
  {
    ops[j].CollectOp? && ReportOf(c, s, ops, j).Raised?
  }

  lemma LaterReport(c: Config, s: State, ops: seq<Op>, i: nat)
    requires 0 < i < |ops|
    ensures ReportOf(c, s, ops, i) == ReportOf(c, Apply(c, s, ops[0]).0, ops[1..], i - 1)
  {
    hide Apply;
    assert ops[..i][1..] == ops[1..][..i - 1] && ops[..i][0] == ops[0];
  }

  // What still holds after a collection has failed.
  ghost predicate StillPlaced(c: Config, s: State) {
    Placed(c, s) && EmptyMeansUnused(s)
  }

  lemma CollectPlaced(c: Config, s: State, roots: seq<nat>)
    requires RunInvariant(c, s)
    ensures StillPlaced(c, Collect(c, OfOriginal, s, roots))
  {
    hide Evacuate, Collect, IsPow2, Padding, Invariant, Full, TableOfCopies, Sum, Placed, Books;
    CollectionOutcome(c, OfOriginal, s, roots);
    if Evacuate(c, OfOriginal, s, roots).Done? {
      CollectKeeps(c, OfOriginal, s, roots);
    }
  }

  // After a failed collection an allocation, like any before it, takes the place next to the objects of
  // the active space or throws for lack of room; heap corruption it cannot report.
  lemma AllocAfterFailure(c: Config, s: State, roots: seq<nat>, roots1: seq<nat>, size: nat, alignment: nat)
    requires RunInvariant(c, s) && Evacuate(c, OfOriginal, s, roots).Faulted? && IsPow2(alignment)
    ensures var s1 := Collect(c, OfOriginal, s, roots); var r := Alloc(c, s1, roots1, size, alignment);
      var start := s1.Next(s1.active) + Padding(c.Base(s1.active) + s1.Next(s1.active), alignment);
      && s1.Next(s1.active) == Evacuate(c, OfOriginal, s, roots).e.next
      && (r.Allocated? <==> 0 < size <= c.maxAlloc && start + size <= c.maxAlloc)
      && (r.Allocated? ==> r.ptr == c.Base(s1.active) + start)
      && (r.Refused? ==> OutOfRoom(r.fault) && r.s == s1)
  {
    hide Evacuate, Collect, IsPow2, Padding, Placed, Invariant, EmptyMeansUnused, Alloc, Full, HalfDone;
    hide TableOfCopies, Sum;
    CollectPlaced(c, s, roots);
    CollectionOutcome(c, OfOriginal, s, roots);
    AllocNeverCollects(c, Collect(c, OfOriginal, s, roots), roots1, size, alignment);
  }

  lemma StillPlacedKept(c: Config, s: State, op: Op)
    requires StillPlaced(c, s) && PowersOfTwo([op]) && !op.CollectOp?
    ensures var (s1, report) := Apply(c, s, op); StillPlaced(c, s1) && (report.Raised? ==> OutOfRoom(report.fault))
  {
    hide Alloc, IsPow2, Padding, Invariant;
    assert op in [op];
    match op
    case AllocOp(size, alignment, roots) =>
      PlacedHidden(c, s);
      AllocNeverCollects(c, s, roots, size, alignment);
    case WriteOp(a, value) => WriteStays(c, s, a, value);
  }

  lemma PlacedHidden(c: Config, s: State)
    requires StillPlaced(c, s)
    ensures Placed(c, s) && EmptyMeansUnused(s)
  {}

  lemma WriteStays(c: Config, s: State, a: nat, value: Byte)
    requires StillPlaced(c, s)
    ensures StillPlaced(c, s.(mem := Write(s.mem, a, value)))
  {
    hide IsPow2, AlignedTo, Apart;
    var s1 := s.(mem := Write(s.mem, a, value));
    forall k | k in s1.table
      ensures Stands(c, s1, k)
    {
      assert Stands(c, s, k);
    }
  }

  // One of the first n operations is a collection.
  ghost predicate CollectsWithin(ops: seq<Op>, n: nat)
    requires n <= |ops|
  {
    exists j :: 0 <= j < n && ops[j].CollectOp?
  }

  lemma {:induction false} CorruptionNeedsCollection(c: Config, s: State, ops: seq<Op>, i: nat)
    requires StillPlaced(c, s) && PowersOfTwo(ops) && i < |ops|
    requires ReportOf(c, s, ops, i) == Raised(HeapCorruption)
    ensures CollectsWithin(ops, i + 1)
    decreases i
  {
    hide StillPlaced, Apply, IsPow2;
    assert ops[0] in ops && ops[..0] == [];
    if !ops[0].CollectOp? {
      StillPlacedKept(c, s, ops[0]);
      assert ReportOf(c, s, ops, 0) == Apply(c, s, ops[0]).1;
      LaterReport(c, s, ops, i);
      CorruptionNeedsCollection(c, Apply(c, s, ops[0]).0, ops[1..], i - 1);
      var j :| 0 <= j < i && ops[1..][j].CollectOp?;
      assert ops[j + 1].CollectOp?;
    }
  }

  // Before the i-th operation ends, one collection has failed and another one has been started after it.
  ghost predicate CollectedAfterFailure(c: Config, s: State, ops: seq<Op>, i: nat)
    requires i < |ops|
  {
    exists j: nat, k: nat :: j < k <= i && CollectionFailed(c, s, ops, j) && ops[k].CollectOp?
  }

  // No run reports heap corruption unless one of its collections has failed for lack of room and another one
  // follows it: neither the failed collection itself nor anything allocated or written after it reports it.
  lemma {:induction false} CorruptionNeedsFailure(c: Config, s: State, ops: seq<Op>, i: nat)
    requires RunInvariant(c, s) && PowersOfTwo(ops) && i < |ops|
    requires ReportOf(c, s, ops, i) == Raised(HeapCorruption)
    ensures CollectedAfterFailure(c, s, ops, i)
    decreases i
  {
    hide RunInvariant, StillPlaced, Apply, IsPow2;
    assert ops[0] in ops && ops[..0] == [];
    ApplyKeeps(c, s, ops[0]);
    assert ReportOf(c, s, ops, 0) == Apply(c, s, ops[0]).1;
    assert i > 0;
    var s1 := Apply(c, s, ops[0]).0;
    LaterReport(c, s, ops, i);
    if ops[0].CollectOp? && Apply(c, s, ops[0]).1 != Quiet {
      FirstFails(c, s, ops);
      assert CollectionFailed(c, s, ops, 0);
      FirstPlaced(c, s, ops);
      CorruptionNeedsCollection(c, s1, ops[1..], i - 1);
      var k :| 0 <= k < i && ops[1..][k].CollectOp?;
      assert ops[k + 1].CollectOp?;
    } else {
      CorruptionNeedsFailure(c, s1, ops[1..], i - 1);
      var j: nat, k: nat :| j < k <= i - 1 && CollectionFailed(c, s1, ops[1..], j) && ops[1..][k].CollectOp?;
      LaterReport(c, s, ops, j + 1);
      assert CollectionFailed(c, s, ops, j + 1) && ops[k + 1].CollectOp?;
    }
  }

  lemma FirstPlaced(c: Config, s: State, ops: seq<Op>)
    requires RunInvariant(c, s) && ops != [] && ops[0].CollectOp?
    ensures StillPlaced(c, Apply(c, s, ops[0]).0)
  {
    hide Evacuate, Collect, RunInvariant, StillPlaced;
    CollectPlaced(c, s, ops[0].roots);
  }

  lemma FirstFails(c: Config, s: State, ops: seq<Op>)
    requires ops != [] && ops[0].CollectOp? && Apply(c, s, ops[0]).1 != Quiet
    ensures Apply(c, s, ops[0]).1.Raised?
  {
    hide Evacuate, Collect;
  }

  // ---- Every managed object is in a space ----

  ghost predicate InSpaces(c: Config, t: Table) {
    forall k :: k in t ==> c.Contains(k)
  }

  lemma TryAllocInSpaces(c: Config, s: State, size: nat, alignment: nat)
    requires InSpaces(c, s.table) && TryAlloc(c, s, size, alignment).Some?
    ensures InSpaces(c, TryAlloc(c, s, size, alignment).value.s.table)
  {
    hide Overlaps, Padding;
  }

  lemma CopyInSpaces(c: Config, to: Space, e: Evac, slot: nat, k: nat)
    requires InSpaces(c, e.table) && k in e.table
    ensures var r := CopyObject(c, to, e, slot, k); InSpaces(c, r.e.table) && (r.Faulted? ==> r.fault != NotManaged)
  {
    hide Overlaps, Padding, AtomicCopy.Copy, Cas;
  }

  lemma StepInSpaces(c: Config, to: Space, scan: Scanning, e: Evac, stack: seq<nat>)
    requires InSpaces(c, e.table) && stack != []
    ensures var r := Step(c, to, scan, e, stack); InSpaces(c, r.e.table) && (r.Halt? ==> r.fault != NotManaged)
  {
    hide IsSlot, Target, CopyObject, Cas, ScanMemory;
    var s := stack[|stack| - 1];
    if Target(e.mem, s) in e.table {
      CopyInSpaces(c, to, e, s, Target(e.mem, s));
    }
  }

  lemma {:induction false} ForwardInSpaces(c: Config, to: Space, scan: Scanning, e: Evac, stack: seq<nat>)
    requires InSpaces(c, e.table)
    ensures var r := Forward(c, to, scan, e, stack); InSpaces(c, r.e.table) && (r.Faulted? ==> r.fault != NotManaged)
    decreases Pending(c, to, e.table), |stack|
  {
    hide InSpaces, Step, Pending;
    if stack != [] {
      StepInSpaces(c, to, scan, e, stack);
      var r := Step(c, to, scan, e, stack);
      if r.Next? {
        ForwardInSpaces(c, to, scan, r.e, r.stack);
      }
    }
  }

  lemma {:induction false} RootsInSpaces(c: Config, to: Space, scan: Scanning, e: Evac, roots: seq<nat>)
    requires InSpaces(c, e.table)
    ensures var r := ForwardRoots(c, to, scan, e, roots);
      InSpaces(c, r.e.table) && (r.Faulted? ==> r.fault != NotManaged)
    decreases |roots|
  {
    hide InSpaces, Forward, IsSlot, Target;
    if roots != [] {
      ForwardInSpaces(c, to, scan, e, [roots[0]]);
      RootsInSpaces(c, to, scan, e, roots[1..]);
      var r := Forward(c, to, scan, e, [roots[0]]);
      if r.Done? {
        RootsInSpaces(c, to, scan, r.e, roots[1..]);
      }
    }
  }

  lemma CollectInSpaces(c: Config, s: State, roots: seq<nat>)
    requires InSpaces(c, s.table)
    ensures InSpaces(c, Collect(c, OfOriginal, s, roots).table)
    ensures var o := Evacuate(c, OfOriginal, s, roots); o.Faulted? ==> o.fault != NotManaged
  {
    hide ForwardRoots;
    var to := s.active.Other();
    RootsInSpaces(c, to, OfOriginal, Evac(s.mem, s.Next(to), s.table, map[]), roots);
  }

  lemma AllocInSpaces(c: Config, s: State, roots: seq<nat>, size: nat, alignment: nat)
    requires InSpaces(c, s.table)
    ensures var r := Alloc(c, s, roots, size, alignment);
      InSpaces(c, r.s.table) && (r.Refused? ==> r.fault != NotManaged)
  {
    hide InSpaces, Collect, Overlaps, Padding;
    if TryAlloc(c, s, size, alignment).Some? {
      TryAllocInSpaces(c, s, size, alignment);
    } else {
      CollectInSpaces(c, s, roots);
      var s1 := CollectFor(c, s, roots, size);
      if TryAlloc(c, s1, size, alignment).Some? {
        TryAllocInSpaces(c, s1, size, alignment);
      }
    }
  }

  lemma ApplyInSpaces(c: Config, s: State, op: Op)
    requires InSpaces(c, s.table)
    ensures var (s1, report) := Apply(c, s, op); InSpaces(c, s1.table) && report != Raised(NotManaged)
  {
    hide InSpaces, Collect, Evacuate, Alloc;
    match op
    case AllocOp(size, alignment, roots) => AllocInSpaces(c, s, roots, size, alignment);
    case CollectOp(roots) => CollectInSpaces(c, s, roots);
    case WriteOp(_, _) =>
  }

  // Of all runs, whatever fails in them and whatever alignments are asked for, none ever manages an object
  // outside the two spaces, and so none reports a pointer of neither space.
  lemma {:induction false} NotManagedNever(c: Config, s: State, ops: seq<Op>, i: nat)
    requires InSpaces(c, s.table) && i < |ops|
    ensures InSpaces(c, Run(c, s, ops[..i]).table) && ReportOf(c, s, ops, i) != Raised(NotManaged)
    decreases i
  {
    hide InSpaces, Apply;
    assert ops[..0] == [];
    ApplyInSpaces(c, s, ops[0]);
    if i > 0 {
      NotManagedNever(c, Apply(c, s, ops[0]).0, ops[1..], i - 1);
      LaterReport(c, s, ops, i);
      assert ops[..i][1..] == ops[1..][..i - 1] && ops[..i][0] == ops[0];
    }
  }

  // ---- Runs that cannot fail ----

  // No object asks for more alignment than its size, as no C++ type does.
  ghost predicate Natural(ops: seq<Op>) {
    forall op :: op in ops && op.AllocOp? ==> IsPow2(op.alignment) && (op.size > 0 ==> op.alignment <= op.size)
  }

  ghost predicate NaturalInvariant(c: Config, s: State) {
    && RunInvariant(c, s)
    && (forall k :: k in s.table ==> s.table[k].alignment <= s.table[k].size)
    && Sum(s.table, s.table.Keys, false) <= c.maxAlloc && Sum(s.table, s.table.Keys, false) <= s.Next(s.active)
  }

  // The worst padding less than doubles what such objects take.
  lemma {:induction false} PaddingHalves(t: Table, ks: set<nat>)
    requires ks <= t.Keys && forall k :: k in t ==> 0 < t[k].alignment <= t[k].size
    ensures Sum(t, ks, true) + |ks| <= 2 * Sum(t, ks, false)
    decreases |ks|
  {
    if ks != {} {
      var k := Pick(ks);
      PaddingHalves(t, ks - {k});
      SumRemove(t, ks, k, true);
      SumRemove(t, ks, k, false);
      assert |ks - {k}| == |ks| - 1;
    }
  }

  // Half a space of such objects always fits into a space, in every order.
  lemma NaturalCompletes(c: Config, scan: Scanning, s: State, roots: seq<nat>)
    requires NaturalInvariant(c, s)
    ensures Evacuate(c, scan, s, roots).Done?
  {
    hide Sum, Evacuate, Collect, HalfDone, TableOfCopies, EmptyMeansUnused;
    var o := Evacuate(c, scan, s, roots);
    CollectionOutcome(c, scan, s, roots);
    if o.Faulted? {
      var v :| v in s.table && v !in o.e.visited && FillsWith(c, s.table, o.e.visited.Keys, v, o.e.next);
      NaturalAlignments(c, s);
      PaddingHalves(s.table, s.table.Keys);
      assert v in s.table.Keys;
      SumMonotone(s.table, o.e.visited.Keys + {v}, s.table.Keys, true);
    }
  }

  lemma NaturalAlignments(c: Config, s: State)
    requires NaturalInvariant(c, s)
    ensures forall k :: k in s.table ==> 0 < s.table[k].alignment <= s.table[k].size && s.table[k].alignment <= 256
    ensures 2 * c.maxAlloc <= c.heapSize
  {
    hide Sum, Apart, AlignedTo, IsPow2;
    forall k | k in s.table
      ensures 0 < s.table[k].alignment <= 256
    {
      Pow2AtMost256(s.table[k].alignment);
    }
  }

  lemma NaturalCollect(c: Config, scan: Scanning, s: State, roots: seq<nat>)
    requires NaturalInvariant(c, s)
    ensures NaturalInvariant(c, Collect(c, scan, s, roots))
  {
    hide Sum, Evacuate, Collect, HalfDone, RunInvariant, TableOfCopies;
    var visited := Evacuate(c, scan, s, roots).e.visited;
    var s1 := Collect(c, scan, s, roots);
    NaturalCompletes(c, scan, s, roots);
    CollectKeeps(c, scan, s, roots);
    assert Invariant(c, s) by { RunInvariantHeap(c, s); }
    CollectionOutcome(c, scan, s, roots);
    CopiesAlignment(s.table, visited, s1.table);
    SumOfCopies(s.table, visited, s1.table, false);
    SumMonotone(s.table, visited.Keys, s.table.Keys, false);
  }

  const PAGE: nat := 4096

  // No object needs more than 255 bytes of padding.
  lemma {:induction false} PaddingPerObject(t: Table, ks: set<nat>)
    requires ks <= t.Keys && forall k :: k in t ==> 0 < t[k].alignment <= 256
    ensures Sum(t, ks, true) <= Sum(t, ks, false) + 255 * |ks|
    decreases |ks|
  {
    if ks != {} {
      var k := Pick(ks);
      PaddingPerObject(t, ks - {k});
      SumRemove(t, ks, k, true);
      SumRemove(t, ks, k, false);
      assert |ks - {k}| == |ks| - 1;
    }
  }

  // In spaces of at least a page such objects leave room even for what their copies write too many.
  lemma NaturalSlack(c: Config, s: State, roots: seq<nat>)
    requires NaturalInvariant(c, s) && c.heapSize >= PAGE
    ensures LiveSlack(c, s.mem, s.table, roots)
  {
    hide Sum, Reachable, RunInvariant;
    NaturalAlignments(c, s);
    PaddingHalves(s.table, s.table.Keys);
    PaddingPerObject(s.table, s.table.Keys);
    SumMonotone(s.table, Live(s.mem, s.table, roots), s.table.Keys, true);
  }

  lemma RunInvariantHeap(c: Config, s: State)
    requires RunInvariant(c, s)
    ensures Invariant(c, s)
  {}

  lemma CopiesAlignment(t0: Table, visited: map<nat, nat>, t: Table)
    requires TableOfCopies(t0, visited, t) && forall k :: k in t0 ==> t0[k].alignment <= t0[k].size
    ensures visited.Keys <= t0.Keys && forall a :: a in t ==> t[a].alignment <= t[a].size
  {}

  lemma NaturalAlloc(c: Config, s: State, roots: seq<nat>, size: nat, alignment: nat)
    requires NaturalInvariant(c, s) && IsPow2(alignment) && (size > 0 ==> alignment <= size)
    ensures NaturalInvariant(c, Alloc(c, s, roots, size, alignment).s)
  {
    hide Alloc, RunInvariant, AlignedTo, IsPow2, Sum, Padding;
    RunAlloc(c, s, roots, size, alignment);
    var r := Alloc(c, s, roots, size, alignment);
    if r.Allocated? {
      SumOfSubtable(r.s.table, s.table, s.table.Keys, false);
      SumAdd(r.s.table, s.table.Keys, r.ptr, false);
      assert r.s.table.Keys == s.table.Keys + {r.ptr};
    }
  }

  lemma CollectSize(c: Config, scan: Scanning, s: State, roots: seq<nat>)
    requires NaturalInvariant(c, s)
    ensures |Collect(c, scan, s, roots).mem| == |s.mem|
  {
    hide Evacuate, Collect, HalfDone, TableOfCopies, Sum, Full;
    CollectionOutcome(c, scan, s, roots);
  }

  lemma NaturalApply(c: Config, s: State, op: Op)
    requires NaturalInvariant(c, s) && Natural([op])
    ensures var (s1, report) := Apply(c, s, op);
      && NaturalInvariant(c, s1) && |s1.mem| == |s.mem|
      && (report.Raised? ==> op.AllocOp? && OutOfRoom(report.fault) && s1 == s)
  {
    hide RunInvariant, Alloc, Collect, Evacuate, IsPow2, Padding, Sum;
    assert op in [op] && RunInvariant(c, s);
    match op
    case AllocOp(size, alignment, roots) =>
      RunAlloc(c, s, roots, size, alignment);
      NaturalAlloc(c, s, roots, size, alignment);
    case CollectOp(roots) =>
      NaturalCompletes(c, OfOriginal, s, roots);
      NaturalCollect(c, OfOriginal, s, roots);
      CollectSize(c, OfOriginal, s, roots);
    case WriteOp(a, value) => WriteKeeps(c, s, a, value);
  }

  // Of such objects any run keeps the heap invariant, whatever the mutators write and whatever the roots
  // are; no collection fails, and an allocation that does leaves everything as it was.
  lemma {:induction false} NaturalRun(c: Config, s: State, ops: seq<Op>, i: nat)
    requires NaturalInvariant(c, s) && Natural(ops) && i <= |ops|
    ensures NaturalInvariant(c, Run(c, s, ops[..i])) && |Run(c, s, ops[..i]).mem| == |s.mem|
    ensures i < |ops| ==> var report := ReportOf(c, s, ops, i);
      report.Raised? ==> ops[i].AllocOp? && OutOfRoom(report.fault)
    decreases i
  {
    hide NaturalInvariant, Apply, IsPow2;
    assert ops[..0] == [];
    if ops != [] {
      assert ops[0] in ops;
      NaturalApply(c, s, ops[0]);
      if i > 0 {
        var s1 := Apply(c, s, ops[0]).0;
        NaturalRun(c, s1, ops[1..], i - 1);
        assert ops[..i][1..] == ops[1..][..i - 1] && ops[..i][0] == ops[0];
      }
    }
  }

  // The heap a constructor leaves.
  lemma FreshIsNatural(c: Config, mem: Memory)
    requires ValidConfig(c, |mem|)
    ensures NaturalInvariant(c, State(mem, 0, 0, Zero, map[]))
  {
    var s := State(mem, 0, 0, Zero, map[]);
    assert s.table.Keys == {};
  }
}
