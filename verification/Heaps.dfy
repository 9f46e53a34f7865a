/**
 The copying collector of src/copy_collector.cpp as functions on states, under the
 serial policy (a collection runs inside the call that starts it).

 Thrown exceptions are faults; a faulting operation keeps what it had already changed.
 The generation policy always copies (the `copy` arm of forward_ptr).
 */
module Heaps {
  import opened Bits
  import opened FatPtrs
  import opened AtomicCopy

  datatype Space = Zero | One {
    function Other(): Space {
      if Zero? then One else Zero
    }
  }

  datatype MetaData = MetaData(size: nat, alignment: nat)

  // m_metadata: the managed objects by address.
  type Table = map<nat, MetaData>

  // Where the two spaces lie and how large they are; fixed by the constructor.
  datatype Config = Config(base0: nat, base1: nat, heapSize: nat, maxAlloc: nat) {
    function Base(sp: Space): nat {
      if sp.Zero? then base0 else base1
    }

    predicate InSpace(sp: Space, a: nat) {
      Base(sp) <= a < Base(sp) + heapSize
    }

    predicate Contains(a: nat) {
      InSpace(Zero, a) || InSpace(One, a)
    }
  }

  datatype Fault = BadAlloc | BadOptionalAccess | HeapCorruption | NotManaged

  datatype State = State(mem: Memory, next0: nat, next1: nat, active: Space, table: Table) {
    function Next(sp: Space): nat {
      if sp.Zero? then next0 else next1
    }

    function SetNext(sp: Space, n: nat): State {
      if sp.Zero? then this.(next0 := n) else this.(next1 := n)
    }
  }

  // What a collection works on: memory, the bump index of to-space, the table, the forwarding map.
  datatype Evac = Evac(mem: Memory, next: nat, table: Table, visited: map<nat, nat>)

  // Which object's slots forward_ptr pushes. The source scans the original; OfCopy is a variant of it.
  datatype Scanning = OfOriginal | OfCopy

  datatype StepResult = Next(e: Evac, stack: seq<nat>) | Halt(e: Evac, fault: Fault)
  datatype Outcome = Done(e: Evac) | Faulted(e: Evac, fault: Fault)

  // The least padding that brings an address to the alignment.
  function Padding(a: nat, alignment: nat): nat {
    if alignment == 0 || a % alignment == 0 then 0 else alignment - a % alignment
  }

  // The index reserve_space returns; the bump index then becomes that index plus the size.
  function Reserve(base: nat, next: nat, size: nat, alignment: nat, limit: nat): Option<nat> {
    var p := Padding(base + next, alignment);
    if next + size + p > limit then None else Some(next + p)
  }

  // The condition under which check_overlapping_alloc throws.
  ghost predicate Overlaps(t: Table, a: nat, size: nat) {
    exists k :: k in t && OverlapsEntry(k, t[k].size, a, size)
  }

  predicate OverlapsEntry(k: nat, n: nat, a: nat, size: nat) {
    (k <= a && k + n > a) || (a <= k && a + size > k)
  }

  // emplace keeps an entry that is already there.
  function Emplace(t: Table, k: nat, d: MetaData): Table {
    if k in t then t else t[k := d]
  }

  // copy(): reserve, check, record, copy the bytes, swing the slot, drop the original's entry.
  ghost function CopyObject(c: Config, to: Space, e: Evac, slot: nat, k: nat): Outcome
    requires k in e.table
  {
    var d := e.table[k];
    match Reserve(c.Base(to), e.next, d.size, d.alignment, c.heapSize)
    case None => Faulted(e, BadOptionalAccess)
    case Some(index) =>
      var a := c.Base(to) + index;
      var e1 := e.(next := index + d.size);
      if Overlaps(e.table, a, d.size) then Faulted(e1, HeapCorruption)
      else if d.size + index >= c.heapSize then Faulted(e1, BadAlloc)
      else Done(Evac(Cas(Copy(e.mem, a, k, d.size), slot, k, a),
                     index + d.size,
                     Emplace(e.table, a, d) - {k},
                     e.visited[k := a]))
  }

  // Managed objects not yet in to-space.
  function Pending(c: Config, to: Space, t: Table): set<nat> {
    set k | k in t && !c.InSpace(to, k)
  }

  // One turn of forward_ptr's loop: take the topmost slot of the stack.
  ghost function Step(c: Config, to: Space, scan: Scanning, e: Evac, stack: seq<nat>): (r: StepResult)
    requires stack != []
    ensures r.Next? ==>
      || Pending(c, to, r.e.table) < Pending(c, to, e.table)
      || (Pending(c, to, r.e.table) == Pending(c, to, e.table) && |r.stack| < |stack|)
  {
    var s := stack[|stack| - 1];
    var rest := stack[..|stack| - 1];
    var v := Target(e.mem, s);
    if !IsSlot(e.mem, s) then Next(e, rest)
    else if v in e.visited then Next(e.(mem := Cas(e.mem, s, v, e.visited[v])), rest)
    else if v !in e.table || c.InSpace(to, v) then Next(e, rest)
    else if !c.Contains(v) then Halt(e, NotManaged)
    else
      match CopyObject(c, to, e, s, v)
      case Faulted(e1, fault) => Halt(e1, fault)
      case Done(e1) =>
        CopyShrinksPending(c, to, e, s, v);
        var size := e.table[v].size;
        Next(e1, rest + match scan
                        case OfOriginal => ScanMemory(e.mem, v, v + size)
                        case OfCopy => ScanMemory(e1.mem, e1.visited[v], e1.visited[v] + size))
  }

  lemma CopyShrinksPending(c: Config, to: Space, e: Evac, slot: nat, k: nat)
    requires k in e.table && !c.InSpace(to, k) && CopyObject(c, to, e, slot, k).Done?
    ensures Pending(c, to, CopyObject(c, to, e, slot, k).e.table) < Pending(c, to, e.table)
  {
    var e1 := CopyObject(c, to, e, slot, k).e;
    assert k in Pending(c, to, e.table);
    assert Pending(c, to, e1.table) == Pending(c, to, e.table) - {k};
  }

  // forward_ptr's loop from a given stack. It ends because each turn copies an object or shortens the stack.
  ghost function Forward(c: Config, to: Space, scan: Scanning, e: Evac, stack: seq<nat>): Outcome
    decreases Pending(c, to, e.table), |stack|
  {
    if stack == [] then Done(e)
    else
      match Step(c, to, scan, e, stack)
      case Halt(e1, fault) => Faulted(e1, fault)
      case Next(e1, stack1) => Forward(c, to, scan, e1, stack1)
  }

  // Roots that hold no pointer into the heap are filtered out, each when its turn comes.
  ghost function ForwardRoots(c: Config, to: Space, scan: Scanning, e: Evac, roots: seq<nat>): Outcome
    decreases |roots|
  {
    if roots == [] then Done(e)
    else if IsSlot(e.mem, roots[0]) && c.Contains(Target(e.mem, roots[0])) then
      match Forward(c, to, scan, e, [roots[0]])
      case Faulted(e1, fault) => Faulted(e1, fault)
      case Done(e1) => ForwardRoots(c, to, scan, e1, roots[1..])
    else ForwardRoots(c, to, scan, e, roots[1..])
  }

  // The sweep: entries outside to-space that were not visited leave the table.
  function Sweep(c: Config, to: Space, e: Evac): Table {
    map k | k in e.table && (c.InSpace(to, k) || k in e.visited) :: e.table[k]
  }

  // async_collect: flip the spaces, forward every root, sweep. A fault leaves the work half done.
  ghost function Evacuate(c: Config, scan: Scanning, s: State, roots: seq<nat>): Outcome {
    ForwardRoots(c, s.active.Other(), scan, Evac(s.mem, s.Next(s.active.Other()), s.table, map[]), roots)
  }

  ghost function Collect(c: Config, scan: Scanning, s: State, roots: seq<nat>): State {
    var to := s.active.Other();
    match Evacuate(c, scan, s, roots)
    case Done(e) => State(e.mem, s.next0, s.next1, to, Sweep(c, to, e)).SetNext(s.active, 0).SetNext(to, e.next)
    case Faulted(e, _) => State(e.mem, s.next0, s.next1, to, e.table).SetNext(s.active, 0).SetNext(to, e.next)
  }

  // ---- Allocation ----

  const SIZE_MAX: nat := 0xFFFF_FFFF_FFFF_FFFF

  datatype AllocResult = Allocated(s: State, ptr: nat) | Refused(s: State, fault: Fault)

  function FreeSpace(c: Config, s: State): nat {
    if s.Next(s.active) >= c.maxAlloc then 0 else c.maxAlloc - s.Next(s.active)
  }

  // collect(): with the serial policy no collection is ever still running.
  ghost function CollectFor(c: Config, s: State, roots: seq<nat>, needed: nat): State {
    if FreeSpace(c, s) < needed then Collect(c, OfOriginal, s, roots) else s
  }

  // One attempt: reserve and check under the lock, then record. None is a failed reservation that did not throw.
  ghost function TryAlloc(c: Config, s: State, size: nat, alignment: nat): Option<AllocResult> {
    var base := c.Base(s.active);
    match Reserve(base, s.Next(s.active), size, alignment, c.maxAlloc)
    case None =>
      // check_overlapping_alloc reads the missing index as soon as there is an entry to compare with
      if s.table != map[] then Some(Refused(s, BadOptionalAccess)) else None
    case Some(index) =>
      var s1 := s.SetNext(s.active, index + size);
      if Overlaps(s.table, base + index, size) then Some(Refused(s1, HeapCorruption))
      else if size + index >= c.heapSize then Some(Refused(s1, BadAlloc))
      else Some(Allocated(s1.(table := Emplace(s.table, base + index, MetaData(size, alignment))), base + index))
  }

  // alloc_attempt: at most one retry, after a collection.
  ghost function AllocAttempt(c: Config, s: State, roots: seq<nat>, size: nat, alignment: nat): AllocResult {
    match TryAlloc(c, s, size, alignment)
    case Some(r) => r
    case None =>
      var s1 := CollectFor(c, s, roots, size);
      match TryAlloc(c, s1, size, alignment)
      case Some(r) => r
      case None => Refused(s1, BadAlloc)
  }

  ghost function Alloc(c: Config, s: State, roots: seq<nat>, size: nat, alignment: nat): AllocResult {
    if size == 0 || size > c.maxAlloc then Refused(s, BadAlloc) else AllocAttempt(c, s, roots, size, alignment)
  }

  // GC::alloc (src/safe_alloc.cpp): collect first when there is not enough free space.
  ghost function GcAlloc(c: Config, s: State, roots: seq<nat>, size: nat, alignment: nat): AllocResult {
    if FreeSpace(c, s) < size then
      var s1 := CollectFor(c, s, roots, SIZE_MAX);
      if FreeSpace(c, s1) < size then Refused(s1, BadAlloc) else Alloc(c, s1, roots, size, alignment)
    else Alloc(c, s, roots, size, alignment)
  }

  // ---- Well-formedness ----

  // The spaces do not share an address.
  predicate SpacesApart(c: Config) {
    c.base0 + c.heapSize <= c.base1 || c.base1 + c.heapSize <= c.base0
  }

  // Page-aligned, disjoint spaces inside the address space; at most half a space is ever handed out.
  predicate ValidConfig(c: Config, memorySize: nat) {
    && c.base0 % 256 == 0 && c.base1 % 256 == 0 && c.heapSize % 256 == 0
    && SpacesApart(c)
    && 2 * c.maxAlloc <= c.heapSize
    && c.base0 + c.heapSize + 8 <= memorySize && c.base1 + c.heapSize + 8 <= memorySize
    && memorySize <= ADDRESS_LIMIT
  }

  predicate Apart(j: nat, m: nat, k: nat, n: nat) {
    j + m <= k || k + n <= j
  }

  predicate AlignedTo(a: nat, alignment: nat) {
    alignment > 0 && a % alignment == 0
  }

  // Every managed object lies, aligned and apart from the others, in the used part of one space.
  ghost predicate WellPlaced(c: Config, sp: Space, t: Table, next: nat) {
    && next <= c.heapSize
    && (forall k :: k in t ==>
         && c.Base(sp) <= k && k + t[k].size <= c.Base(sp) + next
         && t[k].size > 0 && IsPow2(t[k].alignment) && AlignedTo(k, t[k].alignment))
    && (forall j, k :: j in t && k in t && j != k ==> Apart(j, t[j].size, k, t[k].size))
  }

  predicate Within(c: Config, sp: Space, end: nat, k: nat, n: nat) {
    c.Base(sp) <= k && k + n <= c.Base(sp) + end
  }

  // Every managed object is aligned and apart from the others, and lies below the bump index of the active
  // space or anywhere in the other one. This much holds even after a collection that failed.
  ghost predicate Placed(c: Config, s: State) {
    && ValidConfig(c, |s.mem|) && s.Next(s.active) <= c.heapSize && s.Next(s.active.Other()) == 0
    && (forall k :: k in s.table ==> Stands(c, s, k))
    && (forall j, k :: j in s.table && k in s.table && j != k ==> Apart(j, s.table[j].size, k, s.table[k].size))
  }

  ghost predicate Stands(c: Config, s: State, k: nat)
    requires k in s.table
  {
    var d := s.table[k];
    && d.size > 0 && IsPow2(d.alignment) && AlignedTo(k, d.alignment)
    && (Within(c, s.active, s.Next(s.active), k, d.size) || Within(c, s.active.Other(), c.heapSize, k, d.size))
  }

  // The heap invariant between operations.
  ghost predicate Invariant(c: Config, s: State) {
    && ValidConfig(c, |s.mem|)
    && WellPlaced(c, s.active, s.table, s.Next(s.active))
    && s.Next(s.active.Other()) == 0
  }
}
